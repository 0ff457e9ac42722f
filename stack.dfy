/**
 * The min-tracking stack of pkg/stacks/stack.go, on its int path.
 *
 * A node is never changed after it is allocated, so `Node` has only constant
 * fields and no frame of its own; a stack owns three mutable fields, `top`,
 * `length` and `min`, all of which its methods may update.
 */
module Stacks {
  import opened Wrappers
  import opened StackSpec
  import opened Sequences

  /** A node of the main list or of the min list. */
  class Node {
    const value: int
    const prev: Node?
    /** The values of this node and of every node below it, bottom-to-top. */
    ghost const elems: seq<int>
    /**
     * On a node of the main list: the min list of a stack whose top is this
     * node (unused on nodes of the min list).
     */
    ghost const mins: seq<int>

    constructor (value: int, prev: Node?, ghost mins: seq<int>)
      ensures this.value == value && this.prev == prev
      ensures elems == Elems(prev) + [value] && this.mins == mins
    {
      this.value := value;
      this.prev := prev;
      elems := Elems(prev) + [value];
      this.mins := mins;
    }
  }

  /** The values reachable from `n`, bottom-to-top; nil holds none. */
  ghost function Elems(n: Node?): seq<int>
  {
    if n == null then [] else n.elems
  }

  /** `n` heads a well-formed list: each node's values are its own on top of its predecessor's. */
  ghost predicate Chain(n: Node?)
    decreases |Elems(n)|
  {
    n == null || (n.elems == Elems(n.prev) + [n.value] && Chain(n.prev))
  }

  /** The min list recorded on a main-list node; nil records none. */
  ghost function Mins(n: Node?): seq<int>
  {
    if n == null then [] else n.mins
  }

  /**
   * `n` heads a well-formed main list whose every node records the min list
   * that calcMin leaves after that node is pushed.
   */
  ghost predicate TrackedChain(n: Node?)
    decreases |Elems(n)|
  {
    n == null ||
    (&& n.elems == Elems(n.prev) + [n.value]
     && n.mins == MinUpdate(Mins(n.prev), n.value, false)
     && TrackedChain(n.prev))
  }

  /** The min list recorded on a well-formed main list holds its running minima. */
  lemma {:induction false} TrackedChainMins(n: Node?)
    requires TrackedChain(n)
    ensures Mins(n) == MinRecords(Elems(n))
    decreases |Elems(n)|
  {
    if n != null {
      TrackedChainMins(n.prev);
      PushMinRecords(Elems(n.prev), n.value);
    }
  }

  /**
   * One round of MoveBack, on the sequences: `rest[0]` is the top of this
   * stack and moves from the front of `rest` to the end of `back`.
   */
  lemma MoveBackStep(s: seq<int>, a: seq<int>, back: seq<int>, rest: seq<int>)
    requires rest != []
    ensures s + ReverseSeq(rest) == (s + ReverseSeq(rest[1..])) + [rest[0]]
    ensures back + rest == (back + [rest[0]]) + rest[1..]
    ensures (a + back) + [rest[0]] == a + (back + [rest[0]])
  {
    assert rest == [rest[0]] + rest[1..];
    ReverseCons(rest[0], rest[1..]);
    AppendAssoc(s, ReverseSeq(rest[1..]), [rest[0]]);
    AppendAssoc(a, back, [rest[0]]);
    AppendAssoc(back, [rest[0]], rest[1..]);
  }

  /** The prefix of `c` ending at index `i` is the one ending before it plus `c[i]`. */
  lemma PrefixStep(c: seq<int>, p: seq<int>, v: int, i: int)
    requires 0 <= i < |c| && c[..i + 1] == p + [v]
    ensures p == c[..i] && v == c[i]
  {
    assert c[..i + 1][..i] == c[..i] && (p + [v])[..i] == p;
  }

  /**
   * One value `v` popped off a stack whose values are `below + [v] + moved`
   * and pushed onto one whose values are `s + ReverseSeq(moved)`.
   */
  lemma TransferStep(below: seq<int>, v: int, moved: seq<int>, s: seq<int>)
    ensures below + [v] + moved == below + ([v] + moved)
    ensures s + ReverseSeq([v] + moved) == s + ReverseSeq(moved) + [v]
    ensures ([v] + moved)[1..] == moved
  {
    AppendAssoc(below, [v], moved);
    ReverseCons(v, moved);
    AppendAssoc(s, ReverseSeq(moved), [v]);
  }

  /** One value moved from the top of one stack onto another keeps their combined multiset. */
  lemma MoveOne(rest: seq<int>, v: int, other: multiset<int>, other': multiset<int>)
    requires other' == other + multiset{v}
    ensures multiset(rest + [v]) + other == multiset(rest) + other'
  {
  }

  /** Error value of a nil operand (utils.StructIsNilException), with the field values the source passes. */
  datatype StructIsNil = StructIsNil(dataStructure: string, funcName: string)

  class Stack {
    var top: Node?
    var length: int
    var min: Node?

    /** The stack's values, bottom-to-top. */
    ghost function Contents(): seq<int>
      reads this
    {
      Elems(top)
    }

    /** The min list's values, tail-to-head (its head, the current minimum, is last). */
    ghost function MinList(): seq<int>
      reads this
    {
      Elems(min)
    }

    /**
     * The stack invariant: both lists are well formed, `length` counts the
     * nodes reachable from `top`, and the min list holds exactly the running
     * minima of the values in the stack.
     */
    ghost predicate Valid()
      reads this
    {
      && TrackedChain(top)
      && Chain(min)
      && length == |Contents()|
      && MinList() == Mins(top)
    }

    /** NewStack: an empty stack. */
    constructor ()
      ensures Valid() && Contents() == []
    {
      top := null;
      length := 0;
      min := null;
    }

    /** The top value, or nil on an empty stack. */
    function Top(): (t: Option<int>)
      reads this
      requires Valid()
      ensures t.None? <==> Contents() == []
      ensures t.Some? ==> t.value == Contents()[|Contents()| - 1]
    {
      if top == null then None else Some(top.value)
    }

    /** The number of nodes. */
    function Len(): (n: int)
      reads this
      requires Valid()
      ensures n == |Contents()|
      ensures n == 0 <==> top == null
    {
      length
    }

    /** The smallest value in the stack, read from the head of the min list. */
    ghost function MinValue(): (m: int)
      reads this
      requires Valid() && Contents() != []
      ensures m in Contents()
      ensures forall x :: x in Contents() ==> m <= x
    {
      MinListIsRunningMinima();
      MinRecordsHeadIsMinimum(Contents());
      min.value
    }

    /** The stack invariant keeps the min list equal to the running minima of the values. */
    lemma MinListIsRunningMinima()
      requires Valid()
      ensures MinList() == MinRecords(Contents())
    {
      TrackedChainMins(top);
    }

    /**
     * The min list is empty exactly when the stack is; its head is the
     * smallest value in the stack; read from the head, it is non-decreasing.
     */
    lemma MinListInvariant()
      requires Valid()
      ensures MinList() == [] <==> Contents() == []
      ensures MinList() != [] ==> MinList()[|MinList()| - 1] in Contents()
      ensures MinList() != [] ==> forall x :: x in Contents() ==> MinList()[|MinList()| - 1] <= x
      ensures NonIncreasing(MinList())
    {
      MinListIsRunningMinima();
      MinRecordsHeadIsMinimum(Contents());
      MinRecordsOrdered(Contents());
    }

    method Push(value: int) returns (pushed: int)
      requires Valid()
      modifies this
      ensures Valid()
      ensures Contents() == old(Contents()) + [value]
      ensures Top() == Some(value) && Len() == old(Len()) + 1
      ensures pushed == value
    {
      top := new Node(value, top, MinUpdate(Mins(top), value, false));
      length := length + 1;
      CalcMin(value, false);
      pushed := top.value;
    }

    /** Pop on an empty stack panics, so callers must not do it. */
    method Pop() returns (detachedHead: int)
      requires Valid() && Contents() != []
      modifies this
      ensures Valid()
      ensures detachedHead == old(Contents())[|old(Contents())| - 1]
      ensures Contents() == old(Contents())[..|old(Contents())| - 1]
      ensures old(Contents()) == Contents() + [detachedHead]
      ensures Len() == old(Len()) - 1
    {
      TrackedChainMins(top);
      TrackedChainMins(top.prev);
      PopMinRecords(old(Contents()));
      detachedHead := top.value;
      if top.prev == null {
        top := null;
      } else {
        top := top.prev;
      }
      length := length - 1;
      CalcMin(detachedHead, true);
    }

    /**
     * calcMin on the int path. A nil value never reaches it (an int is never
     * nil), so the source's `value == nil` branch is not represented.
     */
    method CalcMin(value: int, isPop: bool)
      requires Chain(min)
      modifies this`min
      ensures Chain(min)
      ensures MinList() == MinUpdate(old(MinList()), value, isPop)
    {
      if min == null {
        min := new Node(value, null, []);
        return;
      }
      if isPop && value == min.value {
        min := min.prev;
        return;
      }
      if value <= min.value {
        PushMin(value);
      }
    }

    /** pushMin: a new head for the min list. */
    method PushMin(value: int)
      requires Chain(min)
      modifies this`min
      ensures Chain(min)
      ensures MinList() == old(MinList()) + [value]
    {
      if min == null {
        min := new Node(value, null, []);
      } else {
        var node := new Node(value, min, []);
        min := node;
      }
    }

    /** The values bottom-to-top, the top at the last index. */
    method ToArray() returns (arr: array<int>)
      requires Valid()
      ensures fresh(arr)
      ensures arr.Length == Len()
      ensures arr[..] == Contents()
    {
      arr := new int[length];
      var node := top;
      var index := length - 1;
      while index >= 0
        invariant -1 <= index < length
        invariant TrackedChain(node)
        invariant Elems(node) == Contents()[..index + 1]
        invariant forall j :: index < j < length ==> arr[j] == Contents()[j]
      {
        PrefixStep(Contents(), Elems(node.prev), node.value, index);
        arr[index] := node.value;
        node := node.prev;
        index := index - 1;
      }
    }

    /** Pushes `values` from index 0 up, so the last of them ends on top. */
    method AppendArray(values: seq<int>)
      requires Valid()
      modifies this
      ensures Valid()
      ensures Contents() == old(Contents()) + values
    {
      ghost var s0 := Contents();
      for index := 0 to |values|
        invariant Valid()
        invariant Contents() == s0 + values[..index]
      {
        AppendAssoc(s0, values[..index], [values[index]]);
        assert values[..index + 1] == values[..index] + [values[index]];
        var _ := Push(values[index]);
      }
      assert values[..|values|] == values;
    }

    /**
     * Walks the list from `from` down to the bottom, pushing each value onto
     * this stack: the loop that Reverse and AppendReverse share. The walk
     * follows nodes that are never changed, so `from` may belong to this
     * stack itself; it then covers the values this stack had on entry.
     */
    method PushFrom(from: Node?)
      requires Valid() && TrackedChain(from)
      modifies this
      ensures Valid()
      ensures Contents() == old(Contents()) + ReverseSeq(Elems(from))
    {
      ghost var s0 := Contents();
      ghost var visited: seq<int> := [];
      var node := from;
      while node != null
        invariant Valid() && TrackedChain(node)
        invariant Elems(from) == Elems(node) + visited
        invariant Contents() == s0 + ReverseSeq(visited)
        decreases |Elems(node)|
      {
        AppendAssoc(Elems(node.prev), [node.value], visited);
        ReverseCons(node.value, visited);
        AppendAssoc(s0, ReverseSeq(visited), [node.value]);
        var _ := Push(node.value);
        visited := [node.value] + visited;
        node := node.prev;
      }
      assert Elems(from) == [] + visited == visited;
    }

    /** A new stack holding this one's values in the opposite order; this one is not changed. */
    method Reverse() returns (stack: Stack)
      requires Valid()
      ensures fresh(stack) && stack.Valid()
      ensures stack.Contents() == ReverseSeq(Contents())
    {
      stack := new Stack();
      stack.PushFrom(top);
    }

    /**
     * Pushes the values of `stack` from its top down onto `s`. A nil `s` or a
     * nil `stack` is an error and changes nothing. `s` and `stack` may be the
     * same stack.
     */
    static method AppendReverse(s: Stack?, stack: Stack?) returns (err: Option<StructIsNil>)
      requires s != null ==> s.Valid()
      requires stack != null ==> stack.Valid()
      modifies s
      ensures err.Some? <==> s == null || stack == null
      ensures s != null ==> s.Valid()
      ensures s != null && stack == null ==> s.Contents() == old(s.Contents())
      ensures s != null && stack != null ==>
                s.Contents() == old(s.Contents()) + ReverseSeq(old(stack.Contents()))
      ensures stack != null && stack != s ==> stack.Contents() == old(stack.Contents())
    {
      if s == null {
        return Some(StructIsNil("AppendReverse", "Stack"));
      }
      if stack == null {
        return Some(StructIsNil("AppendReverse", "Stack"));
      }
      s.PushFrom(stack.top);
      return None;
    }

    /**
     * Pushes the values of `stack` onto `s` keeping their order, so `stack`'s
     * top ends on top. `stack` is reversed first, so a nil `stack` panics;
     * a nil `s` is an error.
     */
    static method Append(s: Stack?, stack: Stack) returns (err: Option<StructIsNil>)
      requires s != null ==> s.Valid()
      requires stack.Valid()
      modifies s
      ensures err.Some? <==> s == null
      ensures s != null ==> s.Valid()
      ensures s != null ==> s.Contents() == old(s.Contents()) + old(stack.Contents())
      ensures stack != s ==> stack.Contents() == old(stack.Contents())
    {
      var reversed := stack.Reverse();
      err := AppendReverse(s, reversed);
      ReverseInvolutive(old(stack.Contents()));
    }
  
    /**
     * Sorts the stack in place, smallest value at the bottom and largest on
     * top, using only Push, Pop and Top on this stack and on one auxiliary
     * stack. The auxiliary stack is kept non-decreasing from its top down
     * (`NonIncreasing` bottom to top); each round of the main loop inserts
     * the top value of this stack into it.
     */
    method SortN()
      requires Valid()
      modifies this
      ensures Valid()
      ensures NonDecreasing(Contents())
      ensures multiset(Contents()) == multiset(old(Contents()))
    {
      if Top().None? {
        return;
      }
      // Every value is an int, so the type switch on the top always takes its int case.
      var stack := new Stack();
      InsertAllInto(stack);
      ghost var A := stack.Contents();
      PourFrom(stack);
      assert Contents() == ReverseSeq(A);
      ReverseNonIncreasing(A);
      ReverseMultiset(A);
    }

    /**
     * The last loop of SortN: pops every value off `stack` and pushes it
     * onto this stack, so the auxiliary order comes out reversed.
     */
    method PourFrom(stack: Stack)
      requires Valid() && stack.Valid() && stack != this
      modifies this, stack
      ensures Valid() && stack.Valid()
      ensures Contents() == old(Contents()) + ReverseSeq(old(stack.Contents()))
      ensures stack.Contents() == []
    {
      ghost var S, A := Contents(), stack.Contents();
      // `poured`: the values already moved, in their order on `stack`.
      ghost var poured: seq<int> := [];
      while stack.Top().Some?
        invariant Valid() && stack.Valid()
        invariant A == stack.Contents() + poured
        invariant Contents() == S + ReverseSeq(poured)
        decreases |stack.Contents()|
      {
        ghost var below := stack.Contents()[..|stack.Contents()| - 1];
        var v := stack.Pop();
        TransferStep(below, v, poured, S);
        var _ := Push(v);
        poured := [v] + poured;
      }
      assert A == poured;
    }

    /**
     * The main loop of SortN: empties this stack into `stack`, keeping
     * `stack` non-decreasing from its top down.
     */
    method InsertAllInto(stack: Stack)
      requires Valid() && stack.Valid() && stack != this && stack.Contents() == []
      modifies this, stack
      ensures Valid() && stack.Valid()
      ensures Contents() == []
      ensures NonIncreasing(stack.Contents())
      ensures multiset(stack.Contents()) == multiset(old(Contents()))
    {
      ghost var all := multiset(Contents());
      while Top().Some?
        invariant Valid() && stack.Valid()
        invariant multiset(Contents()) + multiset(stack.Contents()) == all
        invariant NonIncreasing(stack.Contents())
        decreases |Contents()|
      {
        ghost var c, a := Contents(), stack.Contents();
        if stack.Top().None? {
          var v := Pop();
          var _ := stack.Push(v);
        } else {
          InsertTopInto(stack);
        }
        MoveOne(Contents(), c[|c| - 1], multiset(a), multiset(stack.Contents()));
      }
    }

    /**
     * One round of SortN's main loop: pops the top value of this stack and
     * inserts it into `stack`, below every entry smaller than it. Those
     * entries are parked on this stack meanwhile and then moved back.
     */
    method InsertTopInto(stack: Stack)
      requires Valid() && stack.Valid() && stack != this && Contents() != [] && stack.Contents() != []
      requires NonIncreasing(stack.Contents())
      modifies this, stack
      ensures Valid() && stack.Valid()
      ensures old(Contents()) == Contents() + [old(Contents())[|old(Contents())| - 1]]
      ensures NonIncreasing(stack.Contents())
      ensures multiset(stack.Contents()) == multiset(old(stack.Contents())) + multiset{old(Contents())[|old(Contents())| - 1]}
    {
      var value := Top().value;
      ghost var S, A := Contents(), stack.Contents();
      ghost var moved;
      var count;
      count, moved := ParkSmaller(stack, value);
      ghost var below := stack.Contents();
      var _ := stack.Push(value);
      MoveBack(stack, count, S, moved);
      InsertBelowSmaller(below, value, moved);
      MultisetInsert(below, value, moved);
      var _ := Pop();
      assert S == Contents() + [value];
    }

    /**
     * The first inner loop of SortN: moves the entries of `stack` smaller
     * than `value` from its top onto this stack and counts them; `moved`
     * lists them in their order on `stack`.
     */
    method ParkSmaller(stack: Stack, value: int) returns (count: int, ghost moved: seq<int>)
      requires Valid() && stack.Valid() && stack != this
      modifies this, stack
      ensures Valid() && stack.Valid()
      ensures old(stack.Contents()) == stack.Contents() + moved && count == |moved|
      ensures Contents() == old(Contents()) + ReverseSeq(moved)
      ensures AllBelow(moved, value)
      ensures stack.Contents() == [] || stack.Contents()[|stack.Contents()| - 1] >= value
    {
      ghost var S, A := Contents(), stack.Contents();
      moved := [];
      count := 0;
      while stack.Top().Some? && stack.Top().value < value
        invariant Valid() && stack.Valid()
        invariant A == stack.Contents() + moved
        invariant Contents() == S + ReverseSeq(moved)
        invariant count == |moved|
        invariant AllBelow(moved, value)
        decreases |stack.Contents()|
      {
        ghost var below := stack.Contents()[..|stack.Contents()| - 1];
        var v := stack.Pop();
        TransferStep(below, v, moved, S);
        var _ := Push(v);
        moved := [v] + moved;
        count := count + 1;
      }
    }

    /**
     * The second inner loop of SortN: pops the `count` values that
     * ParkSmaller moved here and pushes each back onto `stack`; `moved` lists
     * them in their order on `stack`, and `s` is this stack below them.
     */
    method MoveBack(stack: Stack, count: int, ghost s: seq<int>, ghost moved: seq<int>)
      requires Valid() && stack.Valid() && stack != this
      requires Contents() == s + ReverseSeq(moved) && count == |moved|
      modifies this, stack
      ensures Valid() && stack.Valid()
      ensures Contents() == s
      ensures stack.Contents() == old(stack.Contents()) + moved
    {
      ghost var A := stack.Contents();
      // `back`: the values already returned; `rest`: those still here.
      ghost var back, rest: seq<int> := [], moved;
      var n := count;
      while n > 0
        invariant Valid() && stack.Valid()
        invariant stack.Contents() == A + back
        invariant moved == back + rest
        invariant Contents() == s + ReverseSeq(rest)
        invariant n == |rest|
      {
        MoveBackStep(s, A, back, rest);
        var v := Pop();
        var _ := stack.Push(v);
        back, rest := back + [rest[0]], rest[1..];
        n := n - 1;
      }
      assert Contents() == s + [];
    }

    /**
     * Sorts the stack in place through a slice, smallest value at the bottom
     * and largest on top, and returns this same stack; an empty stack gives
     * nil and is left as it is.
     */
    method Sort() returns (sorted: Stack?)
      requires Valid()
      modifies this
      ensures Valid()
      ensures sorted == null <==> old(Contents()) == []
      ensures sorted != null ==> sorted == this
      ensures NonDecreasing(Contents())
      ensures multiset(Contents()) == multiset(old(Contents()))
    {
      if Top().None? {
        return null;
      }
      var stack := this;
      ghost var c := Contents();
      var arr: seq<int> := [];
      // Every value is an int, so the type switch on the top takes its int case.
      while stack.Top().Some?
        invariant stack == this && Valid()
        invariant c == Contents() + ReverseSeq(arr)
        decreases |Contents()|
      {
        ghost var below := Contents()[..|Contents()| - 1];
        var v := stack.Pop();
        ReverseSnoc(arr, v);
        AppendAssoc(below, [v], ReverseSeq(arr));
        arr := arr + [v];
      }
      ReverseMultiset(arr);
      SortIntsSorted(arr);
      arr := SortInts(arr);
      stack.AppendArray(arr);
      sorted := stack;
    }
  }

  /** A new stack filled by AppendArray from another stack's ToArray holds the same values. */
  method ArrayRoundTrip(s: Stack) returns (t: Stack)
    requires s.Valid()
    ensures fresh(t) && t.Valid()
    ensures t.Contents() == s.Contents()
  {
    var arr := s.ToArray();
    t := new Stack();
    t.AppendArray(arr[..]);
  }

  /** Reversing a stack twice gives a new stack with the same values. */
  method ReverseTwice(s: Stack) returns (t: Stack)
    requires s.Valid()
    ensures fresh(t) && t.Valid()
    ensures t.Contents() == s.Contents()
  {
    var r := s.Reverse();
    t := r.Reverse();
    ReverseInvolutive(s.Contents());
  }
}
