/**
 * The linked-list algorithms of pkg/linkedlists/linkedlist.go.
 *
 * The doubly linked `container/list` is represented by the sequence of its
 * values, front to back; unlinking an element removes it from the sequence.
 * A cursor that walks forward from the front is the index of its element.
 * A cursor that walks backward from the back is its distance from the back
 * (1 for the back element), which removals in front of it do not change.
 */
module LinkedLists {
  import opened Wrappers
  import opened ListSpec
  import opened Sequences

  class LinkedList {
    /** The values of the list, front to back. */
    var list: seq<int>

    /** NewLinkedList: an empty list. */
    constructor ()
      ensures list == []
    {
      list := [];
    }

    /** list.Remove: unlinks the element at `index`. */
    method Remove(index: int)
      requires 0 <= index < |list|
      modifies this
      ensures list == old(list)[..index] + old(list)[index + 1..]
    {
      list := list[..index] + list[index + 1..];
    }

    /** Pushes the values of `values` at the back in index order and returns this list. */
    method CreateListFromArray(values: seq<int>) returns (l: LinkedList)
      modifies this
      ensures l == this
      ensures list == old(list) + values
    {
      ghost var l0 := list;
      for index := 0 to |values|
        invariant list == l0 + values[..index]
      {
        assert values[..index + 1] == values[..index] + [values[index]];
        list := list + [values[index]];
      }
      assert values[..|values|] == values;
      l := this;
    }

    /**
     * Removes every value that occurs earlier in the list, whichever way
     * `noAdditionalDatastructures` selects.
     */
    method DeleteDuplicates(noAdditionalDatastructures: bool)
      modifies this
      ensures list == DedupFirst(old(list))
    {
      if list == [] {
        return;
      }
      if noAdditionalDatastructures {
        DeleteDuplicatesInPlace();
      } else {
        DeleteDuplicatesHashed();
      }
    }

    /** The branch of DeleteDuplicates without extra storage: one scan per kept value. */
    method DeleteDuplicatesInPlace()
      requires list != []
      modifies this
      ensures list == DedupFirst(old(list))
    {
      ghost var l0 := list;
      var element := 0;
      while element + 1 < |list|
        invariant 0 <= element < |list|
        invariant DedupFirst(l0) == list[..element] + DedupFirst(list[element..])
        decreases |list| - element
      {
        ghost var l1 := list;
        RemoveLaterCopies(element);
        ScanFrontDone(l1, element);
        element := element + 1;
        if element == |list| {
          break;
        }
      }
      assert DedupFirst(list[element..]) == list[element..] by {
        if element < |list| {
          assert list[element..] == [list[element]];
        }
      }
      assert list == list[..element] + list[element..];
    }

    /** The inner loop of DeleteDuplicates without extra storage. */
    method RemoveLaterCopies(element: int)
      requires 0 <= element < |list|
      modifies this
      ensures list == old(list)[..element + 1] + Without(old(list)[element + 1..], {old(list)[element]})
    {
      ghost var prefix, rest := list[..element + 1], list[element + 1..];
      var x := list[element];
      // `kept`: the values scanned and kept; `todo`: the values not yet scanned.
      ghost var kept, todo: seq<int> := [], rest;
      var node := element;
      while node + 1 < |list|
        invariant list == prefix + kept + todo
        invariant node == |prefix| + |kept| - 1
        invariant kept + Without(todo, {x}) == Without(rest, {x})
        decreases |todo|
      {
        if list[node + 1] == list[element] {
          ScanDrop(prefix, kept, todo, x);
          Remove(node + 1);
          todo := todo[1..];
        } else {
          ScanKeep(prefix, kept, todo, x);
          kept, todo := kept + [todo[0]], todo[1..];
          node := node + 1;
        }
      }
      assert todo == [] && kept + [] == kept;
    }

    /** The hash-set branch of DeleteDuplicates: one scan, remembering the values seen. */
    method DeleteDuplicatesHashed()
      requires list != []
      modifies this
      ensures list == DedupFirst(old(list))
    {
      ghost var l0 := list;
      var element := 0;
      var hMap: map<int, bool> := map[list[element] := true];
      assert l0 == [l0[0]] + l0[1..] && l0[..1] == [l0[0]] && hMap.Keys == {l0[0]};
      while element + 1 < |list|
        invariant 0 <= element < |list|
        invariant DedupFirst(l0) == list[..element + 1] + DedupFirst(Without(list[element + 1..], hMap.Keys))
        decreases |list| - element
      {
        var next := list[element + 1];
        ghost var l1, keys := list, hMap.Keys;
        if next in hMap {
          HashedFrontDrop(l1, element, keys);
          Remove(element + 1);
        } else {
          HashedFrontKeep(l1, element, keys);
          hMap := hMap[next := true];
          assert hMap.Keys == keys + {next};
          element := element + 1;
        }
      }
      assert list[element + 1..] == [] && list[..element + 1] == list;
    }

    /**
     * Removes every value that occurs later in the list, whichever way
     * `noAdditionalDatastructures` selects.
     */
    method DeleteDuplicatesBack(noAdditionalDatastructures: bool)
      modifies this
      ensures list == DedupLast(old(list))
    {
      if list == [] {
        return;
      }
      if noAdditionalDatastructures {
        DeleteDuplicatesBackInPlace();
      } else {
        DeleteDuplicatesBackHashed();
      }
    }

    /** The branch of DeleteDuplicatesBack without extra storage. */
    method DeleteDuplicatesBackInPlace()
      requires list != []
      modifies this
      ensures list == DedupLast(old(list))
    {
      ghost var l0 := list;
      // The element is `element` places from the back.
      var element := 1;
      assert list[..|list|] == list && list[|list|..] == [];
      while element < |list|
        invariant 1 <= element <= |list|
        invariant DedupLast(l0) == DedupLast(list[..|list| - element + 1]) + list[|list| - element + 1..]
        decreases |list| - element
      {
        ghost var l1 := list;
        RemoveEarlierCopies(element);
        ScanBackDone(l1, element);
        element := element + 1;
        if element > |list| {
          break;
        }
      }
      ScanBackFinished(list, element);
    }

    /** The inner loop of DeleteDuplicatesBack without extra storage. */
    method RemoveEarlierCopies(element: int)
      requires 1 <= element <= |list|
      modifies this
      ensures var p := |old(list)| - element;
        list == Without(old(list)[..p], {old(list)[p]}) + old(list)[p..]
    {
      ghost var before, suffix := list[..|list| - element], list[|list| - element..];
      var x := list[|list| - element];
      // `kept`: the values scanned and kept; `todo`: the values not yet scanned.
      ghost var todo, kept: seq<int> := before, [];
      // The node is `node` places from the back.
      var node := element;
      while node < |list|
        invariant list == todo + kept + suffix
        invariant node == |kept| + |suffix|
        invariant Without(todo, {x}) + kept == Without(before, {x})
        decreases |todo|
      {
        if list[|list| - node - 1] == list[|list| - element] {
          ScanDropBack(todo, kept, suffix, x);
          Remove(|list| - node - 1);
          todo := todo[..|todo| - 1];
        } else {
          ScanKeepBack(todo, kept, suffix, x);
          todo, kept := todo[..|todo| - 1], [todo[|todo| - 1]] + kept;
          node := node + 1;
        }
      }
      assert todo == [] && Without(todo, {x}) + kept == kept && [] + kept + suffix == kept + suffix;
    }

    /** The hash-set branch of DeleteDuplicatesBack. */
    method DeleteDuplicatesBackHashed()
      requires list != []
      modifies this
      ensures list == DedupLast(old(list))
    {
      ghost var l0 := list;
      // The element is `element` places from the back.
      var element := 1;
      var hMap: map<int, bool> := map[list[|list| - element] := true];
      assert l0 == l0[..|l0| - 1] + [l0[|l0| - 1]] && l0[|l0| - 1..] == [l0[|l0| - 1]];
      assert hMap.Keys == {l0[|l0| - 1]};
      while element < |list|
        invariant 1 <= element <= |list|
        invariant DedupLast(l0) == DedupLast(Without(list[..|list| - element], hMap.Keys)) + list[|list| - element..]
        decreases |list| - element
      {
        var q := |list| - element - 1;
        var prev := list[q];
        ghost var l1, keys := list, hMap.Keys;
        if prev in hMap {
          HashedBackDrop(l1, q, keys);
          Remove(q);
        } else {
          HashedBackKeep(l1, q, keys);
          hMap := hMap[prev := true];
          assert hMap.Keys == keys + {prev};
          element := element + 1;
        }
      }
      assert list[..|list| - element] == [] && list[|list| - element..] == list;
    }

    /**
     * The element `k` places from the back (the back itself for `k == 0`),
     * as its index; None for an empty list, a negative `k` or a `k` past
     * the front.
     */
    method KthToLast(k: int) returns (e: Option<nat>)
      ensures e.None? <==> list == [] || k < 0 || k > |list|
      ensures e.Some? ==> e.value < |list| && |list| - e.value == (if k == 0 then 1 else k)
    {
      if list == [] || k < 0 {
        return None;
      }
      var target := if k == 0 then 1 else k;
      // The cursors' indices; `elementAhead == |list|` is past the back.
      var elementAhead, elementDelay := 0, 0;
      var count := 0;
      while elementAhead < |list|
        invariant 0 <= elementAhead <= |list| && count == elementAhead
        invariant elementDelay == if count > target then count - target else 0
      {
        count := count + 1;
        if count > target {
          elementDelay := elementDelay + 1;
        }
        elementAhead := elementAhead + 1;
      }
      if count < target {
        return None;
      }
      return Some(elementDelay);
    }

    /** The values front to back; a nil list gives none. */
    static method ToArray(l: LinkedList?) returns (arr: seq<int>)
      ensures l == null ==> arr == []
      ensures l != null ==> arr == l.list
    {
      arr := [];
      if l == null {
        return;
      }
      var element := 0;
      while element < |l.list|
        invariant 0 <= element <= |l.list|
        invariant arr == l.list[..element]
      {
        assert l.list[..element + 1] == l.list[..element] + [l.list[element]];
        arr := arr + [l.list[element]];
        element := element + 1;
      }
      assert l.list[..|l.list|] == l.list;
    }
  }

  /** A list built from `values` gives them back. */
  method ArrayRoundTrip(values: seq<int>) returns (arr: seq<int>)
    ensures arr == values
  {
    var l := new LinkedList();
    l := l.CreateListFromArray(values);
    arr := LinkedList.ToArray(l);
  }

  // ---------------------------------------------------------------------
  // One step of each scan, stated on the list before the step
  // ---------------------------------------------------------------------

  /** The forward scan unlinks a copy of `x` just after the kept values. */
  lemma ScanDrop(p: seq<int>, k: seq<int>, u: seq<int>, x: int)
    requires u != [] && u[0] == x
    ensures Without(u, {x}) == Without(u[1..], {x})
    ensures var s := p + k + u; s[..|p + k|] + s[|p + k| + 1..] == p + k + u[1..]
  {
    var s := p + k + u;
    assert s[..|p + k|] == p + k;
    assert s[|p + k| + 1..] == u[1..];
  }

  /** The forward scan passes a value other than `x` and keeps it. */
  lemma ScanKeep(p: seq<int>, k: seq<int>, u: seq<int>, x: int)
    requires u != [] && u[0] != x
    ensures k + Without(u, {x}) == (k + [u[0]]) + Without(u[1..], {x})
    ensures p + k + u == p + (k + [u[0]]) + u[1..]
  {
    assert u == [u[0]] + u[1..];
    assert Without(u, {x}) == [u[0]] + Without(u[1..], {x});
    AppendAssoc(k, [u[0]], Without(u[1..], {x}));
    AppendAssoc(p + k, [u[0]], u[1..]);
    AppendAssoc(p, k, [u[0]]);
  }

  /** After the forward scan from `e`, the value at `e` is settled. */
  lemma ScanFrontDone(l: seq<int>, e: int)
    requires 0 <= e < |l|
    ensures var l' := l[..e + 1] + Without(l[e + 1..], {l[e]});
      l[..e] + DedupFirst(l[e..]) == l'[..e + 1] + DedupFirst(l'[e + 1..])
  {
    var w := Without(l[e + 1..], {l[e]});
    var l' := l[..e + 1] + w;
    assert l[e..][0] == l[e] && l[e..][1..] == l[e + 1..];
    assert l'[..e + 1] == l[..e] + [l[e]] && l'[e + 1..] == w;
  }

  /** The backward scan unlinks a copy of `x` just before the kept values. */
  lemma ScanDropBack(u: seq<int>, k: seq<int>, b: seq<int>, x: int)
    requires u != [] && u[|u| - 1] == x
    ensures Without(u, {x}) == Without(u[..|u| - 1], {x})
    ensures var s := u + k + b; s[..|u| - 1] + s[|u|..] == u[..|u| - 1] + k + b
  {
    var t := u[..|u| - 1];
    assert u == t + [x];
    WithoutSnoc(t, x, {x});
    assert Without(t, {x}) + [] == Without(t, {x});
    AppendAssoc(u, k, b);
    AppendAssoc(t, k, b);
    var s := u + (k + b);
    assert s[..|u| - 1] == t;
    assert s[|u|..] == k + b;
  }

  /** The backward scan passes a value other than `x` and keeps it. */
  lemma ScanKeepBack(u: seq<int>, k: seq<int>, b: seq<int>, x: int)
    requires u != [] && u[|u| - 1] != x
    ensures Without(u, {x}) + k == Without(u[..|u| - 1], {x}) + ([u[|u| - 1]] + k)
    ensures u + k + b == u[..|u| - 1] + ([u[|u| - 1]] + k) + b
  {
    var t, y := u[..|u| - 1], u[|u| - 1];
    assert u == t + [y];
    WithoutSnoc(t, y, {x});
    AppendAssoc(Without(t, {x}), [y], k);
    AppendAssoc(t, [y], k);
  }

  /** After the backward scan from `e` places from the back, that value is settled. */
  lemma ScanBackDone(l: seq<int>, e: int)
    requires 1 <= e <= |l|
    ensures var p := |l| - e;
      var l' := Without(l[..p], {l[p]}) + l[p..];
      |l'| >= e && DedupLast(l[..p + 1]) + l[p + 1..] == DedupLast(l'[..|l'| - e]) + l'[|l'| - e..]
  {
    var p := |l| - e;
    var w := Without(l[..p], {l[p]});
    var l' := w + l[p..];
    assert l[..p + 1][..p] == l[..p] && l[..p + 1][p] == l[p];
    assert l'[..|l'| - e] == w && l'[|l'| - e..] == l[p..];
    assert l[p..] == [l[p]] + l[p + 1..];
    assert DedupLast(l[..p + 1]) == DedupLast(w) + [l[p]];
    AppendAssoc(DedupLast(w), [l[p]], l[p + 1..]);
  }

  /** Once the backward scans reach the front, the whole list is settled. */
  lemma ScanBackFinished(l: seq<int>, e: int)
    requires 1 <= e && |l| <= e <= |l| + 1
    ensures DedupLast(l[..|l| - e + 1]) + l[|l| - e + 1..] == l
  {
    if e == |l| {
      assert l[..1] == [l[0]];
      assert DedupLast([l[0]]) == DedupLast(Without([], {l[0]})) + [l[0]];
      assert l == l[..1] + l[1..];
    } else {
      assert l[..0] == [] && l[0..] == l;
    }
  }

  /** The hash-set scan of DeleteDuplicates unlinks a value already seen. */
  lemma HashedFrontDrop(l: seq<int>, e: int, seen: set<int>)
    requires 0 <= e && e + 1 < |l| && l[e + 1] in seen
    ensures var l' := l[..e + 1] + l[e + 2..];
      l'[..e + 1] == l[..e + 1] && Without(l'[e + 1..], seen) == Without(l[e + 1..], seen)
  {
    var l' := l[..e + 1] + l[e + 2..];
    assert l'[e + 1..] == l[e + 2..];
    assert l[e + 1..][0] == l[e + 1] && l[e + 1..][1..] == l[e + 2..];
  }

  /** The hash-set scan of DeleteDuplicates keeps a value not seen before. */
  lemma HashedFrontKeep(l: seq<int>, e: int, seen: set<int>)
    requires 0 <= e && e + 1 < |l| && l[e + 1] !in seen
    ensures l[..e + 1] + DedupFirst(Without(l[e + 1..], seen))
         == l[..e + 2] + DedupFirst(Without(l[e + 2..], seen + {l[e + 1]}))
  {
    assert l[e + 1..] == [l[e + 1]] + l[e + 2..];
    DedupFirstKeepNew(l[e + 1], l[e + 2..], seen);
    assert l[..e + 2] == l[..e + 1] + [l[e + 1]];
  }

  /** The hash-set scan of DeleteDuplicatesBack unlinks a value already seen. */
  lemma HashedBackDrop(l: seq<int>, q: int, seen: set<int>)
    requires 0 <= q < |l| && l[q] in seen
    ensures var l' := l[..q] + l[q + 1..];
      l'[q..] == l[q + 1..] && Without(l'[..q], seen) == Without(l[..q + 1], seen)
  {
    var l' := l[..q] + l[q + 1..];
    assert l'[..q] == l[..q] && l[..q + 1] == l[..q] + [l[q]];
    WithoutSnoc(l[..q], l[q], seen);
  }

  /** The hash-set scan of DeleteDuplicatesBack keeps a value not seen before. */
  lemma HashedBackKeep(l: seq<int>, q: int, seen: set<int>)
    requires 0 <= q < |l| && l[q] !in seen
    ensures DedupLast(Without(l[..q + 1], seen)) + l[q + 1..]
         == DedupLast(Without(l[..q], seen + {l[q]})) + l[q..]
  {
    assert l[..q + 1] == l[..q] + [l[q]];
    DedupLastKeepNew(l[..q], l[q], seen);
    assert l[q..] == [l[q]] + l[q + 1..];
  }
}
