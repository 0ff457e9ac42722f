/**
 * Specification functions for the min-tracking stack of pkg/stacks/stack.go.
 * Every sequence here is read bottom-to-top: the last element is the top of
 * the stack, the order in which the stack's ToArray reports it.
 */
module StackSpec {

  /** Bottom-to-top non-decreasing: smallest at the bottom, largest on top. */
  predicate NonDecreasing(s: seq<int>)
  {
    forall i, j :: 0 <= i < j < |s| ==> s[i] <= s[j]
  }

  /** Bottom-to-top non-increasing: read from the top down it is non-decreasing. */
  predicate NonIncreasing(s: seq<int>)
  {
    forall i, j :: 0 <= i < j < |s| ==> s[i] >= s[j]
  }

  /** The sequence read backwards. */
  function ReverseSeq(s: seq<int>): (r: seq<int>)
    ensures |r| == |s|
  {
    if s == [] then [] else ReverseSeq(s[1..]) + [s[0]]
  }

  /** The element at index `i` of the reversal is the one `i` places from the end. */
  lemma {:induction false} ReverseAt(s: seq<int>)
    ensures forall i :: 0 <= i < |s| ==> ReverseSeq(s)[i] == s[|s| - 1 - i]
  {
    if s != [] {
      ReverseAt(s[1..]);
    }
  }

  /** Reversing a sequence with one more element at its front. */
  lemma ReverseCons(x: int, s: seq<int>)
    ensures ReverseSeq([x] + s) == ReverseSeq(s) + [x]
  {
    assert ([x] + s)[1..] == s;
  }

  /** Reversing a sequence with one more element at its end. */
  lemma {:induction false} ReverseSnoc(s: seq<int>, x: int)
    ensures ReverseSeq(s + [x]) == [x] + ReverseSeq(s)
  {
    if s != [] {
      assert (s + [x])[1..] == s[1..] + [x];
      ReverseSnoc(s[1..], x);
    }
  }

  lemma ReverseInvolutive(s: seq<int>)
    ensures ReverseSeq(ReverseSeq(s)) == s
  {
    ReverseAt(s);
    ReverseAt(ReverseSeq(s));
  }

  lemma {:induction false} ReverseMultiset(s: seq<int>)
    ensures multiset(ReverseSeq(s)) == multiset(s)
  {
    if s != [] {
      ReverseMultiset(s[1..]);
      assert s == [s[0]] + s[1..];
    }
  }

  /** Reversal turns a top-down non-decreasing stack into a bottom-up one. */
  lemma ReverseNonIncreasing(s: seq<int>)
    requires NonIncreasing(s)
    ensures NonDecreasing(ReverseSeq(s))
  {
    ReverseAt(s);
  }

  /** Every element of `s` is smaller than `v`. */
  predicate AllBelow(s: seq<int>, v: int)
  {
    s == [] || (s[0] < v && AllBelow(s[1..], v))
  }

  lemma {:induction false} AllBelowAt(s: seq<int>, v: int)
    requires AllBelow(s, v)
    ensures forall i :: 0 <= i < |s| ==> s[i] < v
  {
    if s != [] {
      AllBelowAt(s[1..], v);
      assert forall i :: 1 <= i < |s| ==> s[i] == s[1..][i - 1];
    }
  }

  /** Putting `value` between `below` and `above` adds it to their multiset. */
  lemma MultisetInsert(below: seq<int>, value: int, above: seq<int>)
    ensures multiset(below + [value] + above) == multiset(below + above) + multiset{value}
  {
  }

  /**
   * The auxiliary stack of SortN after it takes `value`: the entries that
   * were not smaller stay below it, the smaller ones go back on top of it.
   */
  lemma InsertBelowSmaller(below: seq<int>, value: int, smaller: seq<int>)
    requires NonIncreasing(below + smaller)
    requires below != [] ==> below[|below| - 1] >= value
    requires AllBelow(smaller, value)
    ensures NonIncreasing(below + [value] + smaller)
  {
    var r := below + [value] + smaller;
    var a := below + smaller;
    AllBelowAt(smaller, value);
    forall i, j | 0 <= i < j < |r| ensures r[i] >= r[j] {
      if j < |below| {
        assert r[i] == a[i] && r[j] == a[j];
      } else if i < |below| {
        var last := |below| - 1;
        assert r[i] == a[i] >= a[last] == below[last] by {
          if i < last {
            assert a[i] >= a[last];
          }
        }
        if j > |below| {
          assert r[j] == smaller[j - |below| - 1];
        }
      } else if i == |below| {
        assert r[j] == smaller[j - |below| - 1];
      } else {
        assert r[i] == a[i - 1] && r[j] == a[j - 1];
      }
    }
  }

  // ---------------------------------------------------------------------
  // The min list
  // ---------------------------------------------------------------------

  /**
   * The running minima recorded while the values of `c` are pushed in order:
   * a value is recorded when the list is empty or it is `<=` the most recent
   * record. The last element of the result is the head of the min list.
   */
  function MinRecords(c: seq<int>): seq<int>
  {
    if c == [] then [] else Record(MinRecords(c[..|c| - 1]), c[|c| - 1])
  }

  /**
   * One push's worth of MinRecords: `v` is recorded when it is a new minimum
   * or a tie. This is calcMin's push branch (`MinUpdate(rest, v, false)`),
   * kept as its own function so that MinRecords unfolds cheaply;
   * PushMinRecords proves that calcMin's push branch yields the same
   * running minima.
   */
  function Record(rest: seq<int>, v: int): seq<int>
  {
    if rest == [] || v <= rest[|rest| - 1] then rest + [v] else rest
  }

  /** Every non-empty stack has a min list; the head is its smallest value. */
  lemma {:induction false} MinRecordsHeadIsMinimum(c: seq<int>)
    ensures MinRecords(c) == [] <==> c == []
    ensures MinRecords(c) != [] ==> MinRecords(c)[|MinRecords(c)| - 1] in c
    ensures MinRecords(c) != [] ==> forall x :: x in c ==> MinRecords(c)[|MinRecords(c)| - 1] <= x
  {
    if c != [] {
      var c', v := c[..|c| - 1], c[|c| - 1];
      assert c == c' + [v];
      MinRecordsHeadIsMinimum(c');
      var rest, r := MinRecords(c'), MinRecords(c);
      assert r == Record(rest, v);
      if rest == [] || v <= rest[|rest| - 1] {
        assert r == rest + [v] && r[|r| - 1] == v;
      }
      forall x | x in c
        ensures r[|r| - 1] <= x
      {
        if x != v {
          assert x in c';
        }
      }
    }
  }

  /** The min list, read from its head to its tail, is non-decreasing. */
  lemma {:induction false} MinRecordsOrdered(c: seq<int>)
    ensures NonIncreasing(MinRecords(c))
  {
    if c != [] {
      var c', v := c[..|c| - 1], c[|c| - 1];
      var rest := MinRecords(c');
      MinRecordsOrdered(c');
      assert MinRecords(c) == Record(rest, v);
      if rest == [] || v <= rest[|rest| - 1] {
        var r := rest + [v];
        forall i, j | 0 <= i < j < |r| ensures r[i] >= r[j] {
          if j == |rest| {
            assert r[i] == rest[i] >= rest[|rest| - 1];
          }
        }
      }
    }
  }

  /**
   * What calcMin does to the min list (`m`, head last) when `v` has just been
   * pushed (`isPop` false) or popped (`isPop` true), on its int path.
   */
  function MinUpdate(m: seq<int>, v: int, isPop: bool): seq<int>
  {
    if m == [] then [v]
    else if isPop && v == m[|m| - 1] then m[..|m| - 1]
    else if v <= m[|m| - 1] then m + [v]
    else m
  }

  /** calcMin after a Push keeps the min list equal to the running minima. */
  lemma PushMinRecords(c: seq<int>, v: int)
    ensures MinUpdate(MinRecords(c), v, false) == MinRecords(c + [v])
  {
    assert (c + [v])[..|c|] == c;
    assert MinRecords(c + [v]) == Record(MinRecords(c), v);
  }

  /** calcMin after a Pop keeps the min list equal to the running minima. */
  lemma PopMinRecords(c: seq<int>)
    requires c != []
    ensures MinUpdate(MinRecords(c), c[|c| - 1], true) == MinRecords(c[..|c| - 1])
  {
    var rest, v := MinRecords(c[..|c| - 1]), c[|c| - 1];
    assert MinRecords(c) == Record(rest, v);
    PopRecord(rest, v);
  }

  /** calcMin on a Pop takes back what Record added for the popped value. */
  lemma PopRecord(rest: seq<int>, v: int)
    ensures MinUpdate(Record(rest, v), v, true) == rest
  {
    if rest == [] || v <= rest[|rest| - 1] {
      assert (rest + [v])[..|rest|] == rest;
    }
  }

  // ---------------------------------------------------------------------
  // sort.Ints
  // ---------------------------------------------------------------------

  /** Inserts `x` into a non-decreasing sequence. */
  function Insert(x: int, s: seq<int>): seq<int>
  {
    if s == [] || x <= s[0] then [x] + s else [s[0]] + Insert(x, s[1..])
  }

  lemma {:induction false} InsertSorted(x: int, s: seq<int>)
    requires NonDecreasing(s)
    ensures |Insert(x, s)| == |s| + 1
    ensures Insert(x, s) != [] && Insert(x, s)[0] == (if s == [] || x <= s[0] then x else s[0])
    ensures NonDecreasing(Insert(x, s))
    ensures multiset(Insert(x, s)) == multiset(s) + multiset{x}
  {
    if s != [] && x > s[0] {
      var t := s[1..];
      assert s == [s[0]] + t;
      InsertSorted(x, t);
      var r := [s[0]] + Insert(x, t);
      forall i, j | 0 <= i < j < |r| ensures r[i] <= r[j] {
        if i == 0 {
          assert r[j] == Insert(x, t)[j - 1];
          if j > 1 {
            assert Insert(x, t)[0] <= Insert(x, t)[j - 1];
          }
        }
      }
    }
  }

  /** The ascending sort that sort.Ints performs. */
  function SortInts(s: seq<int>): seq<int>
  {
    if s == [] then [] else Insert(s[0], SortInts(s[1..]))
  }

  /** SortInts gives a sorted permutation of its input. */
  lemma {:induction false} SortIntsSorted(s: seq<int>)
    ensures NonDecreasing(SortInts(s))
    ensures multiset(SortInts(s)) == multiset(s)
  {
    if s != [] {
      SortIntsSorted(s[1..]);
      InsertSorted(s[0], SortInts(s[1..]));
      assert s == [s[0]] + s[1..];
    }
  }
}
