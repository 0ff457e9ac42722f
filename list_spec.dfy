/**
 * Specification functions for the duplicate removal of
 * pkg/linkedlists/linkedlist.go. Every sequence is read front to back.
 */
module ListSpec {
  import opened Sequences

  /** No value occurs twice. */
  predicate NoDups(s: seq<int>)
  {
    forall i, j :: 0 <= i < j < |s| ==> s[i] != s[j]
  }

  /** `s` with every value in `xs` dropped and the others kept in order. */
  function Without(s: seq<int>, xs: set<int>): (r: seq<int>)
    ensures |r| <= |s|
  {
    if s == [] then []
    else (if s[0] in xs then [] else [s[0]]) + Without(s[1..], xs)
  }

  /**
   * DeleteDuplicates: the front value survives, its later copies go, and
   * the rest is treated the same way.
   */
  function DedupFirst(s: seq<int>): seq<int>
    decreases |s|
  {
    if s == [] then [] else [s[0]] + DedupFirst(Without(s[1..], {s[0]}))
  }

  /**
   * DeleteDuplicatesBack: the back value survives, its earlier copies go,
   * and the rest is treated the same way.
   */
  function DedupLast(s: seq<int>): seq<int>
    decreases |s|
  {
    if s == [] then []
    else DedupLast(Without(s[..|s| - 1], {s[|s| - 1]})) + [s[|s| - 1]]
  }

  /** Reference definition: a value is kept where it does not occur earlier. */
  function KeepFirst(s: seq<int>): seq<int>
  {
    if s == [] then []
    else
      var front, x := s[..|s| - 1], s[|s| - 1];
      KeepFirst(front) + (if x in front then [] else [x])
  }

  /** Reference definition: a value is kept where it does not occur later. */
  function KeepLast(s: seq<int>): seq<int>
  {
    if s == [] then []
    else (if s[0] in s[1..] then [] else [s[0]]) + KeepLast(s[1..])
  }

  // ---------------------------------------------------------------------
  // Without
  // ---------------------------------------------------------------------

  /** Exactly the values of `s` outside `xs` remain. */
  lemma {:induction false} WithoutMembers(s: seq<int>, xs: set<int>)
    ensures forall x :: x in Without(s, xs) <==> x in s && x !in xs
  {
    if s != [] {
      WithoutMembers(s[1..], xs);
      assert s == [s[0]] + s[1..];
    }
  }

  /** Dropping `xs` and then `ys` drops their union. */
  lemma {:induction false} WithoutWithout(s: seq<int>, xs: set<int>, ys: set<int>)
    ensures Without(Without(s, xs), ys) == Without(s, xs + ys)
  {
    if s != [] {
      WithoutWithout(s[1..], xs, ys);
      var a, w := s[0], Without(s[1..], xs);
      if a in xs {
        assert Without(s, xs) == w;
      } else {
        var v := [a] + w;
        assert Without(s, xs) == v;
        assert v[0] == a && v[1..] == w;
        assert Without(v, ys) == (if a in ys then [] else [a]) + Without(w, ys);
      }
      assert Without(s, xs + ys) == (if a in xs + ys then [] else [a]) + Without(s[1..], xs + ys);
    }
  }

  /** Dropping values that do not occur changes nothing. */
  lemma {:induction false} WithoutAbsent(s: seq<int>, x: int)
    requires x !in s
    ensures Without(s, {x}) == s
  {
    if s != [] {
      WithoutAbsent(s[1..], x);
      assert s == [s[0]] + s[1..];
    }
  }

  /** Dropping values distributes over concatenation. */
  lemma {:induction false} WithoutAppend(s: seq<int>, t: seq<int>, xs: set<int>)
    ensures Without(s + t, xs) == Without(s, xs) + Without(t, xs)
  {
    if s != [] {
      var h := if s[0] in xs then [] else [s[0]];
      assert (s + t)[0] == s[0] && (s + t)[1..] == s[1..] + t;
      WithoutAppend(s[1..], t, xs);
      assert Without(s + t, xs) == h + Without(s[1..] + t, xs);
      assert Without(s, xs) == h + Without(s[1..], xs);
      assert h + (Without(s[1..], xs) + Without(t, xs)) == (h + Without(s[1..], xs)) + Without(t, xs);
    } else {
      assert s + t == t;
    }
  }

  /** Dropping values from `s + [x]`, one value at the back. */
  lemma WithoutSnoc(s: seq<int>, x: int, xs: set<int>)
    ensures Without(s + [x], xs) == Without(s, xs) + (if x in xs then [] else [x])
  {
    WithoutAppend(s, [x], xs);
  }

  // ---------------------------------------------------------------------
  // DeleteDuplicates
  // ---------------------------------------------------------------------

  /** A value appended at the back survives exactly when it is new. */
  lemma {:induction false} DedupFirstSnoc(s: seq<int>, x: int)
    ensures DedupFirst(s + [x]) == DedupFirst(s) + (if x in s then [] else [x])
    decreases |s|
  {
    if s != [] {
      var a, t := s[0], s[1..];
      assert (s + [x])[0] == a && (s + [x])[1..] == t + [x];
      var w := Without(t, {a});
      WithoutSnoc(t, x, {a});
      WithoutMembers(t, {a});
      assert s == [a] + t;
      assert DedupFirst(s + [x]) == [a] + DedupFirst(Without(t + [x], {a}));
      assert DedupFirst(s) == [a] + DedupFirst(w);
      if x != a {
        assert Without(t + [x], {a}) == w + [x];
        DedupFirstSnoc(w, x);
        assert DedupFirst(s + [x]) == [a] + (DedupFirst(w) + (if x in w then [] else [x]));
      } else {
        assert Without(t + [x], {a}) == w;
      }
    }
  }

  /**
   * One step of the hash-set scan of DeleteDuplicates: a value not seen
   * before is kept and joins the seen ones.
   */
  lemma DedupFirstKeepNew(x: int, s: seq<int>, seen: set<int>)
    requires x !in seen
    ensures DedupFirst(Without([x] + s, seen)) == [x] + DedupFirst(Without(s, seen + {x}))
  {
    var w := Without(s, seen);
    assert ([x] + s)[0] == x && ([x] + s)[1..] == s;
    assert Without([x] + s, seen) == [x] + w;
    assert ([x] + w)[0] == x && ([x] + w)[1..] == w;
    WithoutWithout(s, seen, {x});
  }

  /** DeleteDuplicates keeps exactly the first occurrence of each value, in order. */
  lemma {:induction false} DedupFirstKeepsFirst(s: seq<int>)
    ensures DedupFirst(s) == KeepFirst(s)
  {
    if s != [] {
      var front, x := s[..|s| - 1], s[|s| - 1];
      DedupFirstKeepsFirst(front);
      DedupFirstSnoc(front, x);
      assert s == front + [x];
    }
  }

  /** The result has no repeated value and the same values as the input. */
  lemma {:induction false} DedupFirstDistinct(s: seq<int>)
    ensures NoDups(DedupFirst(s))
    ensures forall x :: x in DedupFirst(s) <==> x in s
    decreases |s|
  {
    if s != [] {
      var a, w := s[0], Without(s[1..], {s[0]});
      DedupFirstDistinct(w);
      WithoutMembers(s[1..], {a});
      assert s == [a] + s[1..];
      var r := DedupFirst(s);
      assert r == [a] + DedupFirst(w);
      forall i, j | 0 <= i < j < |r| ensures r[i] != r[j] {
        if i == 0 {
          assert r[j] == DedupFirst(w)[j - 1];
        } else {
          assert r[i] == DedupFirst(w)[i - 1] && r[j] == DedupFirst(w)[j - 1];
        }
      }
    }
  }

  /** A duplicate-free list is left as it is. */
  lemma {:induction false} DedupFirstOfDistinct(s: seq<int>)
    requires NoDups(s)
    ensures DedupFirst(s) == s
    decreases |s|
  {
    if s != [] {
      var t := s[1..];
      forall i | 0 <= i < |t|
        ensures t[i] != s[0]
        ensures forall j :: i < j < |t| ==> t[i] != t[j]
      {
        assert t[i] == s[i + 1];
      }
      WithoutAbsent(t, s[0]);
      DedupFirstOfDistinct(t);
      assert s == [s[0]] + t;
    }
  }

  /** Running DeleteDuplicates twice is the same as once. */
  lemma DedupFirstIdempotent(s: seq<int>)
    ensures DedupFirst(DedupFirst(s)) == DedupFirst(s)
  {
    DedupFirstDistinct(s);
    DedupFirstOfDistinct(DedupFirst(s));
  }

  // ---------------------------------------------------------------------
  // DeleteDuplicatesBack
  // ---------------------------------------------------------------------

  /** A value put at the front survives exactly when it does not occur later. */
  lemma {:induction false} DedupLastCons(x: int, s: seq<int>)
    ensures DedupLast([x] + s) == (if x in s then [] else [x]) + DedupLast(s)
    decreases |s|
  {
    if s != [] {
      var t, b := s[..|s| - 1], s[|s| - 1];
      assert ([x] + s)[..|s|] == [x] + t && ([x] + s)[|s|] == b;
      var w := Without(t, {b});
      WithoutAppend([x], t, {b});
      WithoutMembers(t, {b});
      assert s == t + [b];
      assert DedupLast([x] + s) == DedupLast(Without([x] + t, {b})) + [b];
      assert DedupLast(s) == DedupLast(w) + [b];
      if x != b {
        assert Without([x], {b}) == [x];
        DedupLastCons(x, w);
        var h := if x in w then [] else [x];
        assert DedupLast([x] + s) == h + DedupLast(w) + [b];
        AppendAssoc(h, DedupLast(w), [b]);
      } else {
        assert Without([x], {b}) == [];
        assert Without([x] + t, {b}) == w;
      }
    } else {
      assert DedupLast([x]) == DedupLast(Without([], {x})) + [x];
    }
  }

  /**
   * One step of the hash-set scan of DeleteDuplicatesBack: a value not
   * seen before is kept and joins the seen ones.
   */
  lemma DedupLastKeepNew(s: seq<int>, x: int, seen: set<int>)
    requires x !in seen
    ensures DedupLast(Without(s + [x], seen)) == DedupLast(Without(s, seen + {x})) + [x]
  {
    var w := Without(s, seen);
    WithoutSnoc(s, x, seen);
    assert (w + [x])[..|w|] == w && (w + [x])[|w|] == x;
    WithoutWithout(s, seen, {x});
  }

  /** DeleteDuplicatesBack keeps exactly the last occurrence of each value, in order. */
  lemma {:induction false} DedupLastKeepsLast(s: seq<int>)
    ensures DedupLast(s) == KeepLast(s)
  {
    if s != [] {
      DedupLastKeepsLast(s[1..]);
      DedupLastCons(s[0], s[1..]);
      assert s == [s[0]] + s[1..];
    }
  }

  /** The result has no repeated value and the same values as the input. */
  lemma {:induction false} DedupLastDistinct(s: seq<int>)
    ensures NoDups(DedupLast(s))
    ensures forall x :: x in DedupLast(s) <==> x in s
    decreases |s|
  {
    if s != [] {
      var b, t := s[|s| - 1], s[..|s| - 1];
      var w := Without(t, {b});
      DedupLastDistinct(w);
      WithoutMembers(t, {b});
      assert s == t + [b];
      var r := DedupLast(s);
      var d := DedupLast(w);
      assert r == d + [b];
      forall i, j | 0 <= i < j < |r| ensures r[i] != r[j] {
        if j == |d| {
          assert r[i] == d[i];
        } else {
          assert r[i] == d[i] && r[j] == d[j];
        }
      }
    }
  }

  /** A duplicate-free list is left as it is. */
  lemma {:induction false} DedupLastOfDistinct(s: seq<int>)
    requires NoDups(s)
    ensures DedupLast(s) == s
    decreases |s|
  {
    if s != [] {
      var t, b := s[..|s| - 1], s[|s| - 1];
      forall i | 0 <= i < |t|
        ensures t[i] != b
        ensures forall j :: i < j < |t| ==> t[i] != t[j]
      {
        assert t[i] == s[i];
      }
      WithoutAbsent(t, b);
      DedupLastOfDistinct(t);
      assert s == t + [b];
    }
  }

  /** Running DeleteDuplicatesBack twice is the same as once. */
  lemma DedupLastIdempotent(s: seq<int>)
    ensures DedupLast(DedupLast(s)) == DedupLast(s)
  {
    DedupLastDistinct(s);
    DedupLastOfDistinct(DedupLast(s));
  }
}
