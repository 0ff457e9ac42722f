/**
 * The square matrix of pkg/arraysandstrings/rotate_matrix.go and its
 * in-place clockwise rotation.
 *
 * The Go `[][]int` is a sequence of rows; writing one cell reassigns the
 * field with that row updated. Row `r`, column `c` is `mat[r][c]`.
 */
module Matrices {
  import opened Wrappers

  /** Every row is as long as there are rows. */
  predicate IsSquare(m: seq<seq<int>>)
  {
    forall r :: 0 <= r < |m| ==> |m[r]| == |m|
  }

  /**
   * What RotateMatrixCW needs to stay inside every row it indexes: with two
   * or more rows it touches column `n - 1` of every row, with one or none it
   * touches nothing.
   */
  predicate Rotatable(m: seq<seq<int>>)
  {
    |m| <= 1 || forall r :: 0 <= r < |m| ==> |m[r]| >= |m|
  }

  /** The shape check NewMatrix performs: only the first row is compared. */
  predicate AcceptedByNewMatrix(m: seq<seq<int>>)
  {
    |m| == 0 || |m[0]| == |m|
  }

  /**
   * The matrix turned a quarter clockwise: the new row `i` is the old column
   * `i` read from the bottom up. Columns past the row count are not touched.
   */
  function RotatedCW(m: seq<seq<int>>): (r: seq<seq<int>>)
    requires Rotatable(m)
    ensures |r| == |m| && forall i :: 0 <= i < |m| ==> |r[i]| == |m[i]|
    ensures Rotatable(r)
  {
    seq(|m|, i requires 0 <= i < |m| =>
      seq(|m[i]|, j requires 0 <= j < |m[i]| =>
        if j < |m| then m[|m| - 1 - j][i] else m[i][j]))
  }

  /** The cells row by row. */
  function Flatten(m: seq<seq<int>>): seq<int>
  {
    if m == [] then [] else m[0] + Flatten(m[1..])
  }

  /** `m` with the cell at row `r`, column `c` set to `v`. */
  function Assign(m: seq<seq<int>>, r: int, c: int, v: int): (m': seq<seq<int>>)
    requires 0 <= r < |m| && 0 <= c < |m[r]|
    ensures |m'| == |m| && forall k :: 0 <= k < |m| ==> |m'[k]| == |m[k]|
  {
    m[r := m[r][c := v]]
  }

  // ---------------------------------------------------------------------
  // Layers and rings, the bookkeeping of the in-place rotation
  // ---------------------------------------------------------------------

  /** How far the cell lies from the border of an `n` by `n` matrix. */
  function Layer(n: int, r: int, c: int): int
  {
    var a := if r < n - 1 - r then r else n - 1 - r;
    var b := if c < n - 1 - c then c else n - 1 - c;
    if a < b then a else b
  }

  /**
   * The step of the inner loop of layer `s` that writes the cell: the top
   * row from the left, the right column from the top, the bottom row from
   * the right and the left column from the bottom.
   */
  function RingIndex(n: int, s: int, r: int, c: int): int
  {
    var e := n - 1 - s;
    if r == s && c < e then c - s
    else if c == e && r < e then r - s
    else if r == e && c > s then e - c
    else e - r
  }

  /** Whether the rotation has written the cell once layers below `s` and `i` steps of layer `s` are done. */
  predicate Done(n: int, s: int, i: int, r: int, c: int)
  {
    Layer(n, r, c) < s || (Layer(n, r, c) == s && RingIndex(n, s, r, c) < i)
  }

  /** The value the cell holds part way through the rotation of `m0`. */
  function Expected(m0: seq<seq<int>>, s: int, i: int, r: int, c: int): int
    requires Rotatable(m0) && 0 <= r < |m0| && 0 <= c < |m0[r]|
  {
    if c < |m0| && Done(|m0|, s, i, r, c) then m0[|m0| - 1 - c][r] else m0[r][c]
  }

  /** `m` is `m0` part way through the rotation, with its shape unchanged. */
  predicate Progress(m0: seq<seq<int>>, m: seq<seq<int>>, s: int, i: int)
    requires Rotatable(m0)
  {
    |m| == |m0| && (forall r :: 0 <= r < |m| ==> |m[r]| == |m0[r]|) &&
    forall r, c :: 0 <= r < |m| && 0 <= c < |m[r]| ==> At(m, r, c) == Expected(m0, s, i, r, c)
  }

  /** The cell at row `r`, column `c`; Progress mentions cells only through it. */
  function At(m: seq<seq<int>>, r: int, c: int): int
    requires 0 <= r < |m| && 0 <= c < |m[r]|
  {
    m[r][c]
  }

  /**
   * `m1` to `m4` are the states after the four writes of step `i` of layer
   * `s`: top from left, left from bottom, bottom from right, right from the
   * top saved before the first write.
   */
  predicate CycleWrites(m: seq<seq<int>>, m1: seq<seq<int>>, m2: seq<seq<int>>, m3: seq<seq<int>>,
                        m4: seq<seq<int>>, s: int, i: int)
    requires Rotatable(m) && |m| >= 2
    requires 0 <= s && 0 <= i < |m| - 1 - 2 * s
  {
    var e := |m| - 1 - s;
    m1 == Assign(m, s, s + i, m[e - i][s]) &&
    m2 == Assign(m1, e - i, s, m1[e][e - i]) &&
    m3 == Assign(m2, e, e - i, m2[s + i][e]) &&
    m4 == Assign(m3, s + i, e, m[s][s + i])
  }

  class Matrix {
    var mat: seq<seq<int>>

    constructor (mat: seq<seq<int>>)
      ensures this.mat == mat
    {
      this.mat := mat;
    }

    /** Turns the matrix a quarter clockwise in place, ring by ring from the outside in. */
    method RotateMatrixCW()
      requires Rotatable(mat)
      modifies this
      ensures mat == RotatedCW(old(mat))
      ensures multiset(Flatten(mat)) == multiset(Flatten(old(mat)))
    {
      ghost var m0 := mat;
      var start := 0;
      while start < |mat| / 2
        invariant |mat| == |m0| && 0 <= start <= |m0| / 2
        invariant Progress(m0, mat, start, 0)
        invariant multiset(Flatten(mat)) == multiset(Flatten(m0))
      {
        var end := |mat| - start - 1;
        if end <= start {
          break;
        }
        RotateRing(start, end, m0);
        start := start + 1;
      }
      ProgressComplete(m0, mat, start);
    }

    /** The inner loop: rotates the ring of cells `start` places from the border. */
    method RotateRing(start: int, end: int, ghost m0: seq<seq<int>>)
      requires Rotatable(m0) && 0 <= start < end == |m0| - 1 - start
      requires Progress(m0, mat, start, 0)
      modifies this
      ensures Progress(m0, mat, start + 1, 0)
      ensures multiset(Flatten(mat)) == multiset(Flatten(old(mat)))
    {
      for index := 0 to end - start
        invariant Progress(m0, mat, start, index)
        invariant multiset(Flatten(mat)) == multiset(Flatten(old(mat)))
      {
        ghost var m := mat;
        ProgressRotatable(m0, m, start, index);
        ghost var m1, m2, m3 := RotateStep(start, end, index);
        CycleStep(m0, m, m1, m2, m3, mat, start, index);
      }
      RingComplete(m0, mat, start);
    }

    /** One step of the inner loop: four cells of the ring change places through `top`. */
    method RotateStep(start: int, end: int, index: int) returns (ghost m1: seq<seq<int>>, ghost m2: seq<seq<int>>, ghost m3: seq<seq<int>>)
      requires Rotatable(mat) && |mat| >= 2
      requires 0 <= start && end == |mat| - 1 - start && 0 <= index < end - start
      modifies this
      ensures CycleWrites(old(mat), m1, m2, m3, mat, start, index)
    {
      var top := mat[start][start + index];
      mat := Assign(mat, start, start + index, mat[end - index][start]);
      m1 := mat;
      mat := Assign(mat, end - index, start, mat[end][end - index]);
      m2 := mat;
      mat := Assign(mat, end, end - index, mat[start + index][end]);
      m3 := mat;
      mat := Assign(mat, start + index, end, top);
    }
  }

  /**
   * NewMatrix as written: the error is returned exactly when the matrix is
   * non-empty and its first row is not as long as there are rows.
   */
  method NewMatrix(mat: seq<seq<int>>) returns (m: Matrix?, err: Option<string>)
    ensures err.Some? <==> !AcceptedByNewMatrix(mat)
    ensures err.None? ==> m != null && fresh(m) && m.mat == mat
    ensures err.Some? ==> m == null
  {
    var length := |mat|;
    if length != 0 {
      var row := mat[0];
      if |row| != length {
        return null, Some("[NewMatrix] error creating a new matrix, expected square matrix");
      }
    }
    m := new Matrix(mat);
    err := None;
  }

  /** NewMatrix checking every row, so that every matrix it returns can be rotated. */
  method NewSquareMatrix(mat: seq<seq<int>>) returns (m: Matrix?, err: Option<string>)
    ensures err.Some? <==> !IsSquare(mat)
    ensures err.None? ==> m != null && fresh(m) && m.mat == mat && Rotatable(m.mat)
    ensures err.Some? ==> m == null
  {
    for r := 0 to |mat|
      invariant forall k :: 0 <= k < r ==> |mat[k]| == |mat|
    {
      if |mat[r]| != |mat| {
        return null, Some("[NewMatrix] error creating a new matrix, expected square matrix");
      }
    }
    m := new Matrix(mat);
    err := None;
  }

  /** NewMatrix accepts a matrix whose second row is too short for RotateMatrixCW. */
  lemma NewMatrixAcceptsUnrotatable()
    ensures AcceptedByNewMatrix([[1, 2], [3]])
    ensures !IsSquare([[1, 2], [3]]) && !Rotatable([[1, 2], [3]])
  {
    var m: seq<seq<int>> := [[1, 2], [3]];
    assert |m[1]| < |m|;
  }

  // ---------------------------------------------------------------------
  // Properties of the rotation
  // ---------------------------------------------------------------------

  /**
   * `r2` is `m` turned by half a turn: the square part is read from the
   * bottom right corner, and cells right of it stay where they are.
   */
  predicate HalfTurned(m: seq<seq<int>>, r2: seq<seq<int>>)
  {
    && Rotatable(m)
    && |r2| == |m|
    && (forall i :: 0 <= i < |m| ==> |r2[i]| == |m[i]|)
    && (forall i, j :: 0 <= i < |m| && 0 <= j < |m[i]| && j < |m| ==> r2[i][j] == m[|m| - 1 - i][|m| - 1 - j])
    && (forall i, j :: 0 <= i < |m| && |m| <= j < |m[i]| ==> r2[i][j] == m[i][j])
  }

  /**
   * `r` is `m` turned by a quarter turn clockwise: cell (i, j) of the square
   * part comes from row n-1-j, column i, and cells right of it stay.
   */
  predicate QuarterTurned(m: seq<seq<int>>, r: seq<seq<int>>)
  {
    && Rotatable(m)
    && |r| == |m|
    && (forall i :: 0 <= i < |m| ==> |r[i]| == |m[i]|)
    && (forall i, j :: 0 <= i < |m| && 0 <= j < |m[i]| && j < |m| ==> r[i][j] == m[|m| - 1 - j][i])
    && (forall i, j :: 0 <= i < |m| && |m| <= j < |m[i]| ==> r[i][j] == m[i][j])
  }

  /** RotatedCW turns a matrix by a quarter turn. */
  lemma QuarterTurn(m: seq<seq<int>>, r: seq<seq<int>>)
    requires Rotatable(m) && r == RotatedCW(m)
    ensures Rotatable(r) && QuarterTurned(m, r)
  {
  }

  /** Two quarter turns make a half turn. */
  lemma HalfFromQuarters(m: seq<seq<int>>, r1: seq<seq<int>>, r2: seq<seq<int>>)
    requires QuarterTurned(m, r1) && QuarterTurned(r1, r2)
    ensures HalfTurned(m, r2)
  {
    var n := |m|;
    forall i, j | 0 <= i < n && 0 <= j < |m[i]| && j < n
      ensures r2[i][j] == m[n - 1 - i][n - 1 - j]
    {
      assert r2[i][j] == r1[n - 1 - j][i];
    }
  }

  /** Rotating twice turns the matrix by half a turn. */
  lemma HalfTurn(m: seq<seq<int>>, r2: seq<seq<int>>)
    requires Rotatable(m) && r2 == RotatedCW(RotatedCW(m))
    ensures Rotatable(r2) && HalfTurned(m, r2)
  {
    var r1 := RotatedCW(m);
    QuarterTurn(m, r1);
    QuarterTurn(r1, r2);
    HalfFromQuarters(m, r1, r2);
  }

  /** Two half turns give the matrix back. */
  lemma HalfTurnTwice(m: seq<seq<int>>, h: seq<seq<int>>, r4: seq<seq<int>>)
    requires HalfTurned(m, h) && HalfTurned(h, r4)
    ensures r4 == m
  {
    var n := |m|;
    forall i | 0 <= i < n
      ensures r4[i] == m[i]
    {
      forall j | 0 <= j < |m[i]|
        ensures r4[i][j] == m[i][j]
      {
        if j < n {
          assert r4[i][j] == h[n - 1 - i][n - 1 - j];
        }
      }
    }
  }

  /** Four quarter turns give the matrix back. */
  lemma RotateFourTimes(m: seq<seq<int>>)
    requires Rotatable(m)
    ensures RotatedCW(RotatedCW(RotatedCW(RotatedCW(m)))) == m
  {
    var h := RotatedCW(RotatedCW(m));
    HalfTurn(m, h);
    HalfTurn(h, RotatedCW(RotatedCW(h)));
    HalfTurnTwice(m, h, RotatedCW(RotatedCW(h)));
  }

  /** A square matrix stays square. */
  lemma RotatedSquare(m: seq<seq<int>>)
    requires IsSquare(m)
    ensures Rotatable(m) && IsSquare(RotatedCW(m))
  {
  }

  /**
   * The cell in the middle of an odd-sized matrix stays where it is, and a
   * matrix with at most one row is left as it is.
   */
  lemma RotationFixedPoints(m: seq<seq<int>>)
    requires Rotatable(m)
    ensures |m| % 2 == 1 && |m[|m| / 2]| > |m| / 2 ==> RotatedCW(m)[|m| / 2][|m| / 2] == m[|m| / 2][|m| / 2]
    ensures |m| <= 1 ==> RotatedCW(m) == m
  {
    if |m| == 1 {
      assert RotatedCW(m)[0] == m[0];
    }
  }

  // ---------------------------------------------------------------------
  // The proof of RotateMatrixCW
  // ---------------------------------------------------------------------

  /** Part way through, the rows still reach every column the next step writes. */
  lemma ProgressRotatable(m0: seq<seq<int>>, m: seq<seq<int>>, s: int, i: int)
    requires Rotatable(m0) && Progress(m0, m, s, i)
    ensures Rotatable(m)
  {
  }

  /** Setting one cell replaces one value of the cells by another. */
  lemma {:induction false} AssignMultiset(m: seq<seq<int>>, r: int, c: int, u: int, v: int)
    requires 0 <= r < |m| && 0 <= c < |m[r]| && m[r][c] == u
    ensures multiset(Flatten(Assign(m, r, c, v))) + multiset{u} == multiset(Flatten(m)) + multiset{v}
  {
    var m' := Assign(m, r, c, v);
    var t := Flatten(m[1..]);
    if r == 0 {
      assert m'[1..] == m[1..];
      var row := m[0];
      assert multiset(row[c := v]) + multiset{u} == multiset(row) + multiset{v};
      MultisetShift(multiset(row[c := v]), multiset(row), multiset(t), multiset{u}, multiset{v});
    } else {
      var a := Assign(m[1..], r - 1, c, v);
      assert m'[1..] == a && m'[0] == m[0];
      assert m[1..][r - 1][c] == m[r][c];
      AssignMultiset(m[1..], r - 1, c, u, v);
      MultisetShift(multiset(Flatten(a)), multiset(t), multiset(m[0]), multiset{u}, multiset{v});
    }
  }

  /** Adding the same cells to both sides of a balance keeps it. */
  lemma MultisetShift(a: multiset<int>, b: multiset<int>, t: multiset<int>, z: multiset<int>, w: multiset<int>)
    requires a + z == b + w
    ensures (a + t) + z == (b + t) + w && (t + a) + z == (t + b) + w
  {
    assert forall x :: ((a + t) + z)[x] == (a + z)[x] + t[x];
    assert forall x :: ((b + t) + w)[x] == (b + w)[x] + t[x];
  }

  /** Four cell writes, each storing the value the next one overwrites, the last storing the first value. */
  lemma AssignCycle(m: seq<seq<int>>, m1: seq<seq<int>>, m2: seq<seq<int>>, m3: seq<seq<int>>, m4: seq<seq<int>>,
                    r1: int, c1: int, r2: int, c2: int, r3: int, c3: int, r4: int, c4: int,
                    a: int, b: int, c: int, d: int)
    requires 0 <= r1 < |m| && 0 <= c1 < |m[r1]| && m[r1][c1] == a && m1 == Assign(m, r1, c1, b)
    requires 0 <= r2 < |m1| && 0 <= c2 < |m1[r2]| && m1[r2][c2] == b && m2 == Assign(m1, r2, c2, c)
    requires 0 <= r3 < |m2| && 0 <= c3 < |m2[r3]| && m2[r3][c3] == c && m3 == Assign(m2, r3, c3, d)
    requires 0 <= r4 < |m3| && 0 <= c4 < |m3[r4]| && m3[r4][c4] == d && m4 == Assign(m3, r4, c4, a)
    ensures multiset(Flatten(m4)) == multiset(Flatten(m))
  {
    AssignMultiset(m, r1, c1, a, b);
    AssignMultiset(m1, r2, c2, b, c);
    AssignMultiset(m2, r3, c3, c, d);
    AssignMultiset(m3, r4, c4, d, a);
    FourCycle(multiset(Flatten(m)), multiset(Flatten(m1)), multiset(Flatten(m2)),
      multiset(Flatten(m3)), multiset(Flatten(m4)), a, b, c, d);
  }

  /** Four replacements that hand each value on around a cycle undo each other. */
  lemma FourCycle(f: multiset<int>, f1: multiset<int>, f2: multiset<int>, f3: multiset<int>, f4: multiset<int>,
                  a: int, b: int, c: int, d: int)
    requires f1 + multiset{a} == f + multiset{b}
    requires f2 + multiset{b} == f1 + multiset{c}
    requires f3 + multiset{c} == f2 + multiset{d}
    requires f4 + multiset{d} == f3 + multiset{a}
    ensures f4 == f
  {
    forall x
      ensures f4[x] == f[x]
    {
      assert (f1 + multiset{a})[x] == (f + multiset{b})[x];
      assert (f2 + multiset{b})[x] == (f1 + multiset{c})[x];
      assert (f3 + multiset{c})[x] == (f2 + multiset{d})[x];
      assert (f4 + multiset{d})[x] == (f3 + multiset{a})[x];
    }
  }

  /** The four cells of step `i` of layer `s`, read as top, left, bottom, right. */
  predicate InStep(n: int, s: int, i: int, r: int, c: int)
  {
    var e := n - 1 - s;
    (r == s && c == s + i) || (r == e - i && c == s) || (r == e && c == e - i) || (r == s + i && c == e)
  }

  /** Step `i` of layer `s` writes exactly its four cells, none of them written before. */
  lemma RingCell(n: int, s: int, i: int, r: int, c: int)
    requires 0 <= s && 0 <= i < n - 1 - 2 * s && 0 <= r < n && 0 <= c < n
    ensures Done(n, s, i + 1, r, c) <==> Done(n, s, i, r, c) || InStep(n, s, i, r, c)
    ensures InStep(n, s, i, r, c) ==> !Done(n, s, i, r, c)
  {
  }

  /** The cells after one inner step of layer `s`: its four cells cycled, the others as they were. */
  lemma CycleCells(m: seq<seq<int>>, m1: seq<seq<int>>, m2: seq<seq<int>>, m3: seq<seq<int>>,
                   m4: seq<seq<int>>, s: int, i: int)
    requires Rotatable(m) && |m| >= 2
    requires 0 <= s && 0 <= i < |m| - 1 - 2 * s
    requires CycleWrites(m, m1, m2, m3, m4, s, i)
    ensures var e := |m| - 1 - s;
      m1[e - i][s] == m[e - i][s] && m2[e][e - i] == m[e][e - i] && m3[s + i][e] == m[s + i][e]
    ensures |m4| == |m| && (forall r :: 0 <= r < |m| ==> |m4[r]| == |m[r]|)
    ensures forall r, c :: 0 <= r < |m| && 0 <= c < |m[r]| ==> m4[r][c] == CellAfter(m, s, i, r, c)
  {
  }

  /** A cell after step `i` of layer `s`, in terms of the matrix before it. */
  function CellAfter(m: seq<seq<int>>, s: int, i: int, r: int, c: int): int
    requires Rotatable(m) && |m| >= 2
    requires 0 <= s && 0 <= i < |m| - 1 - 2 * s && 0 <= r < |m| && 0 <= c < |m[r]|
  {
    var e := |m| - 1 - s;
    if r == s && c == s + i then m[e - i][s]
    else if r == e - i && c == s then m[e][e - i]
    else if r == e && c == e - i then m[s + i][e]
    else if r == s + i && c == e then m[s][s + i]
    else m[r][c]
  }

  /** Each cell after step `i` of layer `s` holds what the rotation has it hold then. */
  lemma CellAfterStep(m0: seq<seq<int>>, m: seq<seq<int>>, s: int, i: int, r: int, c: int)
    requires Rotatable(m0) && |m0| >= 2 && Progress(m0, m, s, i) && Rotatable(m)
    requires 0 <= s && 0 <= i < |m0| - 1 - 2 * s && 0 <= r < |m| && 0 <= c < |m[r]|
    ensures CellAfter(m, s, i, r, c) == Expected(m0, s, i + 1, r, c)
  {
    var n, e := |m0|, |m0| - 1 - s;
    if r == s && c == s + i {
      assert CellAfter(m, s, i, r, c) == m[e - i][s];
      MovedCell(m0, m, s, i, r, c, e - i, s);
    } else if r == e - i && c == s {
      assert CellAfter(m, s, i, r, c) == m[e][e - i];
      MovedCell(m0, m, s, i, r, c, e, e - i);
    } else if r == e && c == e - i {
      assert CellAfter(m, s, i, r, c) == m[s + i][e];
      MovedCell(m0, m, s, i, r, c, s + i, e);
    } else if r == s + i && c == e {
      assert CellAfter(m, s, i, r, c) == m[s][s + i];
      MovedCell(m0, m, s, i, r, c, s, s + i);
    } else {
      assert CellAfter(m, s, i, r, c) == m[r][c];
      KeptCell(m0, m, s, i, r, c);
    }
  }

  /** A cell that step `i` of layer `s` does not write keeps what the rotation has it hold. */
  lemma KeptCell(m0: seq<seq<int>>, m: seq<seq<int>>, s: int, i: int, r: int, c: int)
    requires Rotatable(m0) && |m0| >= 2 && Progress(m0, m, s, i)
    requires 0 <= s && 0 <= i < |m0| - 1 - 2 * s && 0 <= r < |m| && 0 <= c < |m[r]|
    requires !InStep(|m0|, s, i, r, c)
    ensures m[r][c] == Expected(m0, s, i + 1, r, c)
  {
    assert At(m, r, c) == Expected(m0, s, i, r, c);
    if c < |m0| {
      RingCell(|m0|, s, i, r, c);
    }
  }

  /**
   * A cell written in step `i` of layer `s` receives the value of the cell
   * that the rotation brings to it, which that step has not yet overwritten.
   */
  lemma MovedCell(m0: seq<seq<int>>, m: seq<seq<int>>, s: int, i: int, r: int, c: int, r': int, c': int)
    requires Rotatable(m0) && |m0| >= 2 && Progress(m0, m, s, i)
    requires 0 <= s && 0 <= i < |m0| - 1 - 2 * s && 0 <= r < |m0| && 0 <= c < |m0|
    requires 0 <= r' < |m0| && 0 <= c' < |m0| && c' < |m0[r']| && c < |m0[r]|
    requires InStep(|m0|, s, i, r, c) && InStep(|m0|, s, i, r', c')
    requires r' == |m0| - 1 - c && c' == r
    ensures m[r'][c'] == Expected(m0, s, i + 1, r, c)
  {
    RingCell(|m0|, s, i, r, c);
    RingCell(|m0|, s, i, r', c');
    assert At(m, r', c') == Expected(m0, s, i, r', c');
  }

  /**
   * One inner step writes exactly the four cells of step `i` of layer `s`,
   * each with its rotated value, and keeps the cells.
   */
  lemma CycleStep(m0: seq<seq<int>>, m: seq<seq<int>>, m1: seq<seq<int>>, m2: seq<seq<int>>, m3: seq<seq<int>>,
                  m4: seq<seq<int>>, s: int, i: int)
    requires Rotatable(m0) && |m0| >= 2 && Progress(m0, m, s, i) && Rotatable(m)
    requires 0 <= s && 0 <= i < |m0| - 1 - 2 * s
    requires CycleWrites(m, m1, m2, m3, m4, s, i)
    ensures Progress(m0, m4, s, i + 1)
    ensures multiset(Flatten(m4)) == multiset(Flatten(m))
  {
    var e := |m0| - 1 - s;
    CycleCells(m, m1, m2, m3, m4, s, i);
    assert multiset(Flatten(m4)) == multiset(Flatten(m)) by {
      AssignCycle(m, m1, m2, m3, m4, s, s + i, e - i, s, e, e - i, s + i, e,
        m[s][s + i], m[e - i][s], m[e][e - i], m[s + i][e]);
    }
    forall r, c | 0 <= r < |m4| && 0 <= c < |m4[r]|
      ensures At(m4, r, c) == Expected(m0, s, i + 1, r, c)
    {
      CellAfterStep(m0, m, s, i, r, c);
    }
  }

  /** After the last step of layer `s`, the whole layer is done. */
  lemma RingComplete(m0: seq<seq<int>>, m: seq<seq<int>>, s: int)
    requires Rotatable(m0) && 0 <= s < |m0| - 1 - s
    requires Progress(m0, m, s, |m0| - 1 - 2 * s)
    ensures Progress(m0, m, s + 1, 0)
  {
    forall r, c | 0 <= r < |m| && 0 <= c < |m[r]|
      ensures At(m, r, c) == Expected(m0, s + 1, 0, r, c)
    {
      assert At(m, r, c) == Expected(m0, s, |m0| - 1 - 2 * s, r, c);
    }
  }

  /** Once every layer outside the middle is done, the matrix is rotated. */
  lemma ProgressComplete(m0: seq<seq<int>>, m: seq<seq<int>>, s: int)
    requires Rotatable(m0) && 0 <= s <= |m0| / 2
    requires Progress(m0, m, s, 0)
    requires |m0| - 1 - s <= s || s == |m0| / 2
    ensures m == RotatedCW(m0)
  {
    var n := |m0|;
    var rot := RotatedCW(m0);
    forall r | 0 <= r < n
      ensures m[r] == rot[r]
    {
      forall c | 0 <= c < |m[r]|
        ensures m[r][c] == rot[r][c]
      {
        assert At(m, r, c) == Expected(m0, s, 0, r, c);
        if c < n && !Done(n, s, 0, r, c) {
          assert r == c == n - 1 - c;
        }
      }
    }
  }
}
