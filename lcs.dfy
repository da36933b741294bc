/**
 * The longest-common-subsequence table of the line-diff engine (`lcs` in
 * week2/rdiff/src/main.rs): the recurrence that defines each cell, the facts
 * about it that the backtracking phase relies on, and the in-place fill of a
 * `Grid` that computes it.
 */
module Lcs {
  import opened Wrappers
  import opened Grids

  function Max(x: nat, y: nat): nat
  {
    if x > y then x else y
  }

  /**
   * `Table(a, b, i, j)`: the LCS length of `a[..i]` and `b[..j]` as the
   * recurrence defines it: 0 on row 0 and column 0, one more than the
   * diagonal predecessor when the last lines match, otherwise the larger of
   * the cell above and the cell to the left.
   */
  function Table<T(==)>(a: seq<T>, b: seq<T>, i: nat, j: nat): (r: nat)
    requires i <= |a| && j <= |b|
    ensures r <= i && r <= j
    decreases i + j
  {
    if i == 0 || j == 0 then 0
    else if a[i - 1] == b[j - 1] then Table(a, b, i - 1, j - 1) + 1
    else Max(Table(a, b, i - 1, j), Table(a, b, i, j - 1))
  }

  /**
   * The whole `(|a|+1) x (|b|+1)` table, row by row; no cell exceeds the
   * length of either prefix it describes.
   */
  function TableOf<T(==)>(a: seq<T>, b: seq<T>): (t: seq<seq<nat>>)
    ensures |t| == |a| + 1 && forall i :: 0 <= i <= |a| ==> |t[i]| == |b| + 1
    ensures forall i, j :: 0 <= i <= |a| && 0 <= j <= |b| ==> t[i][j] <= i && t[i][j] <= j
  {
    seq(|a| + 1, i requires 0 <= i <= |a| =>
      seq(|b| + 1, j requires 0 <= j <= |b| => Table(a, b, i, j)))
  }

  /** `s` occurs in `t` in order, not necessarily contiguously. */
  predicate IsSubseq<T(==)>(s: seq<T>, t: seq<T>)
    decreases |t|
  {
    s == [] ||
    (t != [] &&
     (IsSubseq(s, t[..|t| - 1]) ||
      (s[|s| - 1] == t[|t| - 1] && IsSubseq(s[..|s| - 1], t[..|t| - 1]))))
  }

  /** The shape of `TableOf`, and its cells are the recurrence's values. */
  lemma TableOfShape<T>(a: seq<T>, b: seq<T>)
    ensures |TableOf(a, b)| == |a| + 1
    ensures forall i :: 0 <= i <= |a| ==> |TableOf(a, b)[i]| == |b| + 1
    ensures forall i, j :: 0 <= i <= |a| && 0 <= j <= |b| ==> TableOf(a, b)[i][j] == Table(a, b, i, j)
  {
  }

  /**
   * The laws the filled table obeys: row 0 and column 0 hold 0, and each
   * other cell is one more than its diagonal predecessor when the two lines
   * match, and otherwise the larger of its left and upper neighbours.
   */
  lemma TableOfRecurrence<T>(a: seq<T>, b: seq<T>)
    ensures forall i :: 0 <= i <= |a| ==> TableOf(a, b)[i][0] == 0
    ensures forall j :: 0 <= j <= |b| ==> TableOf(a, b)[0][j] == 0
    ensures forall i, j :: 0 <= i < |a| && 0 <= j < |b| ==>
      TableOf(a, b)[i + 1][j + 1] ==
        if a[i] == b[j] then TableOf(a, b)[i][j] + 1
        else Max(TableOf(a, b)[i + 1][j], TableOf(a, b)[i][j + 1])
  {
    var t := TableOf(a, b);
    TableOfShape(a, b);
    forall i, j | 0 <= i < |a| && 0 <= j < |b|
      ensures t[i + 1][j + 1] == if a[i] == b[j] then t[i][j] + 1 else Max(t[i + 1][j], t[i][j + 1])
    {
      assert t[i + 1][j + 1] == Table(a, b, i + 1, j + 1);
      assert t[i][j] == Table(a, b, i, j) && t[i + 1][j] == Table(a, b, i + 1, j) && t[i][j + 1] == Table(a, b, i, j + 1);
    }
  }

  /** The recurrence at an inner cell, unfolded once. */
  lemma TableStep<T>(a: seq<T>, b: seq<T>, i: nat, j: nat)
    requires 0 < i <= |a| && 0 < j <= |b|
    ensures Table(a, b, i, j) ==
      if a[i - 1] == b[j - 1] then Table(a, b, i - 1, j - 1) + 1
      else Max(Table(a, b, i - 1, j), Table(a, b, i, j - 1))
  {
  }

  /** A table of the right shape whose every cell follows the recurrence is `TableOf(a, b)`. */
  lemma IsTableOf<T>(t: seq<seq<nat>>, a: seq<T>, b: seq<T>)
    requires |t| == |a| + 1 && forall i :: 0 <= i <= |a| ==> |t[i]| == |b| + 1
    requires forall i, j :: 0 <= i <= |a| && 0 <= j <= |b| ==> t[i][j] == Table(a, b, i, j)
    ensures t == TableOf(a, b)
  {
    TableOfShape(a, b);
    forall i | 0 <= i <= |a|
      ensures t[i] == TableOf(a, b)[i]
    {
    }
  }

  /**
   * Monotonicity of the table: moving one row down or one column right never
   * lowers a cell and raises it by at most one.
   */
  lemma {:induction false} Steps<T>(a: seq<T>, b: seq<T>, i: nat, j: nat)
    requires i <= |a| && j <= |b|
    ensures i < |a| ==> Table(a, b, i, j) <= Table(a, b, i + 1, j) <= Table(a, b, i, j) + 1
    ensures j < |b| ==> Table(a, b, i, j) <= Table(a, b, i, j + 1) <= Table(a, b, i, j) + 1
    decreases i + j
  {
    if i < |a| && j > 0 {
      Steps(a, b, i, j - 1);
      StepDown(a, b, i, j);
    }
    if j < |b| && i > 0 {
      Steps(a, b, i - 1, j);
      StepRight(a, b, i, j);
    }
  }

  /** The step down to `(i + 1, j)`, from both steps out of `(i, j - 1)`. */
  lemma StepDown<T>(a: seq<T>, b: seq<T>, i: nat, j: nat)
    requires i < |a| && 0 < j <= |b|
    requires Table(a, b, i, j - 1) <= Table(a, b, i, j) <= Table(a, b, i, j - 1) + 1
    requires Table(a, b, i, j - 1) <= Table(a, b, i + 1, j - 1) <= Table(a, b, i, j - 1) + 1
    ensures Table(a, b, i, j) <= Table(a, b, i + 1, j) <= Table(a, b, i, j) + 1
  {
    TableStep(a, b, i + 1, j);
  }

  /** The step right to `(i, j + 1)`, from both steps out of `(i - 1, j)`. */
  lemma StepRight<T>(a: seq<T>, b: seq<T>, i: nat, j: nat)
    requires 0 < i <= |a| && j < |b|
    requires Table(a, b, i - 1, j) <= Table(a, b, i, j) <= Table(a, b, i - 1, j) + 1
    requires Table(a, b, i - 1, j) <= Table(a, b, i - 1, j + 1) <= Table(a, b, i - 1, j) + 1
    ensures Table(a, b, i, j) <= Table(a, b, i, j + 1) <= Table(a, b, i, j) + 1
  {
    TableStep(a, b, i, j + 1);
  }

  /** No sequence common to `a[..i]` and `b[..j]` is longer than `Table(a, b, i, j)`. */
  lemma {:induction false} CommonBounded<T>(a: seq<T>, b: seq<T>, i: nat, j: nat, s: seq<T>)
    requires i <= |a| && j <= |b|
    requires IsSubseq(s, a[..i]) && IsSubseq(s, b[..j])
    ensures |s| <= Table(a, b, i, j)
    decreases i + j
  {
    if s != [] {
      assert i > 0 && j > 0;
      assert a[..i][..i - 1] == a[..i - 1];
      assert b[..j][..j - 1] == b[..j - 1];
      Steps(a, b, i - 1, j - 1);
      Steps(a, b, i - 1, j);
      Steps(a, b, i, j - 1);
      if IsSubseq(s, a[..i - 1]) {
        CommonBounded(a, b, i - 1, j, s);
      } else if IsSubseq(s, b[..j - 1]) {
        CommonBounded(a, b, i, j - 1, s);
      } else {
        CommonBounded(a, b, i - 1, j - 1, s[..|s| - 1]);
      }
    }
  }

  /** Setting cell `(i + 1, j + 1)` to its recurrence value extends the filled part of the table by one cell. */
  lemma FillStep<T>(t: seq<seq<nat>>, a: seq<T>, b: seq<T>, i: nat, j: nat, u: seq<seq<nat>>)
    requires i < |a| && j < |b|
    requires |t| == |a| + 1 && forall r :: 0 <= r <= |a| ==> |t[r]| == |b| + 1
    requires forall r, c :: 0 <= r <= i + 1 && 0 <= c <= |b| && (r <= i || c <= j) ==> t[r][c] == Table(a, b, r, c)
    requires forall r :: 0 <= r <= |a| ==> t[r][0] == 0
    requires u == Updated(t, i + 1, j + 1, Table(a, b, i + 1, j + 1))
    ensures |u| == |a| + 1 && forall r :: 0 <= r <= |a| ==> |u[r]| == |b| + 1
    ensures forall r, c :: 0 <= r <= i + 1 && 0 <= c <= |b| && (r <= i || c <= j + 1) ==> u[r][c] == Table(a, b, r, c)
    ensures forall r :: 0 <= r <= |a| ==> u[r][0] == 0
  {
  }

  /**
   * One step of the fill: cell `(i + 1, j + 1)` gets the diagonal value plus
   * one when `seq1[i]` and `seq2[j]` match, otherwise the larger of its left
   * and upper neighbours. The reads and the write are in range, so the
   * source's `unwrap` calls cannot fail.
   */
  method FillCell<T(==)>(g: Grid, seq1: seq<T>, seq2: seq<T>, i: nat, j: nat)
    requires g.Valid() && g.rows == |seq1| + 1 && g.cols == |seq2| + 1
    requires i < |seq1| && j < |seq2|
    requires g.Contents[i][j] == Table(seq1, seq2, i, j)
    requires g.Contents[i + 1][j] == Table(seq1, seq2, i + 1, j)
    requires g.Contents[i][j + 1] == Table(seq1, seq2, i, j + 1)
    modifies g, g.cells
    ensures g.Valid()
    ensures g.Contents == Updated(old(g.Contents), i + 1, j + 1, Table(seq1, seq2, i + 1, j + 1))
  {
    var ok: Result<(), GridError>;
    if seq1[i] == seq2[j] {
      var diag := g.Get(i, j);
      ok := g.Set(i + 1, j + 1, diag.value + 1);
    } else {
      var val1 := g.Get(i + 1, j);
      var val2 := g.Get(i, j + 1);
      var val := if val1.value > val2.value then val1.value else val2.value;
      ok := g.Set(i + 1, j + 1, val);
    }
    assert ok.Ok?;
  }

  /**
   * `lcs(seq1, seq2)`: allocates an `(m+1) x (n+1)` grid, zeroes column 0 and
   * row 0, then fills every other cell row by row with the recurrence. Every
   * `get` and `set` is in range, so none of the source's `unwrap` calls fails.
   */
  method ComputeLcs<T(==)>(seq1: seq<T>, seq2: seq<T>) returns (g: Grid)
    ensures fresh(g) && fresh(g.cells) && g.Valid()
    ensures g.Size() == (|seq1| + 1, |seq2| + 1)
    ensures g.Contents == TableOf(seq1, seq2)
  {
    var m := |seq1|;
    var n := |seq2|;
    g := new Grid(m + 1, n + 1);
    for i := 0 to m + 1
      invariant g.Valid() && g.rows == m + 1 && g.cols == n + 1
      invariant forall r :: 0 <= r < i ==> g.Contents[r][0] == 0
    {
      var ok := g.Set(i, 0, 0);
      assert ok.Ok?;
    }
    for j := 0 to n + 1
      invariant g.Valid() && g.rows == m + 1 && g.cols == n + 1
      invariant forall r :: 0 <= r <= m ==> g.Contents[r][0] == 0
      invariant forall c :: 0 <= c < j ==> g.Contents[0][c] == 0
    {
      var ok := g.Set(0, j, 0);
      assert ok.Ok?;
    }
    for i := 0 to m
      invariant g.Valid() && g.rows == m + 1 && g.cols == n + 1
      invariant forall r :: 0 <= r <= m ==> g.Contents[r][0] == 0
      invariant forall r, c :: 0 <= r <= i && 0 <= c <= n ==> g.Contents[r][c] == Table(seq1, seq2, r, c)
    {
      // row i + 1 is filled left to right; cell (i + 1, 0) is already 0
      for j := 0 to n
        invariant g.Valid() && g.rows == m + 1 && g.cols == n + 1
        invariant forall r :: 0 <= r <= m ==> g.Contents[r][0] == 0
        invariant forall r, c :: 0 <= r <= i + 1 && 0 <= c <= n && (r <= i || c <= j) ==>
          g.Contents[r][c] == Table(seq1, seq2, r, c)
      {
        ghost var before := g.Contents;
        FillCell(g, seq1, seq2, i, j);
        FillStep(before, seq1, seq2, i, j, g.Contents);
      }
    }
    IsTableOf(g.Contents, seq1, seq2);
  }

  /**
   * The table of the rdiff test: `"abcd"` against `"adb"`, split into
   * one-character lines, gives this 5 x 4 grid; its corner is 2.
   */
  lemma LcsExample()
    ensures TableOf(["a", "b", "c", "d"], ["a", "d", "b"]) ==
      [[0, 0, 0, 0],
       [0, 1, 1, 1],
       [0, 1, 1, 2],
       [0, 1, 1, 2],
       [0, 1, 2, 2]]
    ensures Table(["a", "b", "c", "d"], ["a", "d", "b"], 4, 3) == 2
  {
    var a, b := ["a", "b", "c", "d"], ["a", "d", "b"];
    assert Table(a, b, 1, 1) == 1;
    assert Table(a, b, 1, 2) == 1 && Table(a, b, 1, 3) == 1;
    assert Table(a, b, 2, 1) == 1 && Table(a, b, 2, 2) == 1 && Table(a, b, 2, 3) == 2;
    assert Table(a, b, 3, 1) == 1 && Table(a, b, 3, 2) == 1 && Table(a, b, 3, 3) == 2;
    assert Table(a, b, 4, 1) == 1 && Table(a, b, 4, 2) == 2 && Table(a, b, 4, 3) == 2;
    TableOfShape(a, b);
    var t := TableOf(a, b);
    assert t[0] == [0, 0, 0, 0];
    assert t[1] == [0, 1, 1, 1];
    assert t[2] == [0, 1, 1, 2];
    assert t[3] == [0, 1, 1, 2];
    assert t[4] == [0, 1, 2, 2];
  }
}
