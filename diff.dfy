/**
 * The backtracking phase of the line-diff engine (`print_diff` in
 * week2/rdiff/src/main.rs) and the laws relating the edit script it emits to
 * the two inputs.
 */
module Diff {
  import opened Grids
  import opened Lcs
  import opened Seqs

  /** One entry of the edit script: a line kept, inserted from the second input, or deleted from the first. */
  datatype Edit<T> = Equal(line: T) | Insert(line: T) | Delete(line: T)

  /**
   * How an entry is printed: two spaces, `"+ "` or `"- "` before the line.
   * The first character tells the kind of entry and the line follows the
   * two-character prefix unchanged.
   */
  function Render(e: Edit<string>): (s: string)
    ensures |s| == |e.line| + 2 && s[1] == ' ' && s[2..] == e.line
    ensures e.Equal? <==> s[0] == ' '
    ensures e.Insert? <==> s[0] == '+'
    ensures e.Delete? <==> s[0] == '-'
  {
    match e
    case Equal(l) => "  " + l
    case Insert(l) => "+ " + l
    case Delete(l) => "- " + l
  }

  function RenderAll(es: seq<Edit<string>>): seq<string>
  {
    seq(|es|, k requires 0 <= k < |es| => Render(es[k]))
  }

  /** `s` read back to front. */
  function Reversed(s: seq<string>): seq<string>
  {
    if s == [] then [] else [s[|s| - 1]] + Reversed(s[..|s| - 1])
  }

  /** The lines of the first input that the script accounts for: kept and deleted ones. */
  function Source<T>(es: seq<Edit<T>>): seq<T>
  {
    if es == [] then []
    else Source(es[..|es| - 1]) + (if es[|es| - 1].Insert? then [] else [es[|es| - 1].line])
  }

  /** The lines of the second input that the script accounts for: kept and inserted ones. */
  function Target<T>(es: seq<Edit<T>>): seq<T>
  {
    if es == [] then []
    else Target(es[..|es| - 1]) + (if es[|es| - 1].Delete? then [] else [es[|es| - 1].line])
  }

  /** The kept lines. */
  function Common<T>(es: seq<Edit<T>>): seq<T>
  {
    if es == [] then []
    else Common(es[..|es| - 1]) + (if es[|es| - 1].Equal? then [es[|es| - 1].line] else [])
  }

  /** Backtracking from `(i, j)` may read row `i` and column `j` of the table. */
  ghost predicate Covers(t: seq<seq<nat>>, i: nat, j: nat)
  {
    i < |t| && forall r :: 0 <= r < |t| ==> j < |t[r]|
  }

  /**
   * The edit script backtracking from `(i, j)` produces, in forward order.
   * At each step a match of the current lines wins; otherwise an insert is
   * taken when the row is exhausted or the cell to the left is at least the
   * cell above; otherwise a delete.
   */
  ghost function Script<T>(t: seq<seq<nat>>, a: seq<T>, b: seq<T>, i: nat, j: nat): (es: seq<Edit<T>>)
    requires i <= |a| && j <= |b| && Covers(t, i, j)
    ensures i <= |es| && j <= |es| && |es| <= i + j
    decreases i + j
  {
    if i == 0 && j == 0 then []
    else if i > 0 && j > 0 && a[i - 1] == b[j - 1] then Script(t, a, b, i - 1, j - 1) + [Equal(a[i - 1])]
    else if j > 0 && (i == 0 || t[i][j - 1] >= t[i - 1][j]) then Script(t, a, b, i, j - 1) + [Insert(b[j - 1])]
    else Script(t, a, b, i - 1, j) + [Delete(a[i - 1])]
  }

  lemma RenderAllSnoc(es: seq<Edit<string>>, e: Edit<string>)
    ensures RenderAll(es + [e]) == RenderAll(es) + [Render(e)]
  {
  }

  lemma SnocParts<T>(es: seq<Edit<T>>, e: Edit<T>)
    ensures Source(es + [e]) == Source(es) + (if e.Insert? then [] else [e.line])
    ensures Target(es + [e]) == Target(es) + (if e.Delete? then [] else [e.line])
    ensures Common(es + [e]) == Common(es) + (if e.Equal? then [e.line] else [])
  {
    assert (es + [e])[..|es|] == es;
  }

  /**
   * One backtracking step from `(i, j) != (0, 0)`: the script ends with the
   * entry `e` emitted there, preceded by the script from `(i2, j2)`, and
   * `i + j` strictly decreases. Matching lines always give a kept entry; an
   * insert is taken when the first input is exhausted or the cell to the
   * left is at least the cell above, a delete otherwise.
   */
  lemma ScriptStep<T>(t: seq<seq<nat>>, a: seq<T>, b: seq<T>, i: nat, j: nat)
      returns (i2: nat, j2: nat, e: Edit<T>)
    requires i <= |a| && j <= |b| && Covers(t, i, j)
    requires i > 0 || j > 0
    ensures i2 <= i && j2 <= j && i2 + j2 < i + j && Covers(t, i2, j2)
    ensures Script(t, a, b, i, j) == Script(t, a, b, i2, j2) + [e]
    ensures e.Equal? <==> i > 0 && j > 0 && a[i - 1] == b[j - 1]
    ensures e.Equal? ==> i2 == i - 1 && j2 == j - 1 && e.line == a[i - 1]
    ensures e.Insert? <==> j > 0 && !e.Equal? && (i == 0 || t[i][j - 1] >= t[i - 1][j])
    ensures e.Insert? ==> i2 == i && j2 == j - 1 && e.line == b[j - 1]
    ensures e.Delete? ==> i > 0 && i2 == i - 1 && j2 == j && e.line == a[i - 1]
  {
    if i > 0 && j > 0 && a[i - 1] == b[j - 1] {
      i2, j2, e := i - 1, j - 1, Equal(a[i - 1]);
    } else if j > 0 && (i == 0 || t[i][j - 1] >= t[i - 1][j]) {
      i2, j2, e := i, j - 1, Insert(b[j - 1]);
    } else {
      i2, j2, e := i - 1, j, Delete(a[i - 1]);
    }
  }

  /** Round trip, first side: the kept and deleted lines of the script are `a[..i]`, in order, whatever numbers the table holds. */
  lemma {:induction false} ScriptSource<T>(t: seq<seq<nat>>, a: seq<T>, b: seq<T>, i: nat, j: nat)
    requires i <= |a| && j <= |b| && Covers(t, i, j)
    ensures Source(Script(t, a, b, i, j)) == a[..i]
    decreases i + j
  {
    if i > 0 || j > 0 {
      var i2, j2, e := ScriptStep(t, a, b, i, j);
      ScriptSource(t, a, b, i2, j2);
      SnocParts(Script(t, a, b, i2, j2), e);
      if !e.Insert? {
        PrefixSnoc(a, i);
      }
    }
  }

  /** Round trip, second side: the kept and inserted lines of the script are `b[..j]`, in order, whatever numbers the table holds. */
  lemma {:induction false} ScriptTarget<T>(t: seq<seq<nat>>, a: seq<T>, b: seq<T>, i: nat, j: nat)
    requires i <= |a| && j <= |b| && Covers(t, i, j)
    ensures Target(Script(t, a, b, i, j)) == b[..j]
    decreases i + j
  {
    if i > 0 || j > 0 {
      var i2, j2, e := ScriptStep(t, a, b, i, j);
      ScriptTarget(t, a, b, i2, j2);
      SnocParts(Script(t, a, b, i2, j2), e);
      if !e.Delete? {
        PrefixSnoc(b, j);
      }
    }
  }

  /** Every entry is counted once on the first side, once on the second side, or (when kept) on both. */
  lemma {:induction false} SidesLength<T>(es: seq<Edit<T>>)
    ensures |Source(es)| + |Target(es)| == |es| + |Common(es)|
  {
    if es != [] {
      SidesLength(es[..|es| - 1]);
    }
  }

  /** The kept lines occur, in order, among the first-side lines and among the second-side lines. */
  lemma {:induction false} CommonIsSubseq<T>(es: seq<Edit<T>>)
    ensures IsSubseq(Common(es), Source(es))
    ensures IsSubseq(Common(es), Target(es))
  {
    if es != [] {
      var init, e := es[..|es| - 1], es[|es| - 1];
      assert es == init + [e];
      CommonIsSubseq(init);
      SnocParts(init, e);
      var c, s, t := Common(es), Source(es), Target(es);
      match e
      case Equal(l) =>
        assert c[..|c| - 1] == Common(init) && s[..|s| - 1] == Source(init) && t[..|t| - 1] == Target(init);
      case Insert(l) =>
        assert c == Common(init) && s == Source(init) && t[..|t| - 1] == Target(init);
        if c != [] {
          assert IsSubseq(c, t[..|t| - 1]);
        }
      case Delete(l) =>
        assert c == Common(init) && t == Target(init) && s[..|s| - 1] == Source(init);
        if c != [] {
          assert IsSubseq(c, s[..|s| - 1]);
        }
    }
  }

  /**
   * Along one backtracking step over a table whose two neighbour cells hold
   * the recurrence's values, the recurrence drops by one on a kept line and
   * stays put on an insert or a delete.
   */
  lemma TableAlongStep<T>(t: seq<seq<nat>>, a: seq<T>, b: seq<T>, i: nat, j: nat, i2: nat, j2: nat, e: Edit<T>)
    requires i <= |a| && j <= |b| && Covers(t, i, j) && (i > 0 || j > 0)
    requires i > 0 && j > 0 ==> t[i][j - 1] == Table(a, b, i, j - 1) && t[i - 1][j] == Table(a, b, i - 1, j)
    requires e.Equal? <==> i > 0 && j > 0 && a[i - 1] == b[j - 1]
    requires e.Equal? ==> i2 == i - 1 && j2 == j - 1
    requires e.Insert? <==> j > 0 && !e.Equal? && (i == 0 || t[i][j - 1] >= t[i - 1][j])
    requires e.Insert? ==> i2 == i && j2 == j - 1
    requires e.Delete? ==> i > 0 && i2 == i - 1 && j2 == j
    ensures Table(a, b, i, j) == Table(a, b, i2, j2) + (if e.Equal? then 1 else 0)
  {
    if i > 0 && j > 0 {
      TableStep(a, b, i, j);
    }
  }

  /**
   * Backtracking from `(i, j)` over a table that agrees with the recurrence
   * up to `(i, j)` keeps exactly `Table(a, b, i, j)` lines: as many as the
   * longest common subsequence of the two prefixes.
   */
  lemma {:induction false} ScriptKeeps<T>(t: seq<seq<nat>>, a: seq<T>, b: seq<T>, i: nat, j: nat)
    requires i <= |a| && j <= |b| && Covers(t, i, j)
    requires forall r, c {:trigger t[r][c]} :: 0 <= r <= i && 0 <= c <= j ==> t[r][c] == Table(a, b, r, c)
    ensures |Common(Script(t, a, b, i, j))| == Table(a, b, i, j)
    decreases i + j
  {
    if i > 0 || j > 0 {
      var i2, j2, e := ScriptStep(t, a, b, i, j);
      ScriptKeeps(t, a, b, i2, j2);
      SnocParts(Script(t, a, b, i2, j2), e);
      if i > 0 && j > 0 {
        assert t[i][j - 1] == Table(a, b, i, j - 1) && t[i - 1][j] == Table(a, b, i - 1, j);
      }
      TableAlongStep(t, a, b, i, j, i2, j2, e);
    }
  }

  /** On the table `lcs` builds, backtracking from `(i, j)` keeps exactly `Table(a, b, i, j)` lines. */
  lemma ScriptKeepsTable<T>(a: seq<T>, b: seq<T>, i: nat, j: nat)
    requires i <= |a| && j <= |b|
    ensures Covers(TableOf(a, b), i, j)
    ensures |Common(Script(TableOf(a, b), a, b, i, j))| == Table(a, b, i, j)
  {
    TableOfShape(a, b);
    ScriptKeeps(TableOf(a, b), a, b, i, j);
  }

  /**
   * The script for the whole inputs, over the table `lcs` builds: it
   * reproduces both inputs, keeps a common subsequence that no common
   * subsequence is longer than, has `m + n - 2 L` inserts and deletes and
   * `m + n - L` entries in all, where `L` is the table's corner.
   */
  lemma DiffIsMinimal<T>(a: seq<T>, b: seq<T>)
    ensures Covers(TableOf(a, b), |a|, |b|)
    ensures var es := Script(TableOf(a, b), a, b, |a|, |b|);
      Source(es) == a && Target(es) == b &&
      IsSubseq(Common(es), a) && IsSubseq(Common(es), b) &&
      |Common(es)| == Table(a, b, |a|, |b|) &&
      |es| == |a| + |b| - Table(a, b, |a|, |b|) &&
      |es| - |Common(es)| == |a| + |b| - 2 * Table(a, b, |a|, |b|)
    ensures forall s :: IsSubseq(s, a) && IsSubseq(s, b) ==> |s| <= Table(a, b, |a|, |b|)
  {
    ScriptKeepsTable(a, b, |a|, |b|);
    var es := Script(TableOf(a, b), a, b, |a|, |b|);
    ScriptSource(TableOf(a, b), a, b, |a|, |b|);
    ScriptTarget(TableOf(a, b), a, b, |a|, |b|);
    assert a[..|a|] == a && b[..|b|] == b;
    CommonIsSubseq(es);
    SidesLength(es);
    forall s | IsSubseq(s, a) && IsSubseq(s, b)
      ensures |s| <= Table(a, b, |a|, |b|)
    {
      CommonBounded(a, b, |a|, |b|, s);
    }
  }

  lemma ReversedSnoc(s: seq<string>, x: string)
    ensures Reversed(s + [x]) == [x] + Reversed(s)
  {
    assert (s + [x])[..|s|] == s;
  }

  /**
   * `print_diff(lcs_table, lines1, lines2, i, j)`: walks back from `(i, j)`
   * to `(0, 0)`, pushing one printed entry per step, then emits the pushed
   * entries in reverse so that they read top to bottom. Returns the lines
   * the source prints.
   */
  method PrintDiff(lcsTable: Grid, lines1: seq<string>, lines2: seq<string>, i0: nat, j0: nat)
      returns (printed: seq<string>)
    requires lcsTable.Valid()
    requires i0 <= |lines1| && j0 <= |lines2| && i0 < lcsTable.rows && j0 < lcsTable.cols
    ensures Covers(lcsTable.Contents, i0, j0)
    ensures printed == RenderAll(Script(lcsTable.Contents, lines1, lines2, i0, j0))
  {
    ghost var t := lcsTable.Contents;
    ghost var full := RenderAll(Script(t, lines1, lines2, i0, j0));
    var i: nat, j: nat := i0, j0;
    var out: seq<string> := [];
    while i > 0 || j > 0
      invariant Covers(t, i, j) && i <= |lines1| && j <= |lines2|
      invariant RenderAll(Script(t, lines1, lines2, i, j)) + Reversed(out) == full
      decreases i + j
    {
      ghost var pushed := out;
      var line;
      i, j, line := BacktrackStep(lcsTable, lines1, lines2, i, j);
      out := out + [line];
      ReversedSnoc(pushed, line);
      SnocAppend(RenderAll(Script(t, lines1, lines2, i, j)), line, Reversed(pushed));
    }
    assert Script(t, lines1, lines2, 0, 0) == [];
    printed := EmitReversed(out);
  }

  /**
   * One pass of `print_diff`'s `while` loop from `(i, j) != (0, 0)`: a
   * matching pair of lines first, then an insert when `j > 0` and either
   * `i == 0` or the cell to the left is at least the cell above, otherwise a
   * delete. Returns the new position and the pushed line, which is the last
   * printed entry of the script from `(i, j)`. Both table reads are in range,
   * so neither `unwrap` fails, and the trailing `else if i > 0` always fires
   * when the two branches before it do not.
   */
  method BacktrackStep(lcsTable: Grid, lines1: seq<string>, lines2: seq<string>, i: nat, j: nat)
      returns (i2: nat, j2: nat, line: string)
    requires lcsTable.Valid() && i <= |lines1| && j <= |lines2| && Covers(lcsTable.Contents, i, j)
    requires i > 0 || j > 0
    ensures i2 <= i && j2 <= j && i2 + j2 < i + j && Covers(lcsTable.Contents, i2, j2)
    ensures RenderAll(Script(lcsTable.Contents, lines1, lines2, i, j))
      == RenderAll(Script(lcsTable.Contents, lines1, lines2, i2, j2)) + [line]
  {
    ghost var t := lcsTable.Contents;
    ghost var gi, gj, e := ScriptStep(t, lines1, lines2, i, j);
    i2, j2, line := i, j, "";
    if i > 0 && j > 0 && lines1[i - 1] == lines2[j - 1] {
      line := "  " + lines1[i - 1];
      i2, j2 := i - 1, j - 1;
      assert e == Equal(lines1[i - 1]) && gi == i2 && gj == j2;
    } else {
      var insert := PrefersInsert(lcsTable, i, j);
      if insert {
        line := "+ " + lines2[j - 1];
        j2 := j - 1;
        assert e == Insert(lines2[j - 1]) && gi == i2 && gj == j2;
      } else if i > 0 {
        line := "- " + lines1[i - 1];
        i2 := i - 1;
        assert e == Delete(lines1[i - 1]) && gi == i2 && gj == j2;
      }
    }
    RenderAllSnoc(Script(t, lines1, lines2, gi, gj), e);
  }

  /**
   * The guard of the insert branch: `j > 0` and either `i == 0` or the cell
   * to the left is at least the cell above. The table is read only when
   * `i > 0`, as the short-circuit `||` does, and both reads are in range.
   */
  method PrefersInsert(lcsTable: Grid, i: nat, j: nat) returns (insert: bool)
    requires lcsTable.Valid() && Covers(lcsTable.Contents, i, j)
    ensures insert <==> j > 0 && (i == 0 || lcsTable.Contents[i][j - 1] >= lcsTable.Contents[i - 1][j])
  {
    insert := j > 0 && i == 0;
    if j > 0 && i > 0 {
      var left := lcsTable.Get(i, j - 1);
      var up := lcsTable.Get(i - 1, j);
      insert := left.value >= up.value;
    }
  }

  /** `for line in out.iter().rev()`: the pushed lines, last one first. */
  method EmitReversed(out: seq<string>) returns (printed: seq<string>)
    ensures printed == Reversed(out)
  {
    printed := [];
    var k := |out|;
    assert out[..k] == out;
    while k > 0
      invariant 0 <= k <= |out|
      invariant printed + Reversed(out[..k]) == Reversed(out)
    {
      k := k - 1;
      assert out[..k + 1][..k] == out[..k];
      printed := printed + [out[k]];
    }
  }

  /**
   * Reading printed lines back: the text after the two-character prefix of
   * every line marked `' '` or `mark`, in order. With `'-'` this recovers
   * the first input, with `'+'` the second.
   */
  function Side(printed: seq<string>, mark: char): (lines: seq<string>)
    ensures |lines| <= |printed|
  {
    if printed == [] then []
    else
      var s := printed[|printed| - 1];
      Side(printed[..|printed| - 1], mark) + (if |s| >= 2 && (s[0] == ' ' || s[0] == mark) then [s[2..]] else [])
  }

  /** The printed form of a script reads back as the script's two sides. */
  lemma {:induction false} SideOfRendered(es: seq<Edit<string>>)
    ensures Side(RenderAll(es), '-') == Source(es)
    ensures Side(RenderAll(es), '+') == Target(es)
  {
    if es != [] {
      var init := es[..|es| - 1];
      SideOfRendered(init);
      assert RenderAll(es)[..|es| - 1] == RenderAll(init);
      assert es == init + [es[|es| - 1]];
      SnocParts(init, es[|es| - 1]);
    }
  }

  /**
   * The printed diff is a faithful patch: its kept and deleted lines, with
   * their prefixes stripped, are the first input, and its kept and inserted
   * lines are the second.
   */
  lemma PrintedRoundTrip(lines1: seq<string>, lines2: seq<string>)
    ensures Covers(TableOf(lines1, lines2), |lines1|, |lines2|)
    ensures var printed := RenderAll(Script(TableOf(lines1, lines2), lines1, lines2, |lines1|, |lines2|));
      Side(printed, '-') == lines1 && Side(printed, '+') == lines2
  {
    DiffIsMinimal(lines1, lines2);
    SideOfRendered(Script(TableOf(lines1, lines2), lines1, lines2, |lines1|, |lines2|));
  }

  /**
   * The diff of two line sequences as the command prints it: build the
   * table with `lcs`, then backtrack from the bottom-right corner.
   */
  method DiffLines(lines1: seq<string>, lines2: seq<string>) returns (printed: seq<string>)
    ensures Covers(TableOf(lines1, lines2), |lines1|, |lines2|)
    ensures printed == RenderAll(Script(TableOf(lines1, lines2), lines1, lines2, |lines1|, |lines2|))
    ensures |printed| == |lines1| + |lines2| - Table(lines1, lines2, |lines1|, |lines2|)
    ensures Side(printed, '-') == lines1 && Side(printed, '+') == lines2
  {
    var lcsTable := ComputeLcs(lines1, lines2);
    printed := PrintDiff(lcsTable, lines1, lines2, |lines1|, |lines2|);
    DiffIsMinimal(lines1, lines2);
    PrintedRoundTrip(lines1, lines2);
  }

  /** Identical inputs give only kept lines, in order. */
  lemma {:induction false} IdenticalAllEqual<T>(t: seq<seq<nat>>, a: seq<T>, i: nat)
    requires i <= |a| && Covers(t, i, i)
    ensures Script(t, a, a, i, i) == seq(i, k requires 0 <= k < i => Equal(a[k]))
  {
    if i > 0 {
      IdenticalAllEqual(t, a, i - 1);
    }
  }

  /** An empty first input gives only inserted lines: the second input, in order. */
  lemma {:induction false} EmptyFirstAllInsert<T>(t: seq<seq<nat>>, b: seq<T>, j: nat)
    requires j <= |b| && Covers(t, 0, j)
    ensures Script(t, [], b, 0, j) == seq(j, k requires 0 <= k < j => Insert(b[k]))
  {
    if j > 0 {
      EmptyFirstAllInsert(t, b, j - 1);
    }
  }

  /** An empty second input gives only deleted lines: the first input, in order. */
  lemma {:induction false} EmptySecondAllDelete<T>(t: seq<seq<nat>>, a: seq<T>, i: nat)
    requires i <= |a| && Covers(t, i, 0)
    ensures Script(t, a, [], i, 0) == seq(i, k requires 0 <= k < i => Delete(a[k]))
  {
    if i > 0 {
      EmptySecondAllDelete(t, a, i - 1);
    }
  }

  /**
   * The rdiff test inputs, `"abcd"` against `"adb"`: the script keeps `a`,
   * deletes `b` and `c`, keeps `d` and inserts `b`. The tie at the corner is
   * broken towards the insert.
   */
  lemma ExampleScript()
    ensures Covers(TableOf(["a", "b", "c", "d"], ["a", "d", "b"]), 4, 3)
    ensures Script(TableOf(["a", "b", "c", "d"], ["a", "d", "b"]), ["a", "b", "c", "d"], ["a", "d", "b"], 4, 3)
      == [Equal("a"), Delete("b"), Delete("c"), Equal("d"), Insert("b")]
  {
    var a, b := ["a", "b", "c", "d"], ["a", "d", "b"];
    LcsExample();
    var t: seq<seq<nat>> := [[0, 0, 0, 0], [0, 1, 1, 1], [0, 1, 1, 2], [0, 1, 1, 2], [0, 1, 2, 2]];
    assert TableOf(a, b) == t;
    assert Script(t, a, b, 1, 1) == [Equal("a")];
    assert Script(t, a, b, 2, 1) == [Equal("a"), Delete("b")];
    assert Script(t, a, b, 3, 1) == [Equal("a"), Delete("b"), Delete("c")];
    assert Script(t, a, b, 4, 2) == [Equal("a"), Delete("b"), Delete("c"), Equal("d")];
  }

  /** The printed diff of the rdiff test inputs. */
  lemma DiffExample()
    ensures Covers(TableOf(["a", "b", "c", "d"], ["a", "d", "b"]), 4, 3)
    ensures RenderAll(Script(TableOf(["a", "b", "c", "d"], ["a", "d", "b"]), ["a", "b", "c", "d"], ["a", "d", "b"], 4, 3))
      == ["  a", "- b", "- c", "  d", "+ b"]
  {
    ExampleScript();
    var es := [Equal("a"), Delete("b"), Delete("c"), Equal("d"), Insert("b")];
    assert Render(Equal("a")) == "  a";
    assert Render(Delete("b")) == "- b";
    assert Render(Delete("c")) == "- c";
    assert Render(Equal("d")) == "  d";
    assert Render(Insert("b")) == "+ b";
    assert RenderAll(es) == [Render(es[0]), Render(es[1]), Render(es[2]), Render(es[3]), Render(es[4])];
  }
}
