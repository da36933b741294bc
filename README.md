# rdiff and the owned linked list, in Dafny

This project models two small programs and proves properties of the models.

**The line-diff engine (`rdiff`).** Two line sequences are compared.
- `lcs` fills an `(m+1) x (n+1)` grid with longest-common-subsequence lengths, in place.
- `print_diff` walks back through that grid from the bottom-right corner.
  - Each step records a line tagged `"  "` (kept), `"+ "` (inserted) or `"- "` (deleted).
  - At the end the recorded lines are output in reverse, so they read forward.

The model has four parts:
- **`Grids.Grid`** is the bounds-checked table the engine uses: an `array2<nat>` with a ghost `Contents` view.
- **`Lcs.Table`** is the recurrence that defines each cell. `Lcs.ComputeLcs` is the in-place fill with its loop invariants.
- **`Diff.Script`** is the edit script the backtracking loop produces, as a function of the table. `Diff.PrintDiff` is the loop itself and is proved to return `RenderAll(Script(...))`.
- **Lemmas about `Script`** prove the round trip (the script reproduces both inputs), the count of kept lines on the table `lcs` builds, and the optimality of the kept lines.

Lines are generic (`T(==)`) in the table and script functions and compared only by equality. `PrintDiff` and `DiffLines` fix them to `string` to build the printed prefixes.

**The singly linked list (`linked_list`).** An owned chain of boxed nodes with a `size` field.
- `LinkedLists.LinkedList` is a class with `head` and `size` fields over `Node` objects.
- Its ghost `Contents`, `Nodes` and `Repr` describe the chain.
- The object invariant `Valid()` states that `Nodes` is the chain reachable from `head` and that `size` is its length.
- `push_front`, `pop_front`, `clone`, `eq` and `Iterator::next` are methods. Each states its whole effect on `Contents` and `size`.
- The module `LinkedListLaws` holds two client methods. `PushThenPop` states the LIFO law, and `Drain` states the order in which the iterator yields elements.

With the first input empty, every line of the second input is an insert (week2/rdiff/src/main.rs:63-67, `Diff.EmptyFirstAllInsert`). With the second input empty, every line of the first input is a delete (week2/rdiff/src/main.rs:68-70, `Diff.EmptySecondAllDelete`). For a longest common subsequence of length `L`, `m + n - 2L` is the number of inserted plus deleted lines. The full output has `m + n - L` lines, because each kept line is printed once.

`Wrappers` provides `Option` and `Result`, which model Rust's `Option` and the `unwrap` sites. `Seqs` holds small sequence facts shared by the other modules.

## Model

| member | source | states |
|---|---|---|
| Grids.Grid.constructor | week2/rdiff/src/main.rs:29 | `Grid::new(rows, cols)`: a grid of exactly that shape, every cell 0 |
| Grids.Grid.Size | week2/rdiff/src/main.rs:146-148 | `size()` is the pair (number of rows, number of columns) of the grid's contents |
| Grids.Grid.Get | week2/rdiff/src/main.rs:39-43 | `get` gives `Some` of the stored cell when the position is in range and `None` otherwise |
| Grids.Grid.Set | week2/rdiff/src/main.rs:31-45 | `set` in range gives `Ok` and changes exactly that cell; out of range it gives `Err(IndexError)` and changes nothing |
| Grids.Updated | week2/rdiff/src/main.rs:40 | the table after a one-cell write: same shape, the written cell holds the new value, every other cell is unchanged |
| Lcs.Table | week2/rdiff/src/main.rs:38-45 | the cell recurrence: 0 on row 0 and column 0, the diagonal plus 1 on matching lines, else the larger of up and left; a cell never exceeds the length of either prefix |
| Lcs.TableOf | week2/rdiff/src/main.rs:29-47 | the whole table `lcs` fills: `(m+1)` rows of `(n+1)` cells, each at most its row and its column index |
| Lcs.TableOfShape | week2/rdiff/src/main.rs:29 | the table has `m+1` rows of `n+1` cells, each holding the recurrence's value |
| Lcs.TableOfRecurrence | week2/rdiff/src/main.rs:30-47 | row 0 and column 0 are 0; cell `(i+1, j+1)` is the diagonal plus 1 when `seq1[i] == seq2[j]`, else the larger of left and up |
| Lcs.IsTableOf | week2/rdiff/src/main.rs:36-48 | a table of the right shape whose every cell holds `Table`'s value is `TableOf`, the LCS table |
| Lcs.Steps | week2/rdiff/src/main.rs:38-45 | a step down or right in the table never lowers a cell and raises it by at most one |
| Lcs.CommonBounded | week2/rdiff/src/main.rs:21-51 | no sequence common to `seq1[..i]` and `seq2[..j]` is longer than cell `(i, j)`: the table is an upper bound on common subsequences |
| Lcs.FillStep | week2/rdiff/src/main.rs:36-47 | writing cell `(i+1, j+1)` extends the region that matches the recurrence by one cell, in row-major order |
| Lcs.FillCell | week2/rdiff/src/main.rs:38-46 | one iteration of the inner loop: both branches read in-range cells, the `unwrap`s succeed, and the cell gets its recurrence value |
| Lcs.ComputeLcs | week2/rdiff/src/main.rs:21-51 | `lcs` returns a fresh `(m+1) x (n+1)` grid on fresh storage whose contents are the LCS table; all of its `get`/`set` calls are in range |
| Lcs.LcsExample | week2/rdiff/src/main.rs:123-151 | for `"abcd"` against `"adb"` the table is the test's expected 5 x 4 grid, cell by cell, with corner 2 |
| Diff.Render | week2/rdiff/src/main.rs:59-70 | the three `format!` prefixes: the line follows a two-character prefix whose first character is `' '` exactly for kept, `'+'` exactly for inserted and `'-'` exactly for deleted lines |
| Diff.Script | week2/rdiff/src/main.rs:58-71 | the entries the backtracking loop pushes, in forward order; from `(i, j)` there are at least `max(i, j)` and at most `i + j` of them |
| Diff.ScriptStep | week2/rdiff/src/main.rs:58-71 | each backtracking step strictly lowers `i + j`; a match is taken first, then an insert iff `j > 0` and (`i == 0` or left >= up), else a delete; the last branch always fires |
| Diff.TableAlongStep | week2/rdiff/src/main.rs:58-71 | on cells that follow the recurrence, a kept-line step lowers the LCS value of the position by exactly one and an insert or delete step leaves it unchanged |
| Diff.ScriptSource | week2/rdiff/src/main.rs:58-76 | the kept and deleted lines of the script are `lines1[..i]` in order, for any table |
| Diff.ScriptTarget | week2/rdiff/src/main.rs:58-76 | the kept and inserted lines of the script are `lines2[..j]` in order, for any table |
| Diff.SidesLength | week2/rdiff/src/main.rs:58-72 | first-side lines plus second-side lines equal the number of entries plus the number of kept entries |
| Diff.CommonIsSubseq | week2/rdiff/src/main.rs:59-62 | the kept lines are a subsequence of both the first-side and the second-side lines |
| Diff.ScriptKeeps | week2/rdiff/src/main.rs:58-72 | on any table whose cells up to `(i, j)` follow the recurrence, the number of kept lines from `(i, j)` is the LCS length of `lines1[..i]` and `lines2[..j]` |
| Diff.ScriptKeepsTable | week2/rdiff/src/main.rs:58-72 | on the table `lcs` builds, the number of kept lines from `(i, j)` is exactly cell `(i, j)` |
| Diff.DiffIsMinimal | week2/rdiff/src/main.rs:102-103 | the full diff reproduces both inputs; it keeps a longest common subsequence, with `m+n-L` entries and `m+n-2L` inserts plus deletes |
| Diff.Side | week2/rdiff/src/main.rs:59-70 | reading printed lines back by their prefix; the result is never longer than the printed lines |
| Diff.SideOfRendered | week2/rdiff/src/main.rs:59-70 | for any script, the printed lines read back with `'-'` give its first-input side and with `'+'` its second-input side |
| Diff.PrintedRoundTrip | week2/rdiff/src/main.rs:53-77 | the printed diff of two inputs, read back with `'-'`, is the first input and, read back with `'+'`, the second |
| Diff.PrintDiff | week2/rdiff/src/main.rs:53-77 | `print_diff` returns the printed entries of the backtracking script in forward order; every table read is in range |
| Diff.BacktrackStep | week2/rdiff/src/main.rs:59-71 | one pass of the `while` loop: moves strictly towards `(0, 0)`, reads only in-range cells, and pushes the last printed entry of the script from the current position |
| Diff.PrefersInsert | week2/rdiff/src/main.rs:63-64 | the insert guard is true iff `j > 0` and (`i == 0` or left >= up); the table is read only when `i > 0`, and both reads are in range so their `unwrap`s succeed |
| Diff.EmitReversed | week2/rdiff/src/main.rs:74-76 | the reverse loop prints the pushed lines last one first |
| Diff.DiffLines | week2/rdiff/src/main.rs:102-103 | `main`'s pipeline: the output is the rendered script over the LCS table, has `m + n - L` lines, and reads back as both inputs |
| Diff.IdenticalAllEqual | week2/rdiff/src/main.rs:59-62 | identical inputs give only kept lines, in order |
| Diff.EmptyFirstAllInsert | week2/rdiff/src/main.rs:63-67 | an empty first input gives exactly the second input as inserted lines, in order |
| Diff.EmptySecondAllDelete | week2/rdiff/src/main.rs:68-70 | an empty second input gives exactly the first input as deleted lines, in order |
| Diff.ExampleScript | week2/rdiff/src/main.rs:58-71 | on the test's inputs `"abcd"` and `"adb"`, backtracking from the corner keeps `a`, deletes `b` and `c`, keeps `d` and inserts `b` |
| Diff.DiffExample | week2/rdiff/src/main.rs:140-143 | on the test's inputs the diff is `"  a", "- b", "- c", "  d", "+ b"`; the corner tie goes to the insert |
| LinkedLists.Node.constructor | week3/linked_list/src/linked_list.rs:13-20 | `Node::new(value)`: a node holding `value` with no successor |
| LinkedLists.ChainCons | week3/linked_list/src/linked_list.rs:37-42 | a node pointing at the head of a chain is the head of a chain one node longer |
| LinkedLists.ChainTail | week3/linked_list/src/linked_list.rs:44-50 | the successor of a chain's head is the head of the rest of the chain |
| LinkedLists.LastIsNew | week3/linked_list/src/linked_list.rs:83-86 | the last node of a chain is not any earlier node, so writing its `next` leaves the earlier links intact |
| LinkedLists.LinkedList.constructor | week3/linked_list/src/linked_list.rs:22-27 | `new()`: a valid empty list, with `get_size() == 0` and `is_empty()` true |
| LinkedLists.LinkedList.GetSize | week3/linked_list/src/linked_list.rs:29-31 | `get_size()` is the number of elements in the chain |
| LinkedLists.LinkedList.IsEmpty | week3/linked_list/src/linked_list.rs:33-35 | `is_empty()` holds iff the list has no element, iff `get_size() == 0` |
| LinkedLists.LinkedList.PushFront | week3/linked_list/src/linked_list.rs:37-42 | `push_front(v)` keeps the invariant, makes `v` the first element ahead of the old ones, and adds 1 to `size` |
| LinkedLists.LinkedList.PopFront | week3/linked_list/src/linked_list.rs:44-50 | `pop_front()` on an empty list gives `None` and changes nothing; otherwise it returns the first element, removes it and subtracts 1 from `size` |
| LinkedLists.LinkedList.Next | week3/linked_list/src/linked_list.rs:111-115 | `next()` behaves exactly as `pop_front()` |
| LinkedLists.LinkedList.Clone | week3/linked_list/src/linked_list.rs:78-91 | `clone()` builds a valid list of fresh nodes with the same elements in order and the same `size`; the source is not modified |
| LinkedLists.LinkedList.CopyInto | week3/linked_list/src/linked_list.rs:80-87 | `clone`'s `while let` loop: the copy's chain is built from fresh nodes and holds the source's elements in order; the source and the copy's `size` are untouched |
| LinkedLists.LinkedList.SetSize | week3/linked_list/src/linked_list.rs:88 | `new_list.size = self.size`: after the copy loop this restores the invariant that `size` is the chain length |
| LinkedLists.LinkedList.AppendAfter | week3/linked_list/src/linked_list.rs:84-86 | one pass of `clone`'s loop: a fresh node with the value goes at the end of the chain being built |
| LinkedLists.Attach | week3/linked_list/src/linked_list.rs:84-85 | the write through `current_new`: into `head` for the first node, after the previous copy otherwise, extending the chain by one |
| LinkedLists.LinkedList.Eq | week3/linked_list/src/linked_list.rs:93-108 | `eq` is true iff both lists hold the same elements in the same order, which includes having the same size |
| LinkedListLaws.PushThenPop | week3/linked_list/src/linked_list.rs:37-50 | `push_front(v)` then `pop_front()` gives `Some(v)` and restores the contents and `size` |
| LinkedListLaws.Drain | week3/linked_list/src/linked_list.rs:111-115 | repeated `next()` yields the elements front to back, exactly `size` of them, then `None`, leaving the list empty |

## Left out

- `read_file_lines` and the file, argument and exit handling of `main` (week2/rdiff/src/main.rs:10-19, 79-101) are file I/O. The line sequences are parameters and the diff is returned instead of printed.
- The test of `read_file_lines` (week2/rdiff/src/main.rs:110-120) reads a file on disk.
- `Grid::display` is console output. The `grid` module's own source is not part of this model: only `new`, `get`, `set` and `size`, as the diff engine uses them, are modelled.
- Diff.PrintDiff: requires the starting `(i, j)` to lie within both inputs and the table. On other arguments the source may panic: always through a slice index when `(i, j)` is outside the inputs, and through an `unwrap` only if an out-of-range cell is read. The only caller, week2/rdiff/src/main.rs:103, passes `lcs`'s own table with `(m, n)` and so meets the requires.
- Lines are compared only by equality and the output prefixes are plain concatenation. `format!` and character encoding are not modelled.
- `usize` overflow is not modelled: `m + 1`, `n + 1` and `size += 1` are unbounded. `size -= 1` never underflows, because the invariant ties `size` to the chain length.
- `Display` for `LinkedList` (week3/linked_list/src/linked_list.rs:53-67) depends on the foreign formatter of `T`.
- `Drop` for `LinkedList` (week3/linked_list/src/linked_list.rs:70-76) reclaims memory and has no observable behaviour.
- `Clone` for the element type is equality-preserving copying. Nodes hold the same value, and element clones are not modelled as separate objects.
- `T: PartialEq` is Dafny's built-in equality on `T`.
- `Iterator::next` is a method rather than a Rust `Iterator` implementation. Adapters such as `for` loops over the list are represented only by `LinkedListLaws.Drain`.
- The hangman game in week1 is console I/O with random word selection and is not part of this model.
