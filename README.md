# rusty_fold: parsers, typed-index vector and edge subdivision in Dafny

A model of the input side of rusty_fold's geometric engine, with proofs about it.

- **Points.** `Vec2`, a point with exact rational coordinates. Dafny's `real` is an exact rational and stands for `BigRational`. The points carry the lexicographic order the sorter uses. `Vec2::parse` reads the text form `x,y`.
- **The text format.** Task and problem files share it. It is a count of polygons; then, per polygon, a count of points and one `x,y` line per point; then a count of skeleton segments and one `x1,y1 x2,y2` line per segment. `Problem::parse` reads it as-is. `Task::parse` also sorts each polygon by the sign of its area: the first polygon must be the only positive one, the outer boundary, and the rest are holes.
- **`TyVec<I, T>`.** An append-only vector indexed by a strong index type, with its `Tyndex` conversions.
- **`subdivide_edges`.** It cuts every skeleton segment at its endpoints and at every crossing with another segment. It sorts the cut points and emits one sub-edge per consecutive pair.

Files, one Dafny module each:

- `wrappers.dfy` (`Wrappers`): `Option`.
- `text.dfy` (`Text`): the standard-library string operations the parsers call. These are `str::trim` (Unicode `White_Space`), `split_once`, `split_terminator` (the lines of a text; it is defined from `Split`, a model of `str::split`, which the parsers do not call themselves) and `usize::from_str`, on a 64-bit target.
- `geom.dfy` (`Geom`): `Vec2`, its order, and `Vec2::parse`.
- `tyndex.dfy` (`Tyndex`): the `TyVec` class, whose `raw` vector is a field the methods reassign.
- `problem.dfy` (`Problems`): the text format as a grammar over the lines (`ProblemOfLines`), and `Problem::parse` as loops proved equal to it.
- `task.dfy` (`Tasks`): `Task::parse` as loops that keep `pos_polys` and `neg_polys` as the source does. They are proved equal to "a problem whose polygons classify" (`TaskOfLines`).
- `mesh.dfy` (`Mesh`): `subdivide_edges` as nested loops with a set, an in-place insertion sort on an array, and a push loop. It is proved equal to `Subdivided`, a specification function with proven properties.

How the parsers are modelled:

- A panic in either parser (an `unwrap` on a missing line, a bad count, a missing separator, a zero area, the failed `assert_eq!`, the final `pop`) is the result `None`.
- The readers of one trimmed line are bundled as `Readers`, which the grammar and the loops take as a parameter. `LineReaders(rat)` supplies the real readers: `usize::from_str`, `Vec2::parse` and the skeleton-line reader `ParseEdge`. `ParseProblem` and `ParseTask` use it.
- The skeleton loop and the point loop are the same loop over a line parser. Both are modelled by one method, `ReadRun`.

`subdivide_edges` never reverses a sub-edge list: every emitted sub-edge runs from the smaller point to the larger, whatever the direction of its input edge (`Mesh.SubdividedAscending`).

## Model

| member | source | states |
|---|---|---|
| Geom.LessIsStrictTotalOrder | src/geom.rs:3-6 | the lexicographic (x, then y) order on points is irreflexive, asymmetric, transitive and total |
| Geom.ParseVec2 | src/geom.rs:15-21 | `Vec2::parse` fails on text without a comma; a point it returns has x parsed from the text before the first comma and y from all the text after it |
| Geom.ParseVec2Join | src/geom.rs:15-21 | `a,b` with no comma in `a` parses to (`rat(a)`, `rat(b)`), later commas staying in the y part; it fails exactly when either side fails to parse |
| Geom.ParseVec2NeedsComma | src/geom.rs:16 | text without a comma never parses as a point |
| Text.Trim | src/task.rs:15 | `str::trim` never lengthens a line; what it removes and keeps is stated by `Text.TrimSpec` and `Text.TrimOfPadded` |
| Text.TrimStartSpec | src/task.rs:15 | the left-trimmed string is a suffix of the input, what was removed is all whitespace, and the result does not start with whitespace |
| Text.TrimEndSpec | src/task.rs:15 | the right-trimmed string is a prefix of the input, what was removed is all whitespace, and the result does not end with whitespace |
| Text.TrimSpec | src/task.rs:15 | a trimmed line is empty or neither starts nor ends with whitespace |
| Text.TrimOfPadded | src/task.rs:15 | trimming whitespace + m + whitespace gives m back when m has no whitespace at either end |
| Text.TrimIdempotent | src/task.rs:15 | trimming twice is trimming once |
| Text.IndexOf | src/geom.rs:16 | the first index of a character is None exactly when it is absent, and otherwise points at it |
| Text.IndexOfFirst | src/geom.rs:16 | no occurrence of the character comes before the index returned |
| Text.SplitOnce | src/geom.rs:16 | `split_once` fails exactly when the separator is absent, and both parts are shorter than the input |
| Text.SplitOnceSpec | src/geom.rs:16 | the input is before + separator + after, and the before part holds no separator (the split is at the first one) |
| Text.SplitOnceJoin | src/problem.rs:32 | splitting a + c + b, with no c in a, gives exactly (a, b) |
| Text.JoinSplit | src/task.rs:12 | joining the pieces of `split` with the separator gives the text back |
| Text.SplitJoin | src/task.rs:12 | splitting pieces joined with a separator they do not contain gives the pieces back |
| Text.Lines | src/task.rs:12 | no line of a text holds a newline |
| Text.SplitTerminator | src/task.rs:12 | no piece `split_terminator` yields holds the separator |
| Text.LinesOfTerminated | src/problem.rs:11 | the lines of a text made of newline-terminated lines are exactly those lines (no empty final line) |
| Text.ParseDigits | src/task.rs:15 | a prefix of digits read with the overflow check never exceeds `usize::MAX` |
| Text.ParseUsize | src/task.rs:15 | a parsed count never exceeds `usize::MAX` |
| Text.ParseDigitsValue | src/task.rs:15 | reading digit by digit with the overflow check gives the decimal value of the digits when it is at most `usize::MAX`, and fails otherwise |
| Text.ParseUsizeValue | src/problem.rs:14 | `usize::from_str` accepts an optional `+` then one or more digits whose value is at most `usize::MAX`, gives that value, and rejects everything else |
| Text.DecimalValue | src/problem.rs:14 | the decimal digits of n have the value n |
| Text.ParseUsizeDecimal | src/problem.rs:14 | every count up to `usize::MAX`, written in decimal, parses back to itself |
| Tyndex.IxIsTyndex | tyndex/src/lib.rs:1-4 | the `nat` index newtype converts positions to indices and back without loss, the assumption every `TyVec` is built under |
| Tyndex.TyVec.FromRaw | tyndex/src/lib.rs:12-17 | `from_raw` stores the given vector unchanged |
| Tyndex.TyVec.Len | tyndex/src/lib.rs:19-21 | `len` is `from_index` of the number of elements, and converts back to that number |
| Tyndex.TyVec.Index | tyndex/src/lib.rs:37-39 | indexing yields `raw[to_index(i)]`, and aborts (None) exactly when that position is out of range |
| Tyndex.TyVec.PushAndIdx | tyndex/src/lib.rs:23-27 | `push_and_idx` appends exactly the one element, returns `from_index` of the old length, which now indexes the new element, and leaves every earlier index reading what it read |
| Tyndex.TyVec.IndexMut | tyndex/src/lib.rs:43-45 | a write through `index_mut` changes only position `to_index(i)` (length and every other index unchanged), and aborts without change when out of range |
| Tyndex.TyVec.EnumRef | tyndex/src/lib.rs:29-31 | `enum_ref` yields `(from_index(k), raw[k])` for every position k, in increasing order |
| Tyndex.TyVec.EnumRefIndexes | tyndex/src/lib.rs:29-39 | each index `enum_ref` yields converts back to its position and reads its element through `Index` |
| Problems.LineAt | src/problem.rs:17-18 | a line only reads when it exists |
| Problems.RunAt | src/problem.rs:20-23 | a run of m lines that reads yields exactly m values and lies within the text |
| Problems.CountAt | src/problem.rs:13-14 | a count only reads from an existing line |
| Problems.PolygonAt | src/problem.rs:17-23 | a polygon that reads uses its count line and exactly as many point lines as it has points, all within the text |
| Problems.PolygonsAt | src/problem.rs:16-25 | reading n polygons yields exactly n and ends no earlier than it started; when n > 0 it also ends within the text |
| Problems.PolygonsAtEnd | src/problem.rs:16-25 | reading n polygons consumes n count lines plus one line per point |
| Problems.RunAtFails | src/problem.rs:20-23 | a run that fails after j lines fails for any longer run |
| Problems.RunAtStop | src/problem.rs:21-22 | one unreadable line inside the run makes the run fail |
| Problems.RunAtNext | src/problem.rs:20-23 | a run extended by one readable line yields the old values plus that line's value, in order |
| Problems.PolygonsAtStep | src/problem.rs:16-25 | reading n polygons is reading one polygon, then n - 1 more after it; it fails if the first fails |
| Problems.ReadRun | src/problem.rs:20-23 | the counted point/segment loop returns exactly the run the format defines, or fails exactly when it does |
| Problems.ReadPolygon | src/problem.rs:17-24 | reading a count and that many point lines gives the format's polygon and the next line |
| Problems.ReadSkeleton | src/problem.rs:27-34 | reading the segment count and that many segment lines gives the format's skeleton |
| Problems.ReadProblem | src/problem.rs:13-38 | the parser's loops over the lines compute exactly `ProblemOfLines`, panicking (None) exactly when the text is not in the format |
| Problems.ParseProblem | src/problem.rs:10-39 | `Problem::parse` is the format read from the text's `split_terminator` lines with the real line readers |
| Problems.ProblemCounts | src/problem.rs:13-34 | a parsed problem has as many polygons as its first line says, and the lines it reads (counts, points, segments) are within the text |
| Problems.ProblemNoPolygons | src/problem.rs:15-25 | a count of 0 is accepted: the silhouette is empty and the skeleton starts on line 1 |
| Problems.ParseEdge | src/problem.rs:32-33 | a skeleton line without a space fails; an edge it returns is the two points read from the text before the first space and from all the text after it |
| Problems.ParseEdgeJoin | src/problem.rs:32-33 | a skeleton line `a b` with no space in `a` gives the two points parsed from `a` and `b`, and fails if either fails |
| Problems.ParseEdgeNeedsSpace | src/problem.rs:32 | a skeleton line without a space aborts |
| Problems.RunAtCovered | src/problem.rs:20-23 | a run that reads is unaffected by extra lines after it or by whitespace around its lines |
| Problems.PolygonAtCovered | src/problem.rs:17-23 | a polygon that reads is unaffected by extra lines or surrounding whitespace |
| Problems.PolygonsAtCovered | src/problem.rs:16-25 | the polygons that read are unaffected by extra lines or surrounding whitespace |
| Problems.SkeletonAtCovered | src/problem.rs:27-34 | a skeleton that reads is unaffected by extra lines or surrounding whitespace |
| Problems.ProblemCovered | src/problem.rs:13-38 | a parsed problem stays the same when lines are appended or the lines it read change only in surrounding whitespace |
| Problems.ProblemIgnoresTrailingLines | src/problem.rs:35-38 | lines after the last skeleton line are never read |
| Problems.ProblemOnlyTrimmedLinesMatter | src/problem.rs:14 | two texts whose lines trim alike parse alike |
| Tasks.Classify | src/task.rs:26-31 | the polygons classify exactly when there is at least one, the first has positive area and every later one negative area; the outer boundary followed by the holes is then the polygon list, in order |
| Tasks.ClassifyRejects | src/task.rs:26-31 | once the polygons read so far break the one-positive-first pattern, no continuation classifies |
| Tasks.SilhouetteRejectsPrefix | src/task.rs:18-32 | a prefix of the polygons that breaks the pattern leaves no silhouette |
| Tasks.PushBySign | src/task.rs:26-31 | pushing a polygon by area sign fails (zero area, or the `assert_eq!(pos_polys.len(), 1)`) exactly when the polygons so far break the pattern; otherwise the two lists, in that order, are the polygons read so far and `pos_polys` has exactly one |
| Tasks.SilhouetteStepMissing | src/task.rs:19-25 | a polygon that does not read leaves no silhouette |
| Tasks.SilhouetteStepRejected | src/task.rs:26-31 | a polygon that breaks the pattern leaves no silhouette |
| Tasks.SilhouetteStepNext | src/task.rs:18-32 | a polygon that reads moves the loop one polygon further through the format |
| Tasks.ReadSorted | src/task.rs:19-31 | one loop turn fails exactly when the polygon does not read or breaks the pattern, and otherwise pushes it onto the right list |
| Tasks.ReadingStarts | src/task.rs:16-18 | the polygon loop starts at line 1 with both lists empty |
| Tasks.ReadStep | src/task.rs:18-32 | a failed turn means no silhouette exists; a good one keeps the loop state one polygon further |
| Tasks.ReadSilhouette | src/task.rs:16-32 | the polygon loop yields `pos_polys ++ neg_polys` equal to the polygons the format reads, keeping the pattern, with one positive polygon when n > 0; when it panics, no silhouette exists |
| Tasks.ReadTask | src/task.rs:14-46 | the parser's loops over the lines compute exactly `TaskOfLines` |
| Tasks.ParseTask | src/task.rs:11-47 | `Task::parse` is the task format read from the text's `split_terminator` lines with the real line readers |
| Tasks.TaskIsClassifiedProblem | src/task.rs:26-31 | a text is a task exactly when it is a problem whose first polygon has positive area and every later one negative; outer is that first polygon and holes are the rest, in input order |
| Tasks.TaskHasOneOuter | src/task.rs:31 | the outer boundary is the first polygon and the only one of positive area |
| Tasks.ZeroAreaRejected | src/task.rs:28 | a polygon of zero area aborts parsing |
| Tasks.NoPolygonRejected | src/task.rs:43 | a polygon count of 0 aborts, there being no outer boundary to pop |
| Tasks.TaskIgnoresTrailingLines | src/task.rs:42-46 | lines after the last skeleton line are never read |
| Tasks.TaskOnlyTrimmedLinesMatter | src/task.rs:15 | two texts whose lines trim alike parse to the same task |
| Mesh.HitsMembers | src/mesh.rs:11-15 | a point is added by the inner loop exactly when `segment_intersection` of the edge with some input segment returns it |
| Mesh.SplitPoints | src/mesh.rs:9-10 | both endpoints of the input edge are always cut points |
| Mesh.MinExists | src/mesh.rs:17 | every non-empty set of points has a least point |
| Mesh.SortedPoints | src/mesh.rs:16-17 | the sorted point set is strictly ascending, has one entry per point, and holds exactly the set's points |
| Mesh.SortedPointsUnique | src/mesh.rs:16-17 | a strictly ascending sequence holding exactly the points of a set is the sorted set: the sort's result does not depend on the order the set yields its points |
| Mesh.Chain | src/mesh.rs:18-20 | the zip with `skip(1)` yields one pair fewer than points, pair k being points k and k + 1 |
| Mesh.ConcatMapAppend | src/mesh.rs:7-21 | the output of a concatenation of inputs is the concatenation of their outputs |
| Mesh.DistinctPermutation | src/mesh.rs:16-17 | a permutation of distinct points holds distinct points |
| Mesh.SortPoints | src/mesh.rs:17 | the in-place sort leaves the array ascending and a permutation of what it held |
| Mesh.InsertAt | src/mesh.rs:17 | one insertion pass extends the sorted prefix by one element and permutes the array |
| Mesh.SortedVec | src/mesh.rs:16-17 | collecting the set in any order and sorting it gives the set's points in ascending order |
| Mesh.CutPoints | src/mesh.rs:8-15 | the set built by the inner loop is the edge's endpoints plus every intersection point with an input segment |
| Mesh.PushPairs | src/mesh.rs:18-20 | the push loop appends exactly the consecutive pairs of the sorted points |
| Mesh.SubdivideEdges | src/mesh.rs:5-23 | `subdivide_edges` returns, input edge by input edge, the chain of each edge's sorted cut points |
| Mesh.SubEdgesAscending | src/mesh.rs:16-19 | every sub-edge runs from the smaller point to the strictly larger one |
| Mesh.SubEdgesCount | src/mesh.rs:16-20 | an edge with k distinct cut points gives k - 1 sub-edges |
| Mesh.SubEdgesChain | src/mesh.rs:18 | the sub-edges of one edge chain: each ends where the next starts |
| Mesh.ChainCover | src/mesh.rs:18-20 | with two or more points, a point is in the list exactly when it is an endpoint of some consecutive pair |
| Mesh.SubEdgesCover | src/mesh.rs:8-20 | with two or more cut points, the cut points are exactly the endpoints of the edge's sub-edges |
| Mesh.IntersectionIsSubEdgeEndpoint | src/mesh.rs:11-14 | every point `segment_intersection` returns for the edge and any input segment, itself included, is an endpoint of one of its sub-edges, unless it has a single cut point |
| Mesh.DegenerateEdgeVanishes | src/mesh.rs:9-10 | an edge whose endpoints coincide and which meets nothing elsewhere contributes no sub-edges |
| Mesh.SubdividedAppend | src/mesh.rs:7-21 | the output is grouped by input edge in input order |
| Mesh.SubdividedGroups | src/mesh.rs:7-21 | the sub-edges of input edge i sit between those of the edges before it and those after it |
| Mesh.SubdividedLength | src/mesh.rs:5-22 | the output length is the sum over input edges of (distinct cut points - 1) |
| Mesh.SubdividedAscending | src/mesh.rs:16-19 | every emitted sub-edge runs from the smaller point to the larger; nothing is reversed |
| Mesh.SubdividedEmpty | src/mesh.rs:6-7 | no input edges give no output |

## Left out

- `segment_intersection` (geom.rs) is not part of this model. It is a parameter of type `Intersection`, a function from two segments to an optional point, and nothing is assumed about it.
- `area` (src/prelude.rs) is not part of this model. It is a parameter of type `Area`, a function from a polygon to a rational.
- Parsing a `BigRational` from text (`num_rational`) is not part of this model. It is a parameter of type `RationalParser`, a partial function from text to a rational.
- The `Ord` on `Vec2` is not shown in src/geom.rs. The model takes the lexicographic order on (x, y) that a derived `Ord` gives (`Geom.Less`). It likewise takes `HashSet` equality as structural equality of points.
- `HashSet` iteration order is unspecified, so `Mesh.SortedVec` takes the set's points in an arbitrary order (a nondeterministic choice). Its result is proved not to depend on that order.
- `slice::sort` is modelled as an insertion sort (`Mesh.SortPoints`). Only what it promises is stated: the array ends sorted and is a permutation of what it held.
- `Tyndex.IsTyndex`: the trait does not promise `to_index(from_index(i)) == i`. Every `TyVec` is constructed under that assumption, and `Ix` is shown to satisfy it.
- `Tyndex.TyVec.IndexMut`: the model is the write `v[i] = x` through the returned reference; a mutable reference that lives on is not modelled.
- `Tyndex.TyVec.EnumRef` returns the whole sequence of pairs rather than a lazy iterator over references.
- `usize` is taken to be 64 bits wide (`Text.UsizeMax`). The parse errors `usize::from_str` can report are not told apart; each is `None`.
- Every panic is collapsed to `None`, so the message and the point of failure are not modelled. `Task::parse` can panic at a different line than the model's failure, but it panics on exactly the same inputs (`Tasks.ReadTask`).
- The `Debug` and serde implementations (tyndex/src/lib.rs:48-66, src/geom.rs:8-12) and the file-reading tests in task.rs and problem.rs are formatting and I/O.
- The browser viewer (js/, ts/), the JSON batch driver (src/js_types.rs) and src/prelude.rs have no behaviour in scope.
