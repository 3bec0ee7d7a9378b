# Advent of Code 2022 solvers, modelled in Dafny

This project models eleven puzzle solvers of an Advent of Code 2022
repository written in Rust: days 01, 02, 03, 04, 05, 07, 09, 10, 12, 13
and 14. Each solver is a `day_NN/src/main.rs` that turns the puzzle's input
lines into a number or a string. There is one Dafny module per solver, and
day 12 is split into two. Each module follows the solver's own functions:

- imperative loops become methods with loop invariants, proved against a
  specification function;
- pure iterator pipelines become functions;
- the properties the puzzle depends on are proved as lemmas.

Files:

- `text.dfy` (module `Text`): the helpers every solver uses.
  - `Option` and `Result`.
  - Rust's `str::split_whitespace`, as `Words`, splitting at the characters with the Unicode `White_Space` property.
  - `str::parse` for unsigned and signed decimals, as `ParseNat` and `ParseInt`.
  - `str::starts_with`.
  - `Prefixed`: a sequence put in front of a successful result, shared by days 05 and 10.
- `day01.dfy`: calorie groups and the sum of the n largest.
- `day02.dfy`: the two rock-paper-scissors score tables.
- `day03.dfy`: item priorities, compartment intersections and the groups of three.
- `day04.dfy`: range containment and overlap.
- `day05.dfy`: crate stacks, parsed from their drawing and rearranged by
  instructions.
- `day07.dfy`: a `cd`/`ls` transcript replayed into a path map, and
  directory sizes summed by key prefix.
- `day09.dfy`: the rope-tail rule and the count of visited cells.
- `day10.dfy`: the two-instruction CPU trace and the signal strength.
- `day12_grid.dfy`: the height matrix and the step rule.
- `day12_search.dfy`: the breadth-first search.
  - Any returned distance is proved to be the length of a shortest legal walk.
  - An exhausted queue is proved to mean the end cell is unreachable.
- `day13.dfy`: the recursive packet ordering, pairing, and the sort with
  divider packets.
- `day14.dfy`: rock paths and falling sand.

How the model represents things:

- Machine integers (`u64`, `usize`, `i32`) are unbounded `int`/`nat`.
- Rust panics on malformed input (`unwrap`, `expect`, `assert!`, indexing)
  become explicit error values.
- Hash and B-tree containers become Dafny `set` and `map`.

## Model

| member | source | states |
|---|---|---|
| `Text.Words` | day_09/src/main.rs:39-40 | every word is non-empty and holds no whitespace |
| `Text.WordPrefixShape` | day_09/src/main.rs:39-40 | the first word is a whitespace-free prefix, ended by whitespace or the end of the line |
| `Text.SkipSpacesDrops` | day_09/src/main.rs:39-40 | only leading whitespace is skipped, and what is left is a suffix of the line |
| `Text.WordsKeepVisible` | day_09/src/main.rs:39-40 | joining the words gives back every non-whitespace character of the line, in order |
| `Text.WordsOfUnwords` | day_05/src/main.rs:30-32 | splitting words that were joined by single spaces gives back the same words |
| `Text.WordsCons` | day_05/src/main.rs:30-32 | a word followed by a space is split off as the first word |
| `Text.WordsOfTwo` | day_07/src/main.rs:38 | two words separated by one space split into exactly those two |
| `Text.ParseNat` | day_01/src/main.rs:18 | succeeds exactly on an optional `+` followed by one or more decimal digits |
| `Text.ParseInt` | day_10/src/main.rs:18 | succeeds exactly on an optional sign followed by digits; without a `-` the value is non-negative |
| `Text.ParseNatRoundTrip` | day_05/src/main.rs:33-35 | parsing the decimal spelling of a number gives that number back |
| `Text.DigitsValueAppend` | day_01/src/main.rs:18 | one more digit multiplies the value by ten and adds that digit |
| `Day01.ScanFails` | day_01/src/main.rs:12-19 | the loop fails exactly when some non-blank line is not a number |
| `Day01.ScanCounts` | day_01/src/main.rs:12-19 | every blank line pushes one total; the open total is the sum of the lines since the last blank |
| `Day01.TotalsCount` | day_01/src/main.rs:12-20 | there is one more total than there are blank lines, and all totals add up to the sum of all numbers |
| `Day01.TotalsSplit` | day_01/src/main.rs:13-17 | a blank line separates the elves before it from those after it |
| `Day01.OneElf` | day_01/src/main.rs:18-20 | lines without a blank one make a single total, their sum |
| `Day01.ScanStops` | day_01/src/main.rs:18 | the first bad line decides the error; later lines do not matter |
| `Day01.InsertDesc` | day_01/src/main.rs:22 | inserting into a largest-first sequence keeps it largest-first, adds exactly that element, and puts the larger of it and the old head first |
| `Day01.SortDesc` | day_01/src/main.rs:22 | the result is largest-first and a permutation of the input |
| `Day01.DescendingUnique` | day_01/src/main.rs:22 | two largest-first orderings of the same totals are equal, so the answer does not depend on the sort |
| `Day01.SumOfPermutation` | day_01/src/main.rs:23 | reordering totals does not change their sum |
| `Day01.TopOneIsMax` | day_01/src/main.rs:22-23 | with n = 1 the answer is a total and no total is larger |
| `Day01.TopSumGrows` | day_01/src/main.rs:23 | the answer never shrinks as n grows, and is the sum of all totals once n reaches their number |
| `Day01.CountCalories` | day_01/src/main.rs:8-24 | an error exactly when a non-blank line is not a number; otherwise the sum of the first n of the totals sorted largest first |
| `Day02.OneShapePerOutcome` | day_02/src/main.rs:51-67 | for every opponent shape and wanted outcome exactly one shape achieves it |
| `Day02.Table1` | day_02/src/main.rs:21-37 | every round scores from 1 to 9 |
| `Day02.Table2` | day_02/src/main.rs:51-67 | every round scores from 1 to 9 |
| `Day02.Table1IsTheGame` | day_02/src/main.rs:8-37 | the part 1 table is the shape's value (X=1, Y=2, other=3) plus the outcome (0/3/6) against A, B or other |
| `Day02.Table2IsTheGame` | day_02/src/main.rs:8-14 | the part 2 table is the wanted outcome's value plus the value of the one shape that achieves it |
| `Day02.TablesAgree` | day_02/src/main.rs:21-67 | the shape chosen in part 2, scored by the part 1 table, gives the same score |
| `Day02.OtherLettersCount` | day_02/src/main.rs:25-35 | any first letter other than A or B scores as C, and any second letter other than X or Y as Z |
| `Day02.Score1` | day_02/src/main.rs:19-37 | the part 1 score of a line: its first and third characters looked up in the part 1 table (no contract of its own; `Day02.Table1` and `Day02.Table1IsTheGame` state the table) |
| `Day02.Score2` | day_02/src/main.rs:49-67 | the part 2 score of a line: its first and third characters looked up in the part 2 table (no contract of its own; `Day02.Table2` and `Day02.Table2IsTheGame` state the table) |
| `Day02.TotalBounds` | day_02/src/main.rs:16-39 | with every round worth 1 to 9, the total lies between the number of lines and nine times that |
| `Day02.TotalsBounds` | day_02/src/main.rs:16-70 | both parts' totals lie between the number of lines and nine times that |
| `Day02.Game` | day_02/src/main.rs:16-40 | the loop's total is the sum of the part 1 scores of all lines |
| `Day02.Part2` | day_02/src/main.rs:46-70 | the loop's total is the sum of the part 2 scores of all lines |
| `Day03.PriorityNumbersLetters` | day_03/src/main.rs:11-14 | a-z get 1-26, A-Z get 27-52, and the priority numbers the letters one to one |
| `Day03.Priority` | day_03/src/main.rs:11-14 | the `match` of `value`: a lower-case letter counts from `a` = 1, anything else from `A` = 27 (no contract of its own; `Day03.PriorityNumbersLetters` states its range) |
| `Day03.Least` | day_03/src/main.rs:10 | picks an element of a set that no other element precedes |
| `Day03.ValueRemove` | day_03/src/main.rs:9-16 | any item of the set can be taken out first: the sum does not depend on iteration order |
| `Day03.Value` | day_03/src/main.rs:9-16 | `value`: the priorities of a set's items added up (no contract of its own; `Day03.ValueRemove`, `Day03.ValueUnion` and `Day03.ValueOfLetters` state it) |
| `Day03.ValueUnion` | day_03/src/main.rs:9-16 | the value of two disjoint sets is the sum of their values |
| `Day03.ValueOfLetters` | day_03/src/main.rs:9-16 | a set of letters is worth between 1 and 52 per item |
| `Text.AsciiLen` | day_03/src/main.rs:22 | on an ASCII line `len()` is the number of characters |
| `Text.Utf8LenBounds` | day_03/src/main.rs:22 | `len()` counts every character as one to four bytes |
| `Day03.Half` | day_03/src/main.rs:22-23 | `take` and `skip` cut at half the UTF-8 byte length, which never passes the end of the line |
| `Day03.Common` | day_03/src/main.rs:22-24 | exactly the items found both among the characters before the cut at half the byte length and among those after it; a subset of each half |
| `Day03.HalfOfLines` | day_03/src/main.rs:22-23 | on an ASCII line the cut is at half the characters; `"éé"`, four bytes long, is cut after both characters and has no common item |
| `Day03.Part1` | day_03/src/main.rs:18-27 | `part1`: the values of every line's common items added up (no contract of its own; `Day03.Part1Append` states that it sums over lines) |
| `Day03.Part1Append` | day_03/src/main.rs:18-27 | the part 1 total is a sum over lines and splits at any point |
| `Day03.Part2` | day_03/src/main.rs:29-44 | the loop's total is the specification `Part2Total` of the lines |
| `Day03.Part2ByGroups` | day_03/src/main.rs:32-42 | part 2 scores each complete group of three lines by its running set, and nothing else |
| `Day03.LeftoverLines` | day_03/src/main.rs:38-41 | lines after the last complete group of three are not scored |
| `Day03.Badge` | day_03/src/main.rs:29-44 | exactly the items common to all three lines |
| `Day03.GroupSetIsBadge` | day_03/src/main.rs:34-37 | when a group has a common item, the running set at its end is exactly the common items |
| `Day03.GroupWithoutBadge` | day_03/src/main.rs:34-37 | three lines with no common item: the third line replaces the emptied set, so the group scores 3 instead of 0 |
| `Day03.Part2TotalsBadges` | day_03/src/main.rs:29-44 | on input where every group has a common item, part 2 totals the common items |
| `Day03.BadgesAreGroups` | day_03/src/main.rs:38-41 | on such input, the group-by-group score equals the badge score |
| `Day03.FixedWalkIsBadgeTotal` | day_03/src/main.rs:32-42 | restarting the running set at the first line of each group scores every complete group by its badge |
| `Day03.Part2Fixed` | day_03/src/main.rs:29-44 | the corrected loop's total is the badge total of the complete groups |
| `Day03.FixedGroupWithoutBadge` | day_03/src/main.rs:34-37 | the corrected part 2 scores a group without a common item at 0 |
| `Day04.Ranges` | day_04/src/main.rs:9-21 | succeeds exactly when every line has two fields with two numbers each, and then yields their inclusive ranges in order |
| `Day04.FullyContains` | day_04/src/main.rs:27 | the `part1` filter: the second range holds both ends of the first, or the first both ends of the second (no contract of its own; `Day04.FullyContainsMeansWithin` states its meaning) |
| `Day04.Overlaps` | day_04/src/main.rs:36 | the `part2` filter: some end of one range lies in the other (no contract of its own; `Day04.OverlapsMeansShared` states its meaning) |
| `Day04.FullyContainsMeansWithin` | day_04/src/main.rs:27 | for proper ranges, holding both ends of the other range means containing all of it, and conversely |
| `Day04.OverlapsMeansShared` | day_04/src/main.rs:36 | for proper ranges, the filter holds exactly when the ranges share a section, that is, when max of starts is at most min of ends |
| `Day04.FiltersAreSymmetric` | day_04/src/main.rs:27-36 | neither filter depends on the order of the two ranges |
| `Day04.ContainedOverlaps` | day_04/src/main.rs:27-36 | a pair kept by the part 1 filter is kept by the part 2 filter |
| `Day04.CountMono` | day_04/src/main.rs:24-29 | a filter that keeps more pairs counts at least as many, and never more than the pairs |
| `Day04.Part1` | day_04/src/main.rs:23-30 | `part1`: the number of pairs the containment filter keeps, or the error of `ranges` (no contract of its own; `Day04.Part1AtMostPart2` bounds it) |
| `Day04.Part2` | day_04/src/main.rs:32-39 | `part2`: the number of pairs the overlap filter keeps, or the error of `ranges` (no contract of its own; `Day04.Part1AtMostPart2` bounds it) |
| `Day04.Part1AtMostPart2` | day_04/src/main.rs:23-39 | both parts fail on the same input; otherwise part 1 is at most part 2, which is at most the number of lines |
| `Day05.Reverse` | day_05/src/main.rs:37-44 | the string read backwards |
| `Day05.DrawingEnd` | day_05/src/main.rs:8-11 | the index of the first line starting with " 1", or the line count; no earlier line starts with it |
| `Day05.PlaceOne` | day_05/src/main.rs:12-17 | putting crate i of a line under its stack extends the placed prefix by one |
| `Day05.PutUnder` | day_05/src/main.rs:12-17 | after one drawing line, a stack exists if it existed or the line has a crate in its column (1 + 4i), and that crate is at its bottom |
| `Day05.ColumnOfOneMore` | day_05/src/main.rs:12-17 | one more drawing line adds its crate, if any, to the foot of the column |
| `Day05.BuildStacks` | day_05/src/main.rs:6-21 | the stacks are exactly those with a crate above the numbering line, each its column read bottom-up |
| `Day05.BuiltStacksAreNotEmpty` | day_05/src/main.rs:12-17 | every built stack holds a crate, and its top is the highest drawn crate |
| `Day05.MoveOfWords` | day_05/src/main.rs:30-35 | a missing word is MissingField and a non-number is BadNumber, in index order; otherwise the numbers of words 1, 3 and 5, with the stack numbers decremented |
| `Day05.ParseMoveLine` | day_05/src/main.rs:30-35 | a well-formed `move n from a to b` line reads back as that move, with 0-based stacks |
| `Day05.MoveMany` | day_05/src/main.rs:37-44 | the only failure of a move is an empty pop |
| `Day05.RunMoves` | day_05/src/main.rs:29-45 | the instructions fail only by a missing field, a bad number or an empty pop |
| `Day05.MoveOneKeepsCrates` | day_05/src/main.rs:38-42 | one crate moved between two existing stacks keeps every crate and every stack |
| `Day05.MoveManyKeepsCrates` | day_05/src/main.rs:37-44 | a successful instruction between two existing stacks keeps every crate and every stack |
| `Day05.MoveManyReverses` | day_05/src/main.rs:37-44 | between two different stacks, the top n crates go onto the destination reversed; with fewer than n it fails |
| `Day05.MoveFromNowhere` | day_05/src/main.rs:38 | an instruction from a missing stack changes nothing |
| `Day05.MinKey` | day_05/src/main.rs:46-47 | the least stack index |
| `Day05.TopsOneEach` | day_05/src/main.rs:46-50 | the answer exists exactly when no stack is empty, and then has one crate per stack |
| `Day05.TopsStep` | day_05/src/main.rs:46-50 | the answer starts with the top of the least-indexed stack |
| `Day05.ReadStep` | day_05/src/main.rs:46-50 | reading one more top keeps the reading loop's invariant and shrinks what is left |
| `Day05.ReadTops` | day_05/src/main.rs:46-50 | the string read is the top crates in increasing index order, or EmptyStack |
| `Day05.Tallest` | day_05/src/main.rs:27 | None exactly for no stacks; otherwise the height of the tallest stack |
| `Day05.Perform` | day_05/src/main.rs:37-44 | the inner loop does what `MoveMany` specifies |
| `Day05.ApplyMoves` | day_05/src/main.rs:29-45 | the instruction loop does what `RunMoves` specifies |
| `Day05.MoveCrates` | day_05/src/main.rs:23-51 | NoStacks exactly for no stacks; otherwise the instructions from line n + 2 on (n the tallest height), then the tops |
| `Day07.Display` | day_07/src/main.rs:19 | a displayed path starts with `/` |
| `Day07.Push` | day_07/src/main.rs:30 | pushing `/` resets to the root; any other name becomes the new last component |
| `Day07.Pop` | day_07/src/main.rs:28 | `PathBuf::pop` through `parent()`: the last component goes together with the `.` and empty entries around it, so the components lose exactly their last one and the result ends in a component or is the root; a path with no component below the root stays as it is |
| `Day07.Components` | day_07/src/main.rs:28 | the entries `Path::components` yields below the root: all but `.` and empty ones (no contract beyond a length bound; `Day07.Pop` and `Day07.TrimUnnamed` are stated through it) |
| `Day07.TrimUnnamed` | day_07/src/main.rs:28 | trailing `.` and empty entries dropped: a prefix with the same components, ending in a component or empty |
| `Day07.PopSkipsUnnamed` | day_07/src/main.rs:28 | a trailing `.` or empty entry changes neither the components nor the parent |
| `Day07.PopDot` | day_07/src/main.rs:28 | popping `/a/.` gives the root, not `/a` |
| `Day07.CdUpFromDot` | day_07/src/main.rs:25-35 | in `/a/.`, `$ cd ..` moves to the root, and a file `5 x` listed next is recorded at `/x` |
| `Day07.DisplayGrows` | day_07/src/main.rs:40-43 | a child's key is longer than its parent's |
| `Day07.Parse` | day_07/src/main.rs:24-40 | a listing has a non-empty kind and name; the `$ cd` argument is the byte slice from byte 5, an error on a line of four characters or one whose fifth character is wider than a byte |
| `Day07.Build` | day_07/src/main.rs:13-53 | the loop gives the transcript replayed line by line, stopping at the first error |
| `Day07.LsChangesNothing` | day_07/src/main.rs:36 | `$ ls` changes nothing |
| `Day07.CdMovesToRecordedDir` | day_07/src/main.rs:24-35 | a fifth character of more than one byte makes the slice fail; otherwise `$ cd x` succeeds exactly when the parent (for `..`), the root (for `/`) or the child x is recorded as a directory; it moves there and leaves the map alone |
| `Day07.CdInsideChar` | day_07/src/main.rs:24-26 | `$ cd` followed by `é` fails, since byte 5 falls inside the `é` |
| `Day07.ParseListing` | day_07/src/main.rs:37-39 | any other line is a listing of its first two words, and needs both |
| `Day07.ListingRecordsEntry` | day_07/src/main.rs:38-48 | `dir x` records a directory at current/x, `n x` a file of size n there, and a non-numeric size is an error |
| `Day07.Apply` | day_07/src/main.rs:21-50 | one pass of the loop of `build_filesystem_view`: the line parsed, then performed on the map and current path (no contract of its own; the `Keeps` lemmas below state what it preserves) |
| `Day07.Replay` | day_07/src/main.rs:13-53 | `build_filesystem_view`: the lines applied in order from the map holding only the root, stopping at the first error (no contract of its own; `Day07.Build` computes it and `Day07.ReplayKeepsRoot` states its invariants) |
| `Day07.PerformKeepsDirsAtOwnKeys` | day_07/src/main.rs:25-48 | every directory stays at the key of its own path |
| `Day07.ApplyKeepsDirsAtOwnKeys` | day_07/src/main.rs:21-50 | one line keeps every directory at its own key |
| `Day07.PerformKeepsRoot` | day_07/src/main.rs:25-48 | only a file named `/` can displace the root directory |
| `Day07.ApplyKeepsRoot` | day_07/src/main.rs:21-50 | a line that does not list a file `/` keeps the root directory |
| `Day07.RunFromKeeps` | day_07/src/main.rs:21-50 | replaying any lines keeps both invariants |
| `Day07.ReplayKeepsRoot` | day_07/src/main.rs:16-52 | the built map keeps every directory at its own key, and keeps the root unless a line lists a file `/` |
| `Day07.SumOverRemove` | day_07/src/main.rs:56-63 | a sum over keys does not depend on their order |
| `Day07.DirSize` | day_07/src/main.rs:55-64 | `get_dir_size`: the sizes of the files whose key starts with the prefix, added up (no contract of its own; `Day07.DirSizeNested`, `Day07.InsertDirKeepsSizes` and `Day07.InsertFileAddsSize` state it) |
| `Day07.DirSizeNested` | day_07/src/main.rs:55-64 | a longer prefix selects fewer files, so a nested directory is never larger than its parent |
| `Day07.InsertDirKeepsSizes` | day_07/src/main.rs:57 | directory entries contribute nothing to any size |
| `Day07.InsertFileAddsSize` | day_07/src/main.rs:55-64 | a new file adds its size to every prefix its key starts with |
| `Day07.ListedSize` | day_07/src/main.rs:66-70 | `get_dir_sizes`: each directory read under its key plus `/` (no contract of its own; `Day07.RootListedUnderDoubleSlash` states what that does to the root) |
| `Day07.RootListedUnderDoubleSlash` | day_07/src/main.rs:69 | the root's listed size is read with the prefix `//` |
| `Day07.SmallDirsTotal` | day_07/src/main.rs:73-79 | the sum of `part1` over the listed sizes of at most 100000 (no contract of its own; `Day07.SmallDirsTotalBounds` states it) |
| `Day07.Part1` | day_07/src/main.rs:73-79 | `part1`: the transcript replayed, then the small directories' total (no contract of its own) |
| `Day07.SmallDirsTotalBounds` | day_07/src/main.rs:73-79 | every directory of at most 100000 adds its whole listed size to part 1 |
| `Day07.SmallestFreeingDir` | day_07/src/main.rs:81-90 | an error exactly when no listed size frees 30000000 of 70000000; otherwise the least listed size that does |
| `Day07.Part2` | day_07/src/main.rs:81-90 | `part2`: the transcript replayed, then the least listed size that frees enough space (no contract of its own; `Day07.RootOnlyHasNoSolution` shows where it fails) |
| `Day07.RootOnlyReplay` | day_07/src/main.rs:13-53 | the transcript `$ cd /`, `$ ls`, `50000000 a` builds the root and one file |
| `Day07.RootListedAsEmpty` | day_07/src/main.rs:66-70 | in that map the root holds 50000000 but is listed at 0 |
| `Day07.RootOnlyHasNoSolution` | day_07/src/main.rs:81-90 | as written, part 2 finds no directory for that transcript |
| `Day07.SmallestFreeingDirFixed` | day_07/src/main.rs:81-90 | the same minimum, with the root read under its own key |
| `Day07.FixedAlwaysSolves` | day_07/src/main.rs:83-89 | with the root read correctly, part 2 always has an answer of at most the root's size, once the root is a directory and the files fit on the disk |
| `Day07.RootOnlyFixed` | day_07/src/main.rs:83-89 | the corrected part 2 answers the root-only transcript with 50000000 |
| `Day07.Part2FixedSolves` | day_07/src/main.rs:81-90 | the corrected part 2 answers every transcript that builds, lists no file `/`, and whose files fit on the disk |
| `Day09.GetPos` | day_09/src/main.rs:6-31 | the tail stays, jumps to the old head, or moves one cell along a row or column |
| `Day09.GetPosFollows` | day_09/src/main.rs:6-31 | if the tail touched the head and the head takes one orthogonal step, the tail touches it again and moved at most one cell on each axis |
| `Day09.GetPosStays` | day_09/src/main.rs:8-30 | a tail that still touches the new head does not move |
| `Day09.Step` | day_09/src/main.rs:44-49 | every direction is one orthogonal unit step |
| `Day09.Command` | day_09/src/main.rs:39-41 | no command exactly for a line of fewer than two words; otherwise the step of word 0 and the distance parsed from word 1 |
| `Day09.PullValid` | day_09/src/main.rs:50-55 | one step keeps the tail touching the head and forgets no visited cell |
| `Day09.PullManyValid` | day_09/src/main.rs:50-55 | any number of steps keeps the rope whole |
| `Day09.RunLinesValid` | day_09/src/main.rs:38-57 | all commands keep the rope whole and visited cells recorded |
| `Day09.Direction` | day_09/src/main.rs:42-49 | R, L, U and anything else give the unit steps of `Step` |
| `Day09.Walk` | day_09/src/main.rs:50-55 | the inner loop takes `distance` single steps |
| `Day09.Coverage` | day_09/src/main.rs:33-59 | an error exactly on a bad distance; otherwise the number of cells the tail visited, at least 1 since `(0, 0)` is counted |
| `Day09.Part2` | day_09/src/main.rs:65-68 | the stub `part2` answers 0 for every input (no contract of its own) |
| `Day10.DecodeCases` | day_10/src/main.rs:12-21 | fewer than two words is a noop; a two-word line must be `addx` with an integer; any other instruction is an error |
| `Day10.Decode` | day_10/src/main.rs:12-21 | one line's instruction: none for fewer than two words, the operand for `addx`, or an error (no contract of its own; `Day10.DecodeCases` states every case) |
| `Day10.Entries` | day_10/src/main.rs:14-23 | a noop records one entry and `addx` two, numbered after the clock; the first holds the old register and the last the new one |
| `Day10.RunFails` | day_10/src/main.rs:10-24 | the trace fails exactly when some line is bad |
| `Day10.RunClocks` | day_10/src/main.rs:10-24 | one entry per cycle, numbered consecutively |
| `Day10.RunRegisters` | day_10/src/main.rs:10-24 | the first entry holds the starting register and the last holds it plus every operand |
| `Day10.CyclesShape` | day_10/src/main.rs:5-26 | the recorded clocks are exactly 1, 2, ..., N (N = noops + 2 × addx); the register starts at 1 and ends at 1 plus all operands |
| `Day10.Cycles` | day_10/src/main.rs:5-26 | `get_cycles`: the trace of the lines from clock 0 and register 1 (no contract of its own; `Day10.CyclesShape`, `Day10.RunFails` and `Day10.RunRegisters` state its shape) |
| `Day10.Execute` | day_10/src/main.rs:11-23 | one pass of the loop does what the specification of one line says |
| `Day10.RunStep` | day_10/src/main.rs:10-24 | the trace unfolds one line at a time |
| `Day10.GetCycles` | day_10/src/main.rs:5-26 | the loop builds the specified trace |
| `Day10.StrengthExtend` | day_10/src/main.rs:29-33 | each sampled cycle k adds k times the register recorded at entry k - 1 |
| `Day10.WindowSumIsStrength` | day_10/src/main.rs:29-33 | on consecutive clocks the windowed filter adds exactly the samples at 20, 60, 100, ... |
| `Day10.SampledAt` | day_10/src/main.rs:31 | the filter holds exactly at 20 plus a multiple of 40 |
| `Day10.SignalStrength` | day_10/src/main.rs:28-34 | the `windows(2)` filter and sum of `signal_strength` (no contract of its own; `Day10.WindowSumIsStrength` equates it with the 20, 60, 100, ... sampling) |
| `Day10.Part1` | day_10/src/main.rs:28-42 | an error exactly on a bad line; otherwise the sum of cycle times register at 20, 60, 100, ... |
| `Day12Grid.RowCodes` | day_12/src/main.rs:39 | a line's character codes, one per character |
| `Day12Grid.FindFirst` | day_12/src/main.rs:50-63 | the first cell in row-major order holding the value, or None if there is none |
| `Day12Grid.SetCell` | day_12/src/main.rs:56-65 | exactly the given cell changes |
| `Day12Grid.GetGrid` | day_12/src/main.rs:23-69 | each failure exactly on its input, a ragged row being one whose character count differs from the first row's byte length (`data[0].len()` sizes the matrix); otherwise a rectangular matrix of the character codes, start and end at the first S and E, holding a and z, and start != end |
| `Day12Grid.SameShape` | day_12/src/main.rs:42-47 | the pushed rows have the input's shape and codes |
| `Day12Grid.MarkerFound` | day_12/src/main.rs:50-54 | the search finds the first marker, or none when it is absent |
| `Day12Grid.Overwritten` | day_12/src/main.rs:56 | overwriting the start leaves the end marker where it was |
| `Day12Grid.AsciiSameWidth` | day_12/src/main.rs:41-47 | on an ASCII first row, the rows must all have the first row's length |
| `Day12Grid.WideFirstRow` | day_12/src/main.rs:41-47 | a first row `éSE` is four bytes but three characters, so nothing loads from it |
| `Day12Grid.LoadedFromUnique` | day_12/src/main.rs:23-69 | the loaded grid is determined by the lines |
| `Day12Grid.LoadedFacts` | day_12/src/main.rs:49-67 | the start holds a, the end holds z, both are in the matrix, and they differ |
| `Day12Grid.Neighbors` | day_12/src/main.rs:77-103 | at most four cells, and exactly the in-bounds orthogonal neighbours at most one higher |
| `Day12Grid.Step` | day_12/src/main.rs:77-103 | a legal move: an in-bounds orthogonal neighbour at most one higher (no contract of its own; `Day12Grid.Neighbors` lists exactly these moves) |
| `Day12Grid.NeighborsInOrder` | day_12/src/main.rs:82-100 | the neighbours come in the order above, left, below, right |
| `Day12Grid.StepIsAsymmetric` | day_12/src/main.rs:79-99 | some move cannot be reversed: descent of any amount is allowed |
| `Day12Search.ShortestDistanceUnique` | day_12/src/main.rs:15-19 | a shortest distance is unique |
| `Day12Search.MoreSeedsNoFarther` | day_12/src/main.rs:113-122 | more seeds never make the end farther |
| `Day12Search.MoreSeedsStillReach` | day_12/src/main.rs:113-122 | more seeds never make the end unreachable |
| `Day12Search.BoxSize` | day_12/src/main.rs:119 | a rows × cols matrix has rows × cols cells |
| `Day12Search.SeedsGrow` | day_12/src/main.rs:113-122 | the start is among the part 2 seeds |
| `Day12Search.InitialSeeds` | day_12/src/main.rs:113-122 | part 1 seeds only the start; part 2 seeds exactly the cells as high as the start, in row-major order |
| `Day12Search.FrontierBound` | day_12/src/main.rs:124-139 | a walk to a cell not yet visited is at least as long as the distance at the head of the queue |
| `Day12Search.ExhaustedReachesAll` | day_12/src/main.rs:124-140 | once the queue is empty every reachable cell is visited |
| `Day12Search.DropVisited` | day_12/src/main.rs:126 | dropping an entry whose cell is visited keeps the search invariant |
| `Day12Search.HeadIsLeast` | day_12/src/main.rs:125-127 | the head entry of an unvisited cell carries its shortest distance |
| `Day12Search.VisitHead` | day_12/src/main.rs:126-127 | visiting the head cell starts its expansion with the invariant held |
| `Day12Search.PushMove` | day_12/src/main.rs:135-137 | queueing one move one step farther keeps the expansion invariant |
| `Day12Search.FinishExpansion` | day_12/src/main.rs:135-137 | once every move out of the cell is queued, the outer invariant holds again |
| `Day12Search.InitialQueue` | day_12/src/main.rs:113-121 | every seed at distance 0, in order |
| `Day12Search.InitialState` | day_12/src/main.rs:109-122 | the empty visited set and the seeded queue satisfy the invariant |
| `Day12Search.QueueMoves` | day_12/src/main.rs:135-137 | queues at most four moves, growing the queue by that many, and restores the search invariant |
| `Day12Search.Visit` | day_12/src/main.rs:125-138 | one round returns a shortest distance at the end, or keeps the invariant; the queue loses its head and gains the `added` entries; a visited head adds none, and an unvisited head is added to the visited set and adds at most four |
| `Day12Search.AccountRound` | day_12/src/main.rs:124-138 | one round keeps the bookkeeping: every queued entry was popped or waits, and each expansion lists a cell not listed before |
| `Day12Search.CellsInBounds` | day_12/src/main.rs:119 | the expanded cells lie in the matrix and are at most as many as its cells |
| `Day12Search.Search` | day_12/src/main.rs:124-140 | a returned distance is a shortest walk from the seeds; None means unreachable; the expanded cells are listed without repetition, in bounds and at most rows × cols; rounds ≤ queued entries ≤ seeds + 4 × expansions |
| `Day12Search.Solve` | day_12/src/main.rs:105-141 | the search from the part's seeds gives the shortest distance, or None when the end is unreachable |
| `Day12Search.SolvePart` | day_12/src/main.rs:143-151 | malformed exactly when the lines do not load (empty, a row whose character count is not the first row's byte length, no S or no E); otherwise the shortest distance from the part's seeds |
| `Day12Search.Part1` | day_12/src/main.rs:143-146 | malformed exactly when the lines do not load, with rows measured as `get_grid` measures them; otherwise the shortest distance from the start to the end |
| `Day12Search.Part2` | day_12/src/main.rs:148-151 | malformed exactly when the lines do not load, with rows measured as `get_grid` measures them; otherwise the shortest distance from any cell as low as the start, or no path when the end is unreachable |
| `Day12Search.Part2NoFarther` | day_12/src/main.rs:113-122 | the part 2 answer is at most the part 1 answer |
| `Day12Search.Part2ReachesWhenPart1Does` | day_12/src/main.rs:113-122 | when part 1 reaches the end, so does part 2 |
| `Day13.CompareNat` | day_13/src/main.rs:47-48 | numbers compare by numeric order |
| `Day13.NumberAgainstList` | day_13/src/main.rs:65-70 | a number against a list is compared as the one-element list holding it, on either side |
| `Day13.Compare` | day_13/src/main.rs:46-71 | `compare`: numbers by value, lists by `CompareFrom`, a number against a list as a one-element list (no contract of its own; the lemmas below state its properties) |
| `Day13.CompareFrom` | day_13/src/main.rs:50-64 | the list loop of `compare`: the first unequal element decides, otherwise the lengths (no contract of its own; `Day13.ListsCompareAtFirstDifference` states it) |
| `Day13.CompareReflexive` | day_13/src/main.rs:46-71 | every packet compares Equal to itself |
| `Day13.CompareFromReflexive` | day_13/src/main.rs:50-64 | the list loop of a list against itself gives Equal |
| `Day13.CompareAntisymmetric` | day_13/src/main.rs:46-71 | swapping the operands reverses the ordering |
| `Day13.CompareFromAntisymmetric` | day_13/src/main.rs:50-64 | swapping the lists reverses the list loop's result |
| `Day13.CompareFromSkipsEqual` | day_13/src/main.rs:59-62 | equal elements are passed over |
| `Day13.ListsCompareAtFirstDifference` | day_13/src/main.rs:49-64 | lists compare lexicographically: the first unequal pair decides, and otherwise the shorter list is Less |
| `Day13.PacketsOfLines` | day_13/src/main.rs:21-25 | the packets are exactly those of the non-blank lines |
| `Day13.FlattenLength` | day_13/src/main.rs:28-31 | n pairs flatten to 2n packets |
| `Day13.GetData` | day_13/src/main.rs:19-33 | an error exactly for an odd packet count; otherwise consecutive packets paired in order, flattening back to the packets |
| `Day13.PairUp` | day_13/src/main.rs:28-31 | pair k is packets 2k and 2k + 1, and flattening gives the packets back |
| `Day13.OrderedIndexSumBound` | day_13/src/main.rs:73-80 | the sum is at most 1 + ... + n, reached exactly when every pair is in order |
| `Day13.OrderedIndexSumZero` | day_13/src/main.rs:73-80 | the sum is 0 exactly when no pair is in order |
| `Day13.IdenticalPairNotInOrder` | day_13/src/main.rs:77-78 | a pair of identical packets is never counted |
| `Day13.Part1` | day_13/src/main.rs:73-81 | an error exactly for an odd count; otherwise the sum of the 1-based indices of the pairs comparing Less |
| `Day13.DividersInOrder` | day_13/src/main.rs:84-85 | `[[2]]` comes before `[[6]]` |
| `Day13.InsertPoint` | day_13/src/main.rs:91 | where a stable insertion puts an element: a position within the run |
| `Day13.InsertPointExact` | day_13/src/main.rs:91 | every element after the insertion point compares Greater than the inserted one, and the one before it does not |
| `Day13.InsertionSorted` | day_13/src/main.rs:91 | the stable order `sort_by` produces: the elements inserted one by one, each behind every earlier one it does not precede; same length as the input |
| `Day13.InsertLastSorted` | day_13/src/main.rs:91 | a stable insertion into a sorted run keeps it sorted |
| `Day13.InsertLastAdds` | day_13/src/main.rs:91 | a stable insertion adds exactly the inserted element to the run's multiset |
| `Day13.InsertionSortedSorted` | day_13/src/main.rs:91 | the stable order is sorted by `compare` and a permutation of its input |
| `Day13.SortPackets` | day_13/src/main.rs:91 | the array ends in the stable order of what it held, hence sorted by `compare` and a permutation of it |
| `Day13.InsertInPlace` | day_13/src/main.rs:91 | one pass of adjacent swaps leaves the stable insertion of `a[i]` into the prefix before it, and the rest of the array unchanged |
| `Day13.DividerProductOfTwo` | day_13/src/main.rs:93-98 | two dividers at i and j give (i + 1) × (j + 1) |
| `Day13.DividerProductOfOne` | day_13/src/main.rs:93-98 | one divider at i gives i + 1 |
| `Day13.DividerProductOfNone` | day_13/src/main.rs:93-98 | no divider gives the empty product 1 |
| `Day13.AllPackets` | day_13/src/main.rs:86-90 | the dividers, then both packets of every pair in order |
| `Day13.MultiplyDividerPositions` | day_13/src/main.rs:93-98 | the product of the 1-based positions of the dividers |
| `Day13.Part2` | day_13/src/main.rs:83-99 | an error exactly for an odd count; otherwise the divider product over the stable order of the two dividers followed by all packets |
| `Day13.TieComparisons` | day_13/src/main.rs:46-71 | `[2]` ties with the divider `[[2]]`, and the other comparisons the example's insertions make |
| `Day13.StableTieSorted` | day_13/src/main.rs:86-91 | the stable order of the dividers followed by `[2]` and `[7]` keeps `[[2]]` ahead of `[2]` |
| `Day13.StableTieExample` | day_13/src/main.rs:83-99 | on the lines `[2]`, `[7]` part 2 answers 3, although the order with `[2]` first is sorted too and would give 6 |
| `Day14.SegmentIsBox` | day_14/src/main.rs:18-27 | a straight segment is exactly the cells between its ends, both ends included |
| `Day14.SegmentCells` | day_14/src/main.rs:18-27 | the cells drawn for one segment, none with a negative coordinate; a column when the x coordinates agree, otherwise a row |
| `Day14.PathCellsOnSegments` | day_14/src/main.rs:14-27 | a path's cells are those on its consecutive segments |
| `Day14.CaveCellsOnSegments` | day_14/src/main.rs:8-29 | a cell is rock exactly when it lies on some segment of some path |
| `Day14.CornersAreRock` | day_14/src/main.rs:14-27 | every corner of a path of two or more corners is rock |
| `Day14.AddSegment` | day_14/src/main.rs:18-27 | one segment's cells are added to the rock |
| `Day14.AddPath` | day_14/src/main.rs:14-28 | Diagonal exactly when a segment is diagonal; otherwise the path's cells are added |
| `Day14.PathCellsSnoc` | day_14/src/main.rs:14 | one more corner adds one more segment |
| `Day14.GetData` | day_14/src/main.rs:6-31 | Diagonal exactly when some segment is diagonal; otherwise exactly the cells on the segments |
| `Day14.Drop` | day_14/src/main.rs:43-56 | a grain rests within its cone, at a free cell whose three cells below are blocked or on the floor |
| `Day14.DropLandsOnFloor` | day_14/src/main.rs:46-49 | with a floor, a grain above it always comes to rest |
| `Day14.RestingGrows` | day_14/src/main.rs:57-58 | a resting grain stays at rest as more cells are blocked |
| `Day14.Settle` | day_14/src/main.rs:42-64 | blockers only grow, inside the cone; every grain rests; the sand ends blocking the source or falling past the depth |
| `Day14.FloorFillsToSource` | day_14/src/main.rs:36-62 | with a floor, the sand piles up to the source |
| `Day14.GrainCount` | day_14/src/main.rs:66 | the length difference is the number of grains |
| `Day14.SettleStep` | day_14/src/main.rs:57-62 | a grain resting below the source is added and the pouring goes on |
| `Day14.SettleAtStart` | day_14/src/main.rs:58-61 | a grain resting at the source is the last |
| `Day14.SettleDone` | day_14/src/main.rs:43 | a grain falling past the depth ends the pouring |
| `Day14.PourSand` | day_14/src/main.rs:40-64 | the loop ends with the blockers of `Settle` |
| `Day14.DeepestRow` | day_14/src/main.rs:35 | None exactly for no rock; otherwise the deepest rock row |
| `Day14.DeepestUnique` | day_14/src/main.rs:35 | the deepest row is unique |
| `Day14.Solve` | day_14/src/main.rs:33-67 | errors exactly on a diagonal segment or no rock; otherwise the number of grains at rest with the part's depth |
| `Day14.SolvedSandRests` | day_14/src/main.rs:42-66 | every counted grain rests inside the cone, and in part 2 the last blocks the source |

## Left out

- I/O is not modelled: every `main`, signal handling, argument parsing, `read_data_lines`, stdout and the tests' input files.
- Input lines are given as `seq<string>`, as `read_data_lines` produces them.
- day_04 lines are given as the numbers of their fields, as `trim_split_on` would split them.
- day_14 lines are given as their parsed corner points, for the same reason.
- day_13 lines are given as parsed packets. `json::parse` and the floating-point conversion inside `jint` are foreign code.
- Machine-integer overflow and underflow are not modelled; the integers are unbounded. This covers the `u64` sums of days 01 and 03 and the `i32` register of day 10. It also covers `p.0 - 1` at column 0 in day 14, which is why cells there are signed. On day 07, `70000000 - get_dir_size("/", &fs)` underflows `usize` when the files add up to more than the disk; `Day07.Candidates` computes a negative free space there instead.
- Where the source subtracts 1 from a parsed stack number, a stack number of 0 becomes index -1, which names no stack.
- `Text.ParseInt`, `Text.ParseNat`: do not model the range limits of `i32`/`usize`/`u64`.
- Iteration order of `HashSet`, `BTreeSet` and `BTreeMap` is not modelled: they become Dafny `set` and `map`. Where order matters, the model fixes it:
  - day_05 reads the tops in increasing index;
  - day_12 seeds in row-major order;
  - day_03 sums a set in a fixed order, and the sum is proved order-independent.
- `Day07.Push`: a name other than `/` becomes one new component, even when it holds a `/`. `PathBuf::push` would replace the whole path for an absolute name such as `/x`, and add one component per `/`-separated part of a relative one. A path is modelled as the list of names pushed onto the root. `.` entries stay in the displayed key, as they stay in a `PathBuf`'s text, and `Day07.Pop` skips them as `components()` does. `PathBuf` behaviour beyond pushing, popping and `display` is not modelled.
- `Day03.Priority`: `char::is_lowercase` is the Unicode `Lowercase` property, but the model tests only `a` to `z`. A non-ASCII lower-case letter such as `é` is scored from `A` (`c - 'A' + 27`) where the source scores it from `a` (`c - 'a' + 1`). The Unicode property tables are not modelled.
- `Day01.CountCalories`: the in-place `Vec::sort_by` is modelled as a functional insertion sort. The answer is stated for any descending permutation, which `Day01.DescendingUnique` shows is unique.
- `Day13.SortPackets`: Rust's `sort_by` is a merge sort; the model sorts by insertion, and the answer is stated for the stable insertion order. Every stable sort yields that same order when the comparison is a total preorder; that `compare` is transitive is not proved here.
- `Day07.Build` and the size functions: the sizes are ghost, since sums over a map's key set are defined by choice.
- `Day07.ReplayKeepsRoot`: the root is kept only for transcripts with no listing of a file named `/`. Such a line really does overwrite the root entry.
- `Day09.Part2`: the solver's `part2` is a stub answering 0. The model copies it and states nothing about it.
- Day 10 `part2` is the same computation as `part1`, so only `Day10.Part1` is modelled.
- The day_12 example answers (31 for part 1, 29 for part 2) from the comment in the source are not proved. Evaluating the search on that grid inside the verifier is far too costly; minimality is proved for every grid instead.
- `assert!`, `expect` and `panic!` are modelled as error results or `None`. Examples: an empty-stack `last().unwrap()` is `EmptyStack`, part 2 of day 07 without a candidate is `NoSolution`, and the exhausted search of day 12 is `None`.

## Findings

| source | as written | input that shows it | evidently intended | confidence | as-written member | corrected member |
|---|---|---|---|---|---|---|
| day_07/src/main.rs:66-70 | each directory's size is read with its key plus `/` as the prefix, so the root (key `/`) is read under `//`, which no key starts with, and is listed at size 0 | the transcript `$ cd /`, `$ ls`, `50000000 a`: only deleting the root frees 30000000, but the root is listed at 0, so part 2 finds no candidate and panics | the root is listed at the total size of all files, and part 2 answers 50000000 | not executed | `Day07.RootOnlyHasNoSolution` | `Day07.Part2FixedSolves` |
| day_03/src/main.rs:34-37 | an empty running set is replaced by the next line's set, even when it became empty by intersection in the middle of a group | the group `a`, `b`, `c`: after `b` the set is empty, `c` replaces it, and the group scores 3 although the lines share no item | a group whose lines share no item scores 0: each group is scored by the items common to its three lines | not executed | `Day03.GroupWithoutBadge` | `Day03.Part2Fixed` |
