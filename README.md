# seqs in Dafny

A model of the Go package `seqs`, a library of combinators over Go 1.23
range-over-function iterators (`iter.Seq[T]` and `iter.Seq2[K, V]`), with
proofs of what each combinator yields.

The model rests on a few conventions:

- **Sequences.** An `iter.Seq[T]` is the finite `seq<T>` it would produce.
  An `iter.Seq2[K, V]` is a `seq<(K, V)>`.
- **Consumers.** The body of a `for ... range` loop is a `Consumer`: either
  `Drain`, which takes everything, or `BreakAfter(n)`, which returns false
  from `yield` on the n-th value. `Observe(s, c)` is what consumer `c` sees
  of `s`, and `Continues(c, k)` is what `yield` returns after k values.
- **Combinators.** A combinator is specified by a function of its whole
  output. Its streaming method yields to a consumer and is proved to
  deliver exactly `Observe(spec, c)`, so "stopping after k outputs sees the
  first k outputs" holds for every combinator by construction.
- **Pull cursors.** A pull cursor from `iter.Pull` that never leaves the
  call (MergeFunc, the Comm walk, Zip, CompareFunc, FirstN, SkipN, Uniq) is
  a position in the pulled sequence. `PullAt(y, j)` is what `next()` returns
  at position j: the value, or `None` once y is used up. A cursor that
  escapes the call is the class `Iter.Cursor`, with its input, its position
  and a `stopped` flag. Peek's returned sequence, Resumable's shared
  cursor, and Dup's producer are such cursors.
- **Comparators.** A comparator `f(a, b)` returns negative, zero or
  positive. Claims about sortedness require `IsComparator(f)`: a total
  preorder whose sign flips with its arguments. For the ordered wrappers
  (Merge, Merge2, MergeAll, CommLeft, CommRight, CommBoth, Compare),
  `cmp.Compare` on integers is `Iter.Cmp`.

| file | what it models |
|---|---|
| `iter.dfy` | consumers, Option, pull cursors, `Sorted` and `Subsequence`, `Flatten` |
| `merge.dfy` | two-way merge (MergeFunc) and k-way merge (MergeAllFunc) |
| `comm.dfy` | the lockstep walk of CommLeftFunc and CommBothFunc |
| `zip.dfy`, `equal.dfy` | Zip with zero padding, and the equality tests built on it |
| `seqs.dfy` | pair conversions, Left/Right, Enumerate, CompareFunc, Drain |
| `accum.dfy`, `reduce.dfy` | running folds with an error cell, and folds to one value |
| `map.dfy`, `filter.dfy`, `concat.dfy` | element-wise maps, filters, concatenation |
| `limit.dfy`, `n.dfy`, `skip.dfy` | prefixes and suffixes |
| `last.dfy` | Last, and the LastN ring buffer with its in-place `rotateSlice` on an `array` |
| `uniq.dfy`, `pages.dfy` | adjacent-duplicate removal, and pagination |
| `peek.dfy`, `first.dfy` | peeking, CheckEmpty and Empty, and First |
| `resumable.dfy` | a sequence whose ranges resume where the last one stopped |
| `dup.dfy` | Dup's fan-out buffer, as a class with `buf`, `offsets`, `nrunning` and `done` |

Some of the source exists twice. LastN and rotateSlice appear in both
last.go and n.go, and SkipN and SkipN2 in both n.go and skip.go. The two
copies are the same code line for line, and each is modelled once.
Dup's `bufOffset` is declared at dup.go:22 and never assigned again.
The model follows the code rather than the comment at dup.go:13-15: the
buffer holds every value pulled so far and is never trimmed. `TrimmedDup`
models the trimming that comment describes (see "## Findings").

## Model

| member | source | states |
|---|---|---|
| Merge.MergeFunc | merge.go:34-57 | the values the consumer sees are exactly the prefix it asks for of `Merged(x, y, f)` |
| Merge.Merged | merge.go:22-29 | the merge has length \|x\| + \|y\| |
| Merge.MergedPermutation | merge.go:22-29 | the merge holds every value of x and of y exactly once (multiset sum), sorted input or not |
| Merge.MergedInterleaves | merge.go:39-55 | the merge is an interleaving: picking the positions taken from x gives back x, the rest gives back y |
| Merge.MergeSides | merge.go:39-55 | the side record is as long as the merge |
| Merge.MergedSidesFrom | merge.go:39-55 | each output position marked x holds a value of x, and each marked y a value of y |
| Merge.MergedTiesToX | merge.go:25-26 | when x is sorted, a y value goes out ahead of an x value only when f says it is strictly smaller; ties go to x |
| Merge.TiesWhenYGoesFirst | merge.go:40-45 | the tie rule survives putting y's head first when it is strictly below every value of x |
| Merge.TiesWhenXGoesFirst | merge.go:46-48 | the tie rule survives putting x's head first |
| Merge.MergedSorted | merge.go:22-29 | two inputs sorted by a comparator merge into a sequence sorted by it |
| Merge.MergedFromSuffixes | merge.go:39-55 | the loop state (i values of x taken, j of y) has the merge of the two remaining suffixes still to yield |
| Merge.EmitBefore | merge.go:40-45 | the inner loop yields y's values while they are strictly before x[i], stops with the consumer, and leaves the next y value pulled |
| Merge.EmitRest | merge.go:50-55 | once x is used up, the rest of y goes out unchanged |
| Merge.YieldY | merge.go:41-44 | one y value is handed over, and the state still accounts for the whole merge |
| Merge.MergeFunc2 | merge.go:84-107 | pairs merge by key with the same contract as MergeFunc; a drained merge is a permutation of x and y; pairs sorted by key under a comparator merge sorted by key; and with x sorted, a y pair goes ahead of an x pair only when its key is strictly first, so equal keys keep x's pairs first |
| Iter.ByKeyIsComparator | merge.go:90 | comparing pairs by their keys with a comparator is itself a comparator |
| Merge.Merge | merge.go:18-20 | a merge by `cmp.Compare` is a permutation of x and y, and sorted inputs give sorted output |
| Merge.Merge2 | merge.go:68-70 | a merge of pairs by key with `cmp.Compare` is a permutation of x and y, and pairs sorted by key merge sorted by key |
| Merge.FirstMin | merge.go:145-156 | the chosen index is in range |
| Merge.FirstMinLeast | merge.go:150-156 | the chosen value is no larger than any other, and strictly smaller than every value before it, so ties go to the earliest input |
| Merge.ScanMinLeast | merge.go:150-156 | a scan that starts from a minimum-so-far ends at the first overall minimum |
| Merge.ScanBest | merge.go:146-156 | the best-value loop returns the index `FirstMin` picks and the value there |
| Merge.KMergeStep | merge.go:145-171 | each step of the k-way merge yields the head at `FirstMin` and continues with that input advanced |
| Merge.KMergePermutation | merge.go:145-171 | the k-way merge yields every value of every input exactly once |
| Merge.KMergeSorted | merge.go:145-171 | sorted inputs give a sorted k-way merge |
| Merge.HeadBoundsAll | merge.go:145-156 | with sorted inputs, the smallest head is no larger than any value still to come |
| Merge.Advance | merge.go:162-170 | advancing an input, by replacing its head or deleting it once used up, leaves every entry non-empty |
| Merge.AdvanceFlatten | merge.go:162-170 | advancing drops exactly the chosen head from the values still to come |
| Merge.AdvanceShrinks | merge.go:162-170 | advancing removes one value, so the merge loop ends |
| Merge.AdvanceRemovesHead | merge.go:162-170 | advancing removes the chosen head and nothing else, as a multiset |
| Merge.HeadsReplace | merge.go:163-165 | `vals[bestIndex] = nextval` is advancing that input |
| Merge.HeadsDelete | merge.go:166-170 | deleting index bestIndex from both `vals` and `nexts` is advancing an input that is used up |
| Merge.Heads | merge.go:129-132 | `vals` and `nexts` stay the same length, and entry k is the head `vals[k]` followed by the rest of input k |
| Merge.PullFirsts | merge.go:134-143 | the initial pulls keep exactly the non-empty inputs, in order, as head plus rest |
| Merge.PullFirst | merge.go:138-142 | one initial pull appends a non-empty input and skips an empty one |
| Merge.NonEmpty | merge.go:134-143 | dropping empty inputs leaves only non-empty ones and never more than there were |
| Merge.FlattenNonEmpty | merge.go:134-143 | dropping empty inputs loses no value |
| Merge.NonEmptySorted | merge.go:134-143 | dropping empty inputs keeps every input sorted |
| Merge.YieldBest | merge.go:145-171 | one turn of the outer loop yields the best head and advances its input, with strictly fewer values left to merge |
| Merge.MergeAllFunc | merge.go:119-174 | 0 inputs yield nothing, 1 input yields itself, 2 inputs yield MergeFunc, and more run the k-way loop; each yields the consumer's prefix of `MergeAllOf` |
| Merge.MergeAllPermutation | merge.go:119-174 | the merge of all inputs is a permutation of their concatenation, for every count of inputs |
| Merge.MergeAllSorted | merge.go:119-174 | sorted inputs merge into a sorted sequence, for every count of inputs |
| Merge.MergeAll | merge.go:110-112 | drained, MergeAll is a permutation of the inputs' concatenation, and sorted when the inputs are |
| Merge.MergeAllIsSortedArrangement | merge_test.go:8-20 | sorted integer inputs merge into the one sorted arrangement of their values, such as 1..10 from [3,6,9], [1,4,7,10], [2,5,8] and an empty input |
| Comm.SkipPast | comm.go:28-34 | the skip loop stops at the first right value that is not before l, having passed only values before l |
| Comm.Compared | comm.go:28-38 | after the skip, an equal right value cancels l and is consumed; otherwise l is kept and the right position stays |
| Comm.LeftUnfold | comm.go:25-43 | one turn of CommLeftFunc's loop yields l or nothing, and moves right past what it skipped and cancelled |
| Comm.BothUnfold | comm.go:78-95 | one turn of CommBothFunc's loop yields l exactly when it matched |
| Comm.LeftVisit | comm.go:25-43 | one turn of the loop in CommLeftFunc keeps the invariant that the state accounts for the whole output |
| Comm.BothVisit | comm.go:78-95 | the same for CommBothFunc |
| Comm.SkipRight | comm.go:29-34 | the inner loop pulls right to the skip position and leaves the comparison with l there |
| Comm.Meet | comm.go:27-38 | the skip and the equality test together find the skip position and whether l cancels there |
| Comm.BothEnded | comm.go:79-81 | once right is used up, CommBothFunc yields nothing more |
| Comm.CommLeftFunc | comm.go:18-45 | the consumer sees its prefix of `CommLeftOf(left, right)` |
| Comm.CommRightFunc | comm.go:57-59 | CommRightFunc is CommLeftFunc with the arguments swapped, so its output is a subsequence of right |
| Comm.CommBothFunc | comm.go:71-97 | the consumer sees its prefix of `CommBothOf(left, right)` |
| Comm.CommLeftSubsequence | comm.go:25-43 | CommLeft yields only values of left, in left's order |
| Comm.CommBothFromSubsequence | comm.go:78-95 | CommBoth yields only values of left, in left's order |
| Comm.CommLeftAfterRight | comm.go:27 | once right is used up, every remaining left value passes through |
| Comm.CommSplitsLeft | comm.go:25-43 | CommLeft and CommBoth split left between them: together they hold each left value exactly once |
| Comm.CommLeftDifference | comm.go:35-37 | on sorted integer inputs, CommLeft yields the multiset difference left − right |
| Comm.CommBothIntersection | comm.go:82-94 | on sorted integer inputs, CommBoth yields the multiset intersection of left and right |
| Comm.MatchStep | comm.go:35-37 | an equal pair cancels one from each side: difference and intersection move on past both |
| Comm.MissStep | comm.go:40-42 | a left value with no equal partner stays in the difference and leaves the intersection |
| Comm.SkipIgnored | comm.go:29-34 | right values skipped as smaller than l matter to neither the difference nor the intersection |
| Comm.CommLeft | comm.go:10-12 | CommLeft is a subsequence of left and, on sorted input, the multiset difference |
| Comm.CommRight | comm.go:49-51 | CommRight is a subsequence of right and, on sorted input, right − left |
| Comm.CommBoth | comm.go:63-65 | CommBoth is a subsequence of left and, on sorted input, the multiset intersection |
| Comm.CommLeftExample | comm_test.go:8-18 | CommLeft([1,2,3,4], [2,4,6,8]) is [1,3] |
| Comm.CommRightExample | comm_test.go:20-30 | CommRight([1,2,3,4], [2,4,6,8]) is [6,8] |
| Comm.CommBothExample | comm_test.go:32-42 | CommBoth([1,2,3,4], [2,4,6,8]) is [2,4] |
| Zip.ZipFromAt | zip.go:31-50 | from position i the zip has max(\|x\|,\|y\|) − i items, each the two padded values with presence flags |
| Zip.ZipAt | zip.go:31-50 | Zip yields max(\|x\|,\|y\|) items; item k has Ok1 = k < \|x\|, Ok2 = k < \|y\|, and the value, or the zero value when absent |
| Zip.ZipMissingIsZero | zip.go:7-12 | a missing side carries its zero value, and no item misses both sides |
| Zip.ZipEmit | zip.go:36-48 | each yield hands out the next item of the zip |
| Zip.YieldItem | zip.go:37-47 | one yield keeps the invariant that the state accounts for the whole zip, or stops with the consumer |
| Zip.Zip | zip.go:31-50 | the consumer sees its prefix of the padded zip |
| Zip.Zip2 | zip.go:78-98 | the same over pairs, with Ok1 and Ok2 marking positions inside x and inside y |
| Zip.ZipVals | zip.go:103-111 | ZipVals yields max(\|x\|,\|y\|) pairs of padded values |
| Zip.ZipValsExample | limit_test.go:61-78 | zipping [1,2,3] with [101,102,103] gives the three pairs the test expects after its limit of 10 |
| Equal.EqualFunc | equal.go:35-42 | EqualFunc walks the zip of x and y and asks f of every item; its meaning is stated by EqualFuncMeans |
| Equal.Equal | equal.go:9-16 | Equal is EqualFunc with ==; its meaning is stated by EqualMeans |
| Equal.Equal2 | equal.go:22-29 | Equal2 compares keys and values with ==; its meaning is stated by Equal2Means |
| Equal.EqualFunc2 | equal.go:48-55 | EqualFunc2 hands f both keys and both values; its meaning is stated by EqualFunc2Means |
| Equal.AllAgreeAt | equal.go:35-42 | the zip agrees everywhere exactly when every item agrees |
| Equal.EqualFuncMeans | equal.go:35-42 | EqualFunc holds exactly when the lengths match and f holds pairwise |
| Equal.EqualMeans | equal.go:9-16 | Equal holds exactly when the two sequences are equal, whatever the zero value |
| Equal.Equal2Means | equal.go:22-29 | Equal2 holds exactly when the lengths match and keys and values match pairwise |
| Equal.EqualFunc2Means | equal.go:48-55 | EqualFunc2 holds exactly when the lengths match and f holds on every pair of pairs |
| Equal.EqualExamples | equal_test.go:10-67 | equal lists are Equal, a proper prefix is not Equal in either order, two empty lists are Equal, and "abc" and "ABC" are EqualFunc under case folding |
| Seqs.ToPairs | seqs.go:21-29 | one Pair per item, in order, with the item's two values |
| Seqs.FromPairs | seqs.go:67-75 | one item per Pair, in order, with the Pair's two values |
| Seqs.FromToPairs | seqs.go:21-29 | FromPairs undoes ToPairs |
| Seqs.ToFromPairs | seqs.go:67-75 | ToPairs undoes FromPairs |
| Seqs.Left | seqs.go:32-40 | Left keeps the length and projects the first components in order |
| Seqs.Right | seqs.go:43-51 | Right keeps the length and projects the second components in order |
| Seqs.Enumerate | seqs.go:54-64 | the k-th pair is (k, inp[k]), counting from 0, for as many values as the consumer takes |
| Seqs.EnumerateParts | seqs.go:54-64 | Enumerate's second components are the input, and its first are the indices |
| Seqs.CompareFunc | seqs.go:101-132 | the loop returns `Compared(a, b, f)` |
| Seqs.ComparedFirstDifference | seqs.go:128-130 | the result is f's result on the first pair where f is nonzero |
| Seqs.ComparedPrefix | seqs.go:119-127 | when f is zero on the common part, the result is −1 for a proper prefix of b, 1 for a proper prefix in the other direction, and 0 for equal lengths |
| Seqs.Compare | seqs.go:85-87 | Compare on integers is 0 exactly for equal sequences and lies in −1..1 |
| Seqs.ComparedFlips | seqs.go:101-132 | swapping the integer sequences negates the result |
| Seqs.Drain | seqs.go:136-142 | Drain counts the values |
| Seqs.Drain2 | seqs.go:146-152 | Drain2 counts the pairs |
| Seqs.LeftRightExamples | example_test.go:96-169 | ExampleLeft's and ExampleRight's pairs (1,"a"), (2,"b"), (3,"c") give [1,2,3] and ["a","b","c"] |
| Seqs.CompareExamples | seqs.go:77-81 | cases of Compare's documentation, not from the package's tests: a proper prefix comes first, and otherwise the first unequal pair decides |
| Accum.ScanFolds | accum.go:24-38 | Accumx's values are the folds over the first k+1 inputs; on the first error the failing step is not yielded and the error is in the cell |
| Accum.ScanFromFolds | accum.go:28-34 | the same from any loop position whose fold so far has not failed |
| Accum.FoldXStuck | accum.go:30-32 | once the fold has failed, later values change nothing |
| Accum.FoldXLift | accum.go:9-14 | a fold with a function that never fails is the plain fold, with no error |
| Accum.ScanLift | accum.go:9-14 | without errors, Accumx yields one value per input, each the plain fold so far |
| Accum.ScanStep | accum.go:29-33 | one turn of the loop yields f's value, or records f's error and yields nothing |
| Accum.Accumx | accum.go:24-38 | the consumer sees its prefix of the running folds, and the error cell holds the error of a drained run, or nothing |
| Accum.Accum | accum.go:9-14 | one output per value taken; output k is the left fold from init over the first k+1 inputs |
| Accum.Accum2x | accum.go:59-73 | Accumx over pairs |
| Accum.Accum2 | accum.go:44-49 | Accum over pairs |
| Accum.AccumExamples | accum_test.go:9-65 | summing [1,2,3] gives 1, 3, 6, and adding index times value over pairs gives 8 |
| Reduce.Reducex | reduce.go:35-41 | the last value of Accumx's output with Accumx's error, or init when there is no output; its meaning is stated by ReducexFolds |
| Reduce.Reduce | reduce.go:17-22 | Reducex with a function that never fails; its meaning is stated by ReduceFolds |
| Reduce.Reduce2x | reduce.go:73-79 | Reducex with f given both values of each pair |
| Reduce.Reduce2 | reduce.go:55-60 | Reduce with f given both values of each pair; its meaning is stated by Reduce2Folds |
| Reduce.ReducexFolds | reduce.go:35-41 | Reducex is the fold with failure: the fold of all input, or the accumulator before the failing value together with its error, or init when nothing is yielded |
| Reduce.ReduceFolds | reduce.go:17-22 | Reduce is the left fold f(f(f(init, v1), v2), v3) |
| Reduce.Reduce2Folds | reduce.go:55-60 | Reduce2 is the left fold over pairs |
| Reduce.ReduceExamples | reduce_test.go:9-35 | summing [1,2,3] from 0 gives 6, and an empty input gives init |
| Map.MapFromMeans | map.go:17-35 | Mapx maps value by value up to the first failure; the failing value gives no output and its error is the one kept |
| Map.MapStep | map.go:24-30 | one turn of the loop yields f's value, or records f's error and yields nothing |
| Map.Mapx | map.go:17-35 | the consumer sees its prefix of the mapped values, and the error cell holds the error of a drained run, or nothing |
| Map.Map | map.go:6-11 | one output per value taken, and output k is g(inp[k]) |
| Map.Map2x | map.go:50-69 | Mapx over pairs |
| Map.Map2 | map.go:38-44 | Map over pairs, pointwise |
| Map.MapExample | map_test.go:8-18 | squaring [1,2,3,4] gives [1,4,9,16] |
| Filter.Filter | filter.go:6-14 | the output is no longer than the input, and every output value satisfies f |
| Filter.FilterSubsequence | filter.go:8-12 | the output is a subsequence of the input |
| Filter.FilterCounts | filter.go:8-12 | each value occurs as often as in the input when it satisfies f, and not at all otherwise |
| Filter.FilterAppend | filter.go:8-12 | filtering distributes over concatenation |
| Filter.FilterAllOrNothing | filter.go:8-12 | nothing is dropped exactly when every value satisfies f, and everything is dropped exactly when none does |
| Filter.Filter2 | filter.go:17-25 | every pair kept satisfies f |
| Filter.Filter2From | filter.go:17-25 | Filter2 read from a position: the pair there if f accepts it, then the rest |
| Filter.Filter2Example | filter_test.go:21-33 | Enumerate of [1,3,2,4,5,7,6,8], filtered by an even product of position and value, gives (0,1), (2,2), (3,4), (4,5), (6,6), (7,8) |
| Filter.EvenProductsOfTest | filter_test.go:21-33 | the test's filter applied to its enumerated pairs gives the six pairs the test expects |
| Concat.Concat | concat.go:6-19 | the values of every non-nil input, inputs in argument order; its meaning is stated by ConcatCons, ConcatAppend and ConcatFlattens |
| Concat.Concat2 | concat.go:21-34 | Concat over pair sequences |
| Concat.ConcatCons | concat.go:8-17 | one input's values come before the rest, and a nil input contributes nothing |
| Concat.ConcatAppend | concat.go:8-17 | concatenation respects the argument order |
| Concat.ConcatBasics | concat.go:8-11 | no inputs give nothing, one input gives itself, and a nil input is skipped |
| Concat.Present | concat.go:9-11 | dropping nil inputs never adds inputs |
| Concat.ConcatFlattens | concat.go:6-19 | Concat is the concatenation of the non-nil inputs |
| Concat.ConcatStopsEarly | concat.go:13-15 | a consumer that stops inside the first inputs sees nothing of the later ones |
| Concat.ConcatExample | concat_test.go:8-43 | [1,2,3] and [4,5,6] give [1..6]; the pairs (1,4), (2,5), (3,6) and (100,103), (101,104), (102,105) concatenate in order |
| Limit.Taken | limit.go:7-21 | the count taken is 0 for n ≤ 0 and min(n, \|s\|) otherwise |
| Limit.Limit | limit.go:7-21 | Limit yields the consumer's prefix of the first min(n, \|s\|) values, and pulls no value it does not yield |
| Limit.LimitLimit | limit.go:7-21 | two limits in a row are the smaller limit |
| Limit.Limit2 | limit.go:25-39 | Limit over pairs |
| Limit.LimitExamples | limit_test.go:21-31 | a limit of 10 on [1,2,3] gives all three |
| Limit.LimitZeroExample | limit.go:9-11 | not from the package's tests: a limit of 0 yields nothing and pulls nothing |
| N.FirstN | n.go:8-24 | FirstN yields the first min(n, \|s\|) values, and pulls one more only when the input runs out before n |
| N.FirstN2 | n.go:29-45 | FirstN over pairs |
| N.SkipN | n.go:69-91 | SkipN yields the input after its first n values, or nothing when there are no more than n |
| N.SkipN2 | n.go:95-117 | SkipN over pairs |
| N.FirstNThenSkipN | n.go:8-91 | the first n values followed by the rest are the input |
| N.SkipNSkipN | n.go:69-91 | skipping a then b values is skipping a + b |
| N.FirstNExample | n.go:8-24 | not from the package's tests: the first 2 of [1,2,3] are [1,2], after 2 pulls |
| N.SkipNExample | limit_test.go:106-118 | skipping 20 of [1,2,3] leaves nothing |
| Skip.FirstMatch | skip.go:9-20 | the first match position: every value before it fails f, and the value there satisfies f |
| Skip.SkipUntil | skip.go:9-20 | SkipUntil yields the suffix from the first value satisfying f, and calls f only up to that value |
| Skip.SkipUntilSuffix | skip.go:9-20 | the output is a suffix of the input that starts with a match, and everything before it fails f |
| Skip.SkipUntilExtremes | skip.go:12-18 | no match gives nothing, and a match at the start gives the whole input, later values unchecked |
| Skip.SkipUntilExample | skip_test.go:8-19 | 1..10 with x > 7 gives [8,9,10] |
| Last.Last | last.go:9-20 | Last returns (last value, true), or (zero, false) for an empty input |
| Last.Last2 | last.go:26-32 | Last over pairs |
| Last.LastOf | last.go:9-20 | the value form of Last, with the same contract |
| Last.RotationAmount | last.go:57-65 | the right rotation rotateSlice works out lies in 0..len |
| Last.RotationAmountLeft | last.go:58-62 | a negative amount −k rotates left by k |
| Last.RotationPermutes | last.go:69-72 | a rotation keeps the length and the values |
| Last.RotateRightUndoesLeft | last.go:54-56 | rotating right by k undoes rotating left by k |
| Last.CopyUp | last.go:71 | `copy(s[n:], s)` moves the first len − m cells up by m, overlapping, and leaves the rest |
| Last.CopyIn | last.go:72 | `copy(s, tmp)` writes tmp over the front of s and leaves the rest |
| Last.RotateRightInPlace | last.go:69-72 | the three copies through `tmp` rotate the slice right by m, in place |
| Last.RotateSlice | last.go:57-73 | rotateSlice as written: panics on an empty slice, and otherwise rotates in place by the reduced amount |
| Last.RotateSliceFixed | last.go:57-73 | rotateSlice with the empty slice left alone: rotates by the reduced amount and changes nothing past the slice |
| Last.RotateExample | last.go:54-56 | rotating [D,E,A,B,C] right by 3 gives [A,B,C,D,E] |
| Last.RingGrowStep | last.go:43-45 | while the buffer is filling, it holds the whole prefix seen so far |
| Last.RingSlideStep | last.go:47-48 | once full, writing at `start` and advancing it keeps the buffer, rotated left by start, equal to the last n values |
| Last.FillRing | last.go:42-49 | after the loop the buffer holds min(n, \|inp\|) values, and rotated left by start they are the input's last values |
| Last.RingInOrder | last.go:50 | `rotateSlice(buf, -start)` puts the ring in the input's order |
| Last.LastN | last.go:37-52 | LastN as written panics exactly for n ≤ 0 or an empty input, and otherwise returns the last min(n, \|inp\|) values in order |
| Last.LastNOfEmpty | last.go:50 | as written, LastN of an empty input panics |
| Last.LastNFixed | last.go:37-52 | corrected LastN: the last min(n, \|inp\|) values in order, and nothing for n ≤ 0 |
| Last.LastNExample | limit_test.go:81-91 | the last 7 of 0..99 are [93..99], from LastN as written and from the corrected LastN |
| Uniq.UniqFromShape | uniq.go:16-35 | from any loop state the rest of the output has no adjacent repeats, does not repeat `prev`, and is a subsequence of the rest of the input |
| Uniq.UniqShape | uniq.go:11-37 | no two adjacent outputs are equal, the first input value is always yielded, empty gives empty, and the output is a subsequence |
| Uniq.RunStarts | uniq.go:5-10 | the reference for Uniq by input position: the input at k is kept exactly when k is 0 or it differs from the input at k - 1; never longer than the input |
| Uniq.UniqDropsOnlyRepeats | uniq.go:23-35 | in the loop `prev` is always the input before position i, so the input at k is dropped exactly when it equals the input at k - 1: the rest of the output is `RunStarts` from i |
| Uniq.UniqIsRunStarts | uniq.go:5-37 | only adjacent duplicates are removed: Uniq's output is exactly the first input and every input that differs from the one before it |
| Uniq.UniqKeepsDistinctNeighbours | uniq.go:28-34 | input with no adjacent repeats passes through unchanged |
| Uniq.UniqIdempotent | uniq.go:11-37 | applying Uniq twice is applying it once |
| Uniq.UniqVisit | uniq.go:28-34 | one turn of the loop keeps the invariant that the state accounts for the whole output |
| Uniq.Uniq | uniq.go:11-37 | the consumer sees its prefix of `UniqOf(s)` |
| Uniq.UniqExamples | uniq_test.go:9-48 | the test's cases [1,2,2,1] to [1,2,1], [1,2,1,2] unchanged, and [1,2,2,1,2] to [1,2,1,2] |
| Uniq.UniqDocExamples | uniq.go:5-10 | the documentation's examples, the first also ExampleUniq's (example_test.go:201-209): [1,1,2,2,2,3] gives [1,2,3] and [1,2,1,1,2,2,3] gives [1,2,1,2,3] |
| Pages.Size | pages.go:9-13 | a page size of 1 or more is used as is, and every size gives pages of at least one value |
| Pages.PagesFromFlatten | pages.go:11-23 | the pages, concatenated, are the input |
| Pages.PagesFromSizes | pages.go:13-23 | every page but the last is full, the last holds 1..size values, and an empty input gives no pages |
| Pages.PagesShape | pages.go:7-25 | the whole contract of Pages, from the start of the input |
| Pages.PageFull | pages.go:13-17 | a full page goes out and a new one starts |
| Pages.LastPage | pages.go:21-23 | a partial page at the end goes out |
| Pages.Pages | pages.go:7-25 | Pages panics exactly for a negative size (from `make`), and otherwise the consumer sees its prefix of the pages |
| Pages.PagesExample | example_test.go:107-121 | 1..10 in pages of 3 is [1 2 3] [4 5 6] [7 8 9] [10] |
| Peek.PeekSeq.Range | peek.go:21-36 | ranging over Peek's result yields the peeked value and then the rest of the cursor, and the cursor ends stopped |
| Peek.PeekSeq.Forward | peek.go:27-35 | the range keeps pulling the same cursor until it is used up or the consumer stops |
| Peek.Peek | peek.go:17-43 | Peek returns (inp[0], true) after exactly one pull, or (zero, false) with the cursor stopped, and a sequence that yields all of inp |
| Peek.Peek2 | peek.go:57-86 | Peek over pairs: one pair pulled, (the first pair, true) with the cursor one past it, or the zero values and false with the cursor stopped; the returned sequence yields all of the input |
| Peek.Empty | empty.go:8 | Empty yields nothing to any consumer |
| Peek.Empty2 | empty.go:13 | Empty2 yields nothing to any consumer |
| Peek.CheckEmpty | empty.go:20-23 | CheckEmpty reports empty exactly for an empty input, and hands back a sequence that still yields all of it |
| Peek.CheckEmpty2 | empty.go:30-33 | CheckEmpty over pairs |
| Peek.PeekExamples | peek_test.go:8-30 | Peek of [1,2,3] gives 1 and a sequence that yields [1,2,3], and CheckEmpty of Empty reports empty |
| First.First | first.go:10-17 | First returns (s[0], true), the one value a consumer stopping after one sees, or (zero, false) for an empty input |
| First.First2 | first.go:24-34 | First over pairs, with a zero value per side |
| Resumable.Resumable.constructor | resumable.go:19-22 | Resumable pulls from the input once, with nothing yielded and not stopped |
| Resumable.Resumable.Visit | resumable.go:26-36 | one turn of a range: a pull handed to the consumer, and running out of input stops the cursor |
| Resumable.Resumable.Range | resumable.go:24-38 | a range yields the consumer's prefix of what remains; breaking leaves the cursor running, and running out stops it |
| Resumable.Resumable.Stop | resumable.go:40-44 | the stop function stops the cursor at most once; a second call changes nothing |
| Resumable.YieldedIsPrefix | resumable.go:24-38 | everything yielded across all ranges is a prefix of the input, with nothing repeated or lost |
| Resumable.Resumable2 | resumable.go:58-84 | Resumable over pairs |
| Resumable.ResumableExample | resumable_test.go:8-41 | breaking at 5 gives [2,3,5], the next range [7,11,13], and after stop nothing |
| Dup.Dup.constructor | dup.go:16-29 | n copies at offset 0, an empty buffer, `nrunning` equal to n and `done` open, over a cursor on the input |
| Dup.Dup.Read | dup.go:45-59 | a read by copy i returns the value at its offset, pulling one new value into the buffer only when copy i is farthest ahead, and moves only `offsets[i]`, by one; the buffer never shrinks |
| Dup.Dup.Visit | dup.go:69-73 | one turn of a copy's loop: a read handed to the consumer |
| Dup.Dup.Forward | dup.go:69-73 | a copy's loop yields the consumer's prefix of the input from its offset, and no other copy moves |
| Dup.Dup.Range | dup.go:62-74 | ranging over copy i yields its prefix of the input from its offset, then decrements `nrunning` and closes `done` at 0; closing it a second time panics |
| Dup.CopiesReadTheInput | dup.go:9-11 | while some copy runs, each copy reads the input itself from the start |
| Dup.DupExample | example_test.go:49-64 | two copies of 1..10, each drained, both yield 1..10, and the second closes `done` |
| Dup.UntrimmedBufferExample | dup.go:13-22 | after both copies are drained they are at the same offset, yet the buffer still holds all ten values |
| Dup.TrimmedDup.constructor | dup.go:16-29 | n copies at offset 0 over an empty buffer |
| Dup.TrimmedDup.SlowestOffset | dup.go:13-15 | the smallest offset of any copy |
| Dup.TrimmedDup.Trim | dup.go:13-15 | moves `bufOffset` to the slowest copy and drops the values before it |
| Dup.TrimmedDup.Fill | dup.go:45-59 | Dup's read without the trim: the same value for copy i, and only `offsets[i]` moves |
| Dup.TrimmedDup.Read | dup.go:45-59 | Dup's read followed by the trim that dup.go:13-15 describes: the same value as Dup's read, and afterwards the buffer is exactly as long as the gap between the farthest and the slowest copy |
| Dup.TrimmedDup.BufferIsGap | dup.go:13-15 | the buffer spans from the copy farthest behind to the copy farthest ahead |
| Dup.TrimmedDupExample | dup.go:13-15 | two trimmed copies of 1, 2, each read to the end, yield 1, 2 and leave the buffer empty |

## Left out

- From (seqs.go:10-12) is not modelled: a variadic argument list already is a `seq<T>`, so From would be the identity.
- sql.go is not part of this model. It is database rows and reflection.
- Goroutines, channels, `sync.Mutex`, the atomics in Dup and Resumable, and the coroutines inside `iter.Pull` are not modelled. Dup's producer is a cursor over the input that delivers nothing once `done` is closed, and each Dup read is one atomic step.
- Whether Dup's producer reads one value past `done` before it sees the close is not modelled.
- Dup.Dup.Range: once `done` is closed the model's copies can read only what is buffered. In Go a copy ranged after that blocks on the channel (dup.go:51), and the producer's select (dup.go:34-40) may still pick the send, so that copy may receive values past the buffer before its second close of `done` panics. Only the case where the producer has already stopped is modelled.
- Infinite inputs are not modelled, nor the non-termination of Drain, Last, LastN, Reduce, Compare and Equal on them.
- Go's zero values are parameters (`zero`, `z1`, `z2`) wherever they reach the output.
- User-supplied functions are total and pure.
- Each returned sequence is ranged once. Limit, FirstN and SkipN capture their counter outside the returned closure, and SkipUntil captures its flag there, so a second range would continue from the first. This is not modelled.
- Merge.MergeAllFunc: `vals` and `nexts` are sequences reassigned by each step, not slices updated and shrunk in place. Each `next` function is the rest of its input. Aliasing between the two slices does not arise in Go either.
- Local pull cursors (MergeFunc, the Comm walk, Zip, CompareFunc, FirstN, SkipN and Uniq) are positions. Their deferred `stop()` is not modelled, since it changes no value that is yielded.
- Peek.PeekSeq.Range: the deferred `stop` on every exit of the range is modelled as the `cur.stopped` clause. When the consumer breaks, the cursor is stopped even though values remain.
- Pages.Pages: each page is a fresh `seq` value, so the property that earlier pages are never modified after they are yielded holds by construction rather than being proved. A page size of 0 behaves as size 1, as `len(page) >= 0` does in Go.
- Reduce.Reducex passes init where Go's Last would pass a zero value; that value is never returned.
- Zipped2 (zip.go:52-59) is `Zipped` at pair types. Zip2's items are `Zipped<(K1, V1), (K2, V2)>`.
- Dup.Dup.constructor takes `n: nat`. A negative n makes Go's `make` panic.
- Filter.Filter: the first-three-evens test (filter_test.go:8-19) ranges over the generator `Ints`, whose source is not shown. Its property is stated generally by FilterCounts and FilterSubsequence.
- Filter.Filter2: the contract says every pair kept satisfies f. That it keeps all of them in order follows from Filter, since Filter2 is Filter at pair type.
- Merge.MergeAllFunc: the test merging to 1..10 (merge_test.go:8-20) is covered by MergeAllIsSortedArrangement, which applies to any sorted inputs rather than to that one literal case.
- Duplicate snapshots: LastN and rotateSlice in n.go:50-65 and n.go:122-138, and SkipN and SkipN2 in skip.go:24-72, are the same code as the copies modelled.

## Findings

| source | as written | input that shows it | evidently intended | confidence | as-written member | corrected member |
|---|---|---|---|---|---|---|
| last.go:50, last.go:57-64 | `rotateSlice(buf, -start)` reduces the amount with `% len(s)`, which divides by zero for an empty buffer | LastN of an empty input with n > 0 | the empty input has no last values: return an empty slice | high (not executed) | Last.LastNOfEmpty | Last.LastNFixed |
| last.go:47 | with n == 0 the buffer never grows, so `buf[start] = val` indexes an empty slice | LastN([1], 0) | the last 0 values: an empty slice | high (not executed) | Last.LastN | Last.LastNFixed |
| last.go:61, last.go:64 | `n %= len(s)` on an empty slice | rotateSlice of an empty slice | rotating nothing leaves it unchanged | high (not executed) | Last.RotateSlice | Last.RotateSliceFixed |
| dup.go:13-15, dup.go:22, dup.go:58 | `bufOffset` is never assigned after its declaration and `buf` is never trimmed, so the buffer keeps every value pulled | Dup(1..10, 2) with both copies drained: ten values buffered while the gap between the copies is 0 | the buffer holds only the values between the slowest and the farthest copy | high (not executed) | Dup.UntrimmedBufferExample | Dup.TrimmedDup.Read |
