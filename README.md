# pipe combinators in Dafny

A model of the Anarchitecture/pipe PHP library. Each factory builds a
one-argument stage for PHP 8.5's pipe operator `|>` (`$x |> array_map($f)`).
The model covers:

- the seven thin wrappers in `src/pipe.php`: array_any, array_all,
  array_chunk, array_map, array_slice, explode and usort;
- the sequence vocabulary whose behaviour the test suite fixes:
  - windows, stars-and-bars allocation and the power set;
  - transpose, reduce-until, zip and zip_map;
  - chunking of iterables and of strings, and both flattens;
  - take, nth and first over generators;
  - filter, map, reduce, all and any over generators;
  - iterate and the ticker;
  - recursive leaf mapping with and without key paths;
  - key removal, uasort, implode, str_replace and str_starts_with.

A PHP array is modelled as an ordered sequence of `(Key, V)` pairs, with
`Key = I(int) | S(string)` (module `PhpArray`). PHP's assignment
`$a[$k] = $v` is `Put`: an existing key keeps its position and takes the new
value, and a new key goes at the end. `iterator_to_array` is `Collect`, a
left fold of `Put` over the yielded pairs. So a generator that yields the
same key twice keeps the later value at the earlier position.

A factory that validates its configuration returns a `Result`. The
`InvalidArgument` error is raised when the factory is called, before any
input is seen. Stages whose observable behaviour is a step-by-step process
are imperative Dafny:

- the reduce-until loop with its call trace;
- the zip cursors, one per right source;
- the key-assigning flatten loop;
- the chunk buffer;
- the in-place sort of the closure's own copy;
- generators: the class `Lazy.Generator` (a cursor over a finite sequence
  of pairs) and the class `Iterate.Iteration` (an infinite
  `iterate(f, seed)`).

Pull counts and the cursor position after a short-circuit are part of the
generators' contracts.

Modules: `PhpArray` (keys, `Put`, `Collect`, renumbering, pieces),
`Pipe` (the wrappers of `src/pipe.php`), `Sorting`, `PhpString`, `Window`,
`Allocate`, `Combinations`, `Transpose`, `ReduceUntil`, `Zip`, `Chunk`,
`Flatten`, `Lazy`, `Iterate`, `MapRecursive`, `ArrayAccess`.

## Model

| member | source | states |
|---|---|---|
| Pipe.ArrayAny | src/pipe.php:10-14 | array_any is true exactly when some (value, key) pair satisfies the predicate; false on empty input |
| Pipe.ArrayAll | src/pipe.php:19-23 | array_all is true exactly when every (value, key) pair satisfies the predicate; true on empty input |
| Pipe.ProbedAll | tests/ArrayAllTest.php:21-86 | when no element decides the answer, the predicate is called on every key in iteration order |
| Pipe.ProbedUpTo | tests/ArrayAnyTest.php:21-71 | the predicate is called on the keys in order up to and including the first deciding element, and on no later one |
| Pipe.ProbedDecides | tests/ArrayAnyTest.php:21-71 | on a non-empty array the scan probes between one key and all of them, and the answer of array_any or array_all is the predicate's answer on the last pair probed |
| Pipe.AllIsNotAnyNot | src/pipe.php:10-23 | all(p) is the negation of any(not p) on every array |
| Pipe.ArrayChunk | src/pipe.php:28-32 | a length below 1 is a ValueError raised when the stage runs; otherwise the result is a list of chunks |
| Pipe.ArrayChunkShape | tests/ArrayChunkTest.php:21-33 | chunks are nonempty, all of the given length except the last, which holds 1 to length values; no chunks for empty input; with preserve_keys they concatenate back to the input |
| Pipe.ArrayChunkAt | tests/ArrayChunkTest.php:35-91 | chunk i sits under key i and is the run a[i*length..] of at most length pairs, keys kept with preserve_keys and renumbered 0.. otherwise |
| Pipe.ArrayMap | src/pipe.php:37-41 | the keys are unchanged, int and string alike, and each value is f of the input value |
| Pipe.ArrayMapCompose | tests/ArrayMapTest.php:22-67 | mapping g after f is mapping their composition |
| Pipe.SliceBounds | src/pipe.php:46-50 | the slice bounds always lie within the array |
| Pipe.ArraySlice | src/pipe.php:46-50 | the values are the contiguous run between the bounds; with preserve_keys the pairs are exactly that run |
| Pipe.ArraySliceKeys | tests/ArraySliceTest.php:39-55 | without preserve_keys, string keys are kept and integer keys are renumbered 0.. in order |
| Pipe.SliceForward | tests/ArraySliceTest.php:21-37 | a non-negative offset and length select [offset, offset + length) clamped to the array |
| Pipe.SliceToEnd | tests/ArraySliceTest.php:57-75 | a null length runs to the end |
| Pipe.SliceNegativeOffset | tests/ArraySliceTest.php:57-75 | a negative offset -k counts from the end: it equals offset n - k |
| Pipe.SliceBeforeStart | tests/ArraySliceTest.php:57-75 | a negative offset reaching before the start is clamped to 0 |
| Pipe.Usort | src/pipe.php:64-69 | the result is keyed 0..n-1, its values are sorted by the comparator and are a permutation of the input values; the sort is stable: a one-to-one map of positions takes each output value to its input position, and values the comparator ties keep their input order |
| Pipe.Uasort | tests/UasortTest.php:22-62 | the pairs are sorted by value, each key travels with its value, and the result is a permutation of the input pairs; pairs whose values tie keep their input order |
| Pipe.ByValueComparator | tests/UasortTest.php:22-62 | comparing pairs by their values inherits totality and transitivity from the value comparator |
| Sorting.InsertionSort | src/pipe.php:66 | the array is sorted in place by the comparator and stays a permutation of its old contents |
| Sorting.Sink | src/pipe.php:66 | one insertion step extends the sorted prefix by one and keeps the contents |
| Sorting.SwapDown | src/pipe.php:66 | one swap moves the inserted value down one place and keeps the prefix invariants |
| Sorting.StableSort | src/pipe.php:66 | sorting elements tagged with their input positions gives a sorted permutation in which each output element comes from a distinct input position and tied elements keep their input order |
| Sorting.StableSortOrder | src/pipe.php:66 | a permutation of the tagged input sorted by element and then by position is sorted by element, permutes the input, uses each position once, and lists tied elements in position order |
| Sorting.SortCopy | src/pipe.php:66 | sorting a copy in a fresh array gives a sorted permutation of the input |
| Sorting.TagsFromInput | src/pipe.php:66 | every element of a permutation of the position-keyed input is the input element at its key's position |
| Sorting.TagsDistinct | src/pipe.php:66 | no input position occurs twice in a permutation of the position-keyed input |
| Sorting.TagsOrdered | src/pipe.php:66 | a sequence sorted by element and then by distinct position is sorted by element, with tied elements in position order |
| Sorting.ByPositionComparator | src/pipe.php:66 | breaking ties by input position keeps the comparator total and transitive |
| PhpString.Split | src/pipe.php:55-59 | splitting always gives at least one piece, so the empty subject gives one empty piece |
| PhpString.Explode | src/pipe.php:55-59 | an empty delimiter is a ValueError; otherwise the pieces keyed 0.. are the split of the subject at every occurrence |
| PhpString.JoinSplit | tests/ExplodeTest.php:22-42 | joining the pieces with the delimiter gives back the subject, so empty and trailing pieces are all kept |
| PhpString.SplitPiecesAvoidDelimiter | tests/ExplodeTest.php:22-42 | no piece contains the delimiter |
| PhpString.SplitCount | tests/ExplodeTest.php:22-42 | a one-byte delimiter gives one more piece than it has occurrences ('a,,c,' gives 4 pieces) |
| PhpString.SplitJoin | tests/ImplodeTest.php:22-53 | imploding pieces free of a one-byte separator and exploding at it gives the same pieces back, empty ones included |
| PhpString.Implode | tests/ImplodeTest.php:22-53 | the values are joined in iteration order, keys ignored; with the empty separator, or with at most one value, the result is the plain concatenation of the values |
| PhpString.JoinEmptySeparator | tests/ImplodeTest.php:33-42 | joining with the empty separator is concatenating the parts |
| PhpString.ReplaceAll | tests/StrReplaceTest.php:22-31 | replacing the search string by itself leaves the subject unchanged |
| PhpString.ReplaceIsSplitJoin | tests/StrReplaceTest.php:22-31 | replacing every occurrence is exploding at the search string and imploding with the replacement |
| PhpString.ReplaceConsequences | tests/StrReplaceTest.php:55-64 | a subject without the search string is unchanged by any replacement; an empty replacement joins the pieces with nothing |
| PhpString.StrReplace | tests/StrReplaceTest.php:33-42 | the search strings are applied one after another to the whole subject, so replacing each by itself leaves the subject unchanged |
| PhpString.StrReplaceSingle | tests/StrReplaceTest.php:22-31 | with one search string, str_replace is explode followed by implode |
| PhpString.StrReplaceArray | tests/StrReplaceTest.php:44-53 | an array subject keeps every key and each value is replaced on its own |
| PhpString.StartsWith | tests/StrStartsWithTest.php:21-63 | true exactly when the needle is no longer than the subject and equals its prefix; the bytes are compared exactly, so case counts, and the empty needle is always a prefix |
| PhpString.StartsWithConcat | tests/StrStartsWithTest.php:21-30 | every string starts with itself followed by anything |
| PhpString.ChunksFrom | tests/IterableStringTest.php:26-83 | every chunk has between 1 and size bytes |
| PhpString.IterableString | tests/IterableStringTest.php:14-24 | a size of 0 or less is InvalidArgument at the factory; otherwise the stage is the chunking from offset 0 |
| PhpString.ChunksFromShape | tests/IterableStringTest.php:26-83 | chunk i is keyed by its byte offset i*size; all chunks but the last have exactly size bytes, and the last has 1 to size bytes; the empty string gives no chunk |
| PhpString.ChunksFromConcat | tests/IterableStringTest.php:109-137 | the chunks concatenated in order give back the input, NUL bytes included |
| PhpString.ChunksWhole | tests/IterableStringTest.php:85-107 | a string no longer than size is one chunk at key 0, and the empty string yields nothing |
| Window.Slide | tests/IterableWindowTest.php:31-46 | n - size + 1 windows for n >= size, none otherwise; window i is values[i..i+size) |
| Window.IterableWindow | tests/IterableWindowTest.php:15-29 | a size below 1 is InvalidArgument at the factory, before any input |
| Window.WindowSpec | tests/IterableWindowTest.php:31-67 | non-circular windows are keyed 0.., are lists, and hold values[i..i+size); input keys are dropped |
| Window.Circular | tests/IterableWindowTest.php:103-135 | circular windows: none when there are fewer values than size, otherwise one per value, each of size values |
| Window.CircularSpec | tests/IterableWindowTest.php:103-135 | circular, n < size yields nothing; otherwise there are exactly n windows of size values, and window i position j is v[(i + j) mod n] |
| Window.CircularAt | tests/IterableWindowTest.php:165-184 | a single circular window wraps round the end of the input |
| Window.CircularKeys | tests/IterableWindowTest.php:186-197 | circular output keys are exactly 0..n-1, so collecting it overwrites nothing |
| Window.SizeOne | tests/IterableWindowTest.php:149-163 | with size 1 each element is yielded alone, circular or not |
| Window.KeysIgnored | tests/IterableWindowTest.php:48-89 | the windows depend only on the values, so any keys or a one-shot source with the same values give the same windows |
| Allocate.Counts | tests/IterableAllocateTest.php:107-121 | every allocation has one count per slot and the counts sum to the total |
| Allocate.CountsSorted | tests/IterableAllocateTest.php:46-66 | allocations come out in strictly increasing lexicographic order, so the first slot varies slowest |
| Allocate.CountsComplete | tests/IterableAllocateTest.php:88-105 | every count vector of the right length summing to the total is produced |
| Allocate.CountsSize | tests/IterableAllocateTest.php:123-142 | there are C(total + n - 1, n - 1) allocations for n slots |
| Allocate.FourSlotsThreeUnits | tests/IterableAllocateTest.php:123-142 | four slots and total 3 give 20 allocations |
| Allocate.CountsZero | tests/IterableAllocateTest.php:22-44 | total 0 gives exactly one allocation |
| Allocate.IterableAllocate | tests/IterableAllocateTest.php:15-20 | a negative total is InvalidArgument at the factory |
| Allocate.AllocateSpec | tests/IterableAllocateTest.php:46-121 | every allocation is keyed 0.., carries exactly the input keys in input order, ignores the input values, and holds non-negative counts summing to the total |
| Allocate.NoSlots | tests/IterableAllocateTest.php:22-44 | zero slots yield one empty allocation for total 0 and nothing for a positive total |
| Combinations.PowerSet | tests/IterableCombinationsAllTest.php:16-53 | n items give 2^n subsets |
| Combinations.CombinationsAll | tests/IterableCombinationsAllTest.php:16-72 | the subsets are keyed 0.. and there are 2^n of them |
| Combinations.PowerSetSound | tests/IterableCombinationsAllTest.php:39-53 | every subset is a selection of the input pairs in their original relative order, keys and values kept |
| Combinations.PowerSetComplete | tests/IterableCombinationsAllTest.php:39-53 | every selection of the input pairs appears among the subsets |
| Combinations.PowerSetDistinct | tests/IterableCombinationsAllTest.php:16-53 | over distinct pairs each subset appears exactly once |
| Combinations.PowerSetEnds | tests/IterableCombinationsAllTest.php:16-37 | the first subset is the empty one and the last is the whole input |
| Combinations.TwoItems | tests/IterableCombinationsAllTest.php:39-53 | two items yield [], {a}, {b}, {a,b} in that order |
| Transpose.ArrayTranspose | tests/ArrayTransposeTest.php:19-147 | one inner map per column key, without repeats and in first-seen order, each keyed by exactly the row keys |
| Transpose.Column | tests/ArrayTransposeTest.php:82-98 | every output inner map has exactly the row keys in row order |
| Transpose.AllColumnKeysHas | tests/ArrayTransposeTest.php:134-147 | a key is a column key exactly when some row has it |
| Transpose.TransposeShape | tests/ArrayTransposeTest.php:82-147 | the output has each column key once, in first-seen order scanning rows top to bottom, and each inner map has exactly the row keys |
| Transpose.TransposeCell | tests/ArrayTransposeTest.php:19-35 | out[c][r] = in[r][c] for every cell present in the input |
| Transpose.TransposeMissing | tests/ArrayTransposeTest.php:65-80 | a cell missing from a ragged row becomes null |
| Transpose.SingleRow | tests/ArrayTransposeTest.php:48-63 | a single row becomes one one-entry map per column, keyed by the row key |
| Transpose.TransposeEmpty | tests/ArrayTransposeTest.php:37-46 | empty input gives empty output |
| ReduceUntil.ArrayReduceUntil | tests/ArrayReduceUntilTest.php:28-74 | stops at the first element where the predicate holds on the new carry and returns [carry, key, value]; otherwise returns [full fold, null, null]; the call trace alternates reduce and until and ends there |
| ReduceUntil.Steps | tests/ArrayReduceUntilTest.php:52-57 | a fold that never stops makes two callback calls per element |
| ReduceUntil.EmptyInput | tests/ArrayReduceUntilTest.php:76-99 | empty input gives [initial, null, null] with no callback call |
| ReduceUntil.StepsShape | tests/ArrayReduceUntilTest.php:52-57 | the trace has two entries per element: reduce with the new carry, then until with the same carry |
| Zip.Shortest | tests/IterableZipTest.php:51-63 | the length is the minimum of the left length and every right length |
| Zip.IterableZip | tests/IterableZipTest.php:20-229 | one tuple per position up to the shortest source; each is keyed by the left key, lists the left value then each right value in argument order, and ignores right keys |
| Zip.Gather | tests/IterableZipTest.php:199-212 | the cursors advance in lockstep, and the zip stops as soon as any one right source is exhausted |
| Zip.Longest | tests/ZipMapTest.php:53-69 | the length is the longest input |
| Zip.Row | tests/ZipMapTest.php:53-69 | position i of each input is its value there, or null past its end |
| Zip.ZipMap | tests/ZipMapTest.php:22-97 | output keyed 0.., as long as the longest input, with out[i] = f(row i); empty input gives empty output |
| Zip.ZipMapNull | tests/ZipMapTest.php:36-51 | a null callback gives a list as long as the longest input whose entries are lists with one cell per input |
| Zip.ZipMapNullCells | tests/ZipMapTest.php:36-51 | a null callback yields tuples keyed 0.. of the values at position i, null where an input is too short |
| Chunk.Chunked | tests/IterableChunkTest.php:32-46 | the chunks are keyed 0.., one per run of size pairs |
| Chunk.IterableChunk | tests/IterableChunkTest.php:16-143 | a size of 0 or less is InvalidArgument whatever the input, so the error comes from the factory before any item is read; otherwise the buffered loop yields exactly the chunked sequence |
| Chunk.Push | tests/IterableChunkTest.php:125-143 | adding a pair to the buffer is key assignment with preserve_keys and an append under the next index without |
| Chunk.Emit | tests/IterableChunkTest.php:32-46 | a full or final buffer becomes the next chunk, keyed by the chunk count |
| Chunk.BufferStep | tests/IterableChunkTest.php:125-143 | the buffer after one more pair is Put of that pair (preserve_keys) or the list grown by its value |
| Chunk.NextChunk | tests/IterableChunkTest.php:32-46 | the chunk count grows by one per size pairs consumed, and the last chunk may be shorter |
| Chunk.ChunkedShape | tests/IterableChunkTest.php:32-123 | chunks are keyed 0.., cut after every size consumed pairs, only the last shorter, and they concatenate back to the input; empty input yields nothing |
| Chunk.ChunkAt | tests/IterableChunkTest.php:48-92 | without preserve_keys a chunk is the list of its run's values; with it, the chunk's keys are its run's keys without repeats, first-seen order |
| Chunk.ChunkKeepsLast | tests/IterableChunkTest.php:125-143 | a key repeated inside one chunk's run keeps its later value |
| Chunk.RepeatedKeyExample | tests/IterableChunkTest.php:125-143 | ['a'=>1,'a'=>2,'b'=>3,'c'=>4] by 2 gives [['a'=>2], ['b'=>3,'c'=>4]] |
| Flatten.Merged | tests/ArrayFlattenTest.php:13-148 | the merge is a real array whose keys are the renumbered inner keys without repeats, in first-seen order |
| Flatten.ArrayFlatten | tests/ArrayFlattenTest.php:13-148 | a non-array element is a TypeError; otherwise the key-assigning loop ends with the inner pairs, int keys renumbered across the whole result, collected by PHP assignment |
| Flatten.AssignAll | tests/ArrayFlattenTest.php:110-148 | assigning one inner array extends the result by exactly that array's renumbered pairs |
| Flatten.Assign | tests/ArrayFlattenTest.php:37-49 | one assignment puts a string key as is and an int key under the next free index |
| Flatten.FlattenLists | tests/ArrayFlattenTest.php:13-49 | inner arrays with only int keys flatten to the concatenated values keyed 0.. |
| Flatten.FlattenKeys | tests/ArrayFlattenTest.php:28-148 | the result is a map whose keys are the string keys seen plus 0..(number of int-keyed pairs - 1); it is empty exactly when every inner array is |
| Flatten.FlattenStringKey | tests/ArrayFlattenTest.php:110-127 | a repeated string key holds the value of its last occurrence |
| Flatten.FlattenIntKey | tests/ArrayFlattenTest.php:37-49 | the p-th int-keyed pair lands under the count of int-keyed pairs before it |
| Flatten.MixedKeysExample | tests/ArrayFlattenTest.php:129-148 | the mixed-key example flattens to ['a'=>99, 0=>'x', 1=>'y', 'b'=>2, 2=>'z'] |
| Flatten.MixedKeysCollect | tests/ArrayFlattenTest.php:129-148 | the repeated 'a' keeps its first position and takes the later value |
| Flatten.MixedKeysRenumber | tests/ArrayFlattenTest.php:129-148 | the int keys 10, 20, 30 of the concatenated example become 0, 1, 2 and the string keys stay |
| Flatten.IterableFlatten | tests/IterableFlattenTest.php:13-45 | values are the concatenation in order; keys are the inner keys with preserve_keys and 0.. without; empty exactly when every inner array is |
| Flatten.GeneratorsExample | tests/IterableFlattenTest.php:13-39 | two lists flattened with keys kept collect to the second list, and without keys they give all six values |
| Flatten.OverwriteExample | tests/IterableFlattenTest.php:22-38 | collecting two lists one after the other leaves only the second one's values |
| Flatten.ConcatEmpty | tests/IterableFlattenTest.php:42-45 | the concatenation is empty exactly when every inner array is |
| Flatten.Needed | tests/IterableFlattenTest.php:47-57 | the number of outer elements taking n values pulls never exceeds the outer length |
| Flatten.NeededMinimal | tests/IterableFlattenTest.php:47-57 | the outer elements pulled are the fewest that hold n values: one fewer would not hold them |
| Flatten.FlattenTake | tests/IterableFlattenTest.php:47-57 | take(n) over flatten yields the first min(n, total) values and pulls exactly the outer elements needed |
| Flatten.TakeInner | tests/IterableFlattenTest.php:47-57 | one inner array is read only up to the values still wanted |
| Flatten.PullStep | tests/IterableFlattenTest.php:47-57 | one more outer pull either completes the take or extends the prefix by the whole inner array |
| Flatten.TakeTwelveExample | tests/IterableFlattenTest.php:47-57 | four 3-element inner arrays satisfy take(12), so the fifth outer element is never pulled |
| Lazy.Generator.Produced | tests/IterableTakeTest.php:71-88 | the number of elements the generator has produced is at most its length |
| Lazy.Generator.constructor | tests/IterableTakeTest.php:52-69 | a new generator has not started |
| Lazy.Generator.Current | tests/IterableFirstTest.php:43-57 | current() starts the generator and reports the element at the cursor, or null past the end |
| Lazy.Generator.Next | tests/IterableFirstTest.php:43-57 | next() moves the cursor one element on, stopping at the end |
| Lazy.Take | tests/IterableTakeTest.php:23-112 | a negative n is InvalidArgument; otherwise the first min(n, length) pairs with their own keys, having produced exactly that many elements; n <= 0 leaves the source as it was |
| Lazy.Nth | tests/IterableNthTest.php:22-60 | a negative n is InvalidArgument and leaves the source as it was; otherwise the value at position n or null, having produced exactly min(n + 1, length) elements |
| Lazy.First | tests/IterableFirstTest.php:13-74 | the first value, keys ignored, or null for an empty source; exactly one element produced and the cursor left on it |
| Lazy.FirstThenNext | tests/IterableFirstTest.php:43-57 | after first() on 1..5 gives 1, next() leaves the source on 2 |
| Lazy.All | tests/IterableAllTest.php:13-71 | true exactly when every value satisfies the predicate; it stops at the first failure and leaves the source there, or at the end |
| Lazy.Any | tests/IterableAnyTest.php:13-64 | true exactly when some value satisfies the predicate; it stops at the first match and leaves the source there, or at the end |
| Lazy.AllTrue | tests/IterableAllTest.php:73-100 | without a predicate, true exactly when every value is the boolean true |
| Lazy.AnyTrue | tests/IterableAnyTest.php:66-92 | without a predicate, true exactly when some value is the boolean true |
| Lazy.Filtered | tests/IterableFilterTest.php:23-55 | the filtered pairs are no more than the input and every one of them is accepted by the predicate on (value, key) |
| Lazy.Filter | tests/IterableFilterTest.php:75-111 | the filtered pairs, with one predicate call per element and the source exhausted |
| Lazy.FilteredSpec | tests/IterableFilterTest.php:23-55 | every kept pair is an input pair accepted on (value, key), every accepted pair is kept, and nothing is added |
| Lazy.FilteredOrder | tests/IterableFilterTest.php:23-55 | order and multiplicity: output pair j is the input pair at the j-th accepted position, the positions strictly increase, and a position is among them exactly when its pair is accepted |
| Lazy.AcceptedSpec | tests/IterableFilterTest.php:23-55 | the accepted positions lie in the input, strictly increase, and are exactly the positions whose pair is accepted |
| Lazy.FilteredAt | tests/IterableFilterTest.php:23-55 | output pair j is the input pair at the j-th accepted position |
| Lazy.FilteredAll | tests/IterableFilterTest.php:113-129 | when every pair is accepted the output is the input, sparse keys included |
| Lazy.Map | tests/IterableMapTest.php:24-121 | the output keeps every key with f of each value, with one mapper call per element |
| Lazy.MapAgrees | tests/IterableMapTest.php:44-82 | pairs with the same keys and mapped values are exactly array_map's result |
| Lazy.Reduce | tests/IterableReduceTest.php:22-80 | the left fold from initial over (carry, value, key) in order, one reducer call per element; initial for empty input |
| Lazy.ReduceFromNull | tests/IterableReduceTest.php:82-96 | an appending reducer started from null gives null on empty input and the list of values otherwise |
| Iterate.Iteration.constructor | tests/IterateTest.php:15-31 | creating the generator calls f zero times |
| Iterate.Iteration.Current | tests/IterateTest.php:15-49 | the value at key i is f^i(seed), or f^(i+1)(seed) without the seed, keys from 0 |
| Iterate.Iteration.Next | tests/IterableTickerTest.php:44-60 | next() moves one key on with one more call of f |
| Iterate.Take | tests/IterateTest.php:15-71 | take(n) yields keys 0..n-1 with f^(i + offset)(seed) and leaves the generator on the last value having called f only for the values taken |
| Iterate.TakeRest | tests/IterateTest.php:51-71 | the remaining values each cost one next() |
| Iterate.DoublingExample | tests/IterateTest.php:51-71 | doubling "a" gives "a", "aa", "aaaa", and the generator then sits on "aaaa" after two calls |
| Iterate.TickerValues | tests/IterableTickerTest.php:16-42 | the ticker from s holds s + i at key i |
| Iterate.Ticker | tests/IterableTickerTest.php:16-29 | the ticker is iterate over the successor with the seed included |
| Iterate.TickerByHand | tests/IterableTickerTest.php:44-60 | each manual next() advances key and value by exactly 1 |
| Iterate.TakeTicker | tests/IterableTickerTest.php:31-42 | take(n) yields exactly n values s..s+n-1 keyed 0..n-1 |
| MapRecursive.ArrayMapRecursive | tests/ArrayMapRecursiveTest.php:21-45 | the nesting and every key are kept at every level, and the result is the path-aware map with a callback that ignores the path |
| MapRecursive.ArrayMapRecursiveWithPath | tests/ArrayMapRecursiveWithPathTest.php:22-54 | the nesting and every key are kept, and the leaves of the result are f of each (leaf, path) in the order the callback meets them |
| MapRecursive.Leaves | tests/ArrayMapRecursiveWithPathTest.php:50-54 | every leaf path extends the path of the array it is found in |
| MapRecursive.MapKeepsShape | tests/ArrayMapRecursiveTest.php:21-45 | only leaves are mapped; every nested array and every key, int key 10 included, is kept at every level |
| MapRecursive.MapWithPathKeepsShape | tests/ArrayMapRecursiveWithPathTest.php:22-48 | with paths too, the structure and every key are kept |
| MapRecursive.MapIsMapWithPath | tests/ArrayMapRecursiveTest.php:21-45 | mapping without paths is mapping with paths that are ignored |
| MapRecursive.MapWithPathLeaves | tests/ArrayMapRecursiveWithPathTest.php:22-54 | the callback sees each leaf once, depth first in key order, with its full path, and its answer becomes that leaf |
| MapRecursive.LeafPaths | tests/ArrayMapRecursiveWithPathTest.php:50-54 | every path starts with the path of the enclosing array and goes at least one key deeper |
| MapRecursive.EmptyArray | tests/ArrayMapRecursiveWithPathTest.php:57-71 | an empty array maps to an empty array and the callback sees no leaf |
| MapRecursive.PathExample | tests/ArrayMapRecursiveWithPathTest.php:50-54 | the paths seen are ['a'], ['b','c'], ['b',10,0] in that order |
| MapRecursive.TimesTenExample | tests/ArrayMapRecursiveWithPathTest.php:22-48 | multiplying each leaf by ten keeps every key, int key 10 included |
| ArrayAccess.Dissoc | tests/ArrayDissocTest.php:21-49 | every pair kept is an input pair whose key is not removed, and every input pair whose key is not removed is kept |
| ArrayAccess.DissocIsFilter | tests/ArrayDissocTest.php:31-39 | removing keys is filtering the pairs on their key, so the pairs that remain keep their keys and their input order |
| ArrayAccess.DissocSnoc | tests/ArrayDissocTest.php:31-39 | removing keys from an array grown by one pair removes them from the array and keeps the new pair unless its key is removed |
| ArrayAccess.DissocOrder | tests/ArrayDissocTest.php:31-39 | pair j of the result is the input pair at the j-th kept position; kept positions strictly increase and are exactly those whose key is not removed |
| ArrayAccess.DissocGet | tests/ArrayDissocTest.php:21-49 | a removed key is absent from the result, and every other key reads as in the input |
| ArrayAccess.DissocIsMap | tests/ArrayDissocTest.php:31-39 | removing keys from a real array leaves a real array |
| ArrayAccess.DissocMissing | tests/ArrayDissocTest.php:51-59 | keys that are not present are ignored and the result equals the input |
| ArrayAccess.DissocTwice | tests/ArrayDissocTest.php:41-49 | removing two key lists one after the other is removing them at once |
| ArrayAccess.DissocExamples | tests/ArrayDissocTest.php:21-49 | ['a'=>1,'b'=>2,'c'=>3] without 'a','c' is ['b'=>2]; [10=>'x',20=>'y',30=>'z'] without 20 is [10=>'x',30=>'z'] |
| ArrayAccess.ArrayNth | tests/ArrayNthTest.php:22-77 | a value is found exactly for positions -n..n-1; position k >= 0 reads the k-th value in iteration order and -k the k-th from the end |
| ArrayAccess.NthNegative | tests/ArrayNthTest.php:68-77 | a negative position counts from the end, so -1 is the last value |
| ArrayAccess.NthIgnoresKeys | tests/ArrayNthTest.php:34-46 | only the order of the values matters, not the keys |
| ArrayAccess.NthOfList | tests/ArrayNthTest.php:22-32 | on a list, position n is the value under key n |
| ArrayAccess.NthExamples | tests/ArrayNthTest.php:22-77 | [10,20,30] gives 20 at 1, 30 at -1 and null at 99; ['a'=>10,'b'=>20,'c'=>30] gives 30 at 2; [] gives null |
| PhpArray.PutShape | tests/ArrayFlattenTest.php:110-127 | assigning an existing key keeps the length and every key in place; a new key goes at the end |
| PhpArray.PutGet | tests/ArrayFlattenTest.php:110-127 | after assignment the key reads the new value and every other key reads as before |
| PhpArray.PutIsMap | tests/ArrayFlattenTest.php:110-127 | assignment keeps every key unique |
| PhpArray.CollectSpec | tests/IterableFlattenTest.php:22-38 | collecting yielded pairs gives each key once, in first-seen order |
| PhpArray.CollectGet | tests/IterableFlattenTest.php:22-38 | each collected key holds the value of its last occurrence |
| PhpArray.CollectOfMap | tests/IterableChunkTest.php:68-92 | collecting pairs with distinct keys changes nothing |
| PhpArray.PiecesSpec | tests/ArrayChunkTest.php:21-33 | the pieces are nonempty, concatenate to the input, and all but the last have exactly size elements |
| PhpArray.PiecesAt | tests/ArrayChunkTest.php:93-111 | piece i is the run starting at i*size |
| PhpArray.RenumberKeys | tests/ArrayFlattenTest.php:37-49 | renumbering keeps string keys and gives int keys consecutive numbers in order |
| PhpArray.RenumberValues | tests/ArrayFlattenTest.php:37-49 | renumbering keeps every value in place |

## Left out

- Explode: the limit argument is not modelled. tests/ExplodeTest.php:44-64 passes a limit, but the factory at src/pipe.php:55-59 declares only the delimiter. The code is followed here, so explode always splits at every occurrence.
- ArrayAccess.ArrayNth: the tests do not fix a negative position beyond the start (say -4 on three values). The model answers null there, as it does past the end.
- Generators are finite sequences of pairs behind a cursor (`Lazy.Generator`); an infinite one exists only as `iterate` and the ticker (`Iterate.Iteration`). Taking from an infinite source other than these is not modelled.
- Lazy.Take, Lazy.Nth, Lazy.First, Lazy.All, Lazy.Any, Lazy.Filter, Lazy.Map, Lazy.Reduce: the source must sit on its first element, whether or not its body has run. A generator moved past its first `yield` makes PHP's rewind throw; that exception is not modelled.
- Laziness before iteration (no callback call when the stage is built) holds because factories are pure values; call counts are stated for the iteration only.
- Lazy.All: the predicate is handed the value only; the key argument of PHP's callback is not passed.
- Lazy.Any: the same as Lazy.All.
- Flatten.FlattenTake: the no-over-read of `iterable_flatten` plus `take(12)` is stated as the number of outer elements pulled; the failing map callback that the test uses to detect an extra pull is not modelled.
- The input arrays are Dafny values, so "the input is unchanged" (dissoc, nth, map_recursive, flatten, reduce_until, uasort) holds by construction and has no lemma.
- Regular-expression wrappers (preg_match, preg_match_all, preg_replace) depend on the PCRE engine.
- PHP comparison modes (sort and rsort flags, array_unique, loose `==`), floats (increment, array_sum), named-argument dispatch in apply, and engine arity and type errors (ArgumentCountError, a non-int array_nth index) are not modelled.
- The callback-only combinators (when, unless, if_else, not, value, tap, equals) and collect's framework role are not modelled beyond `Collect`.
- str_replace on a string subject is modelled with byte strings; case-insensitive replacement and the replacement count are not modelled.
- Zip.ZipMap: stated for the padded, renumbered rows of any number of arrays. With exactly one input PHP's array_map would keep that array's own keys; the tests do not fix this case.
- zip_map's callback takes the row as one sequence of optional values, instead of as separate arguments.
