# External merge sort and the prime-number job of the MapReduce library

This project models two pieces of sequential logic from the MapReduce library in Dafny and proves properties about them.

The first piece is the external merge sort behind the library's shuffle, `mergesort.hpp`:

- `merge_sort` reads a `'\r'`-delimited input file in chunks of at most `max_lines` lines.
- It counts the non-blank lines of each chunk in an ordered `std::map`.
- It flushes each chunk as one sorted run file.
- A single run is renamed onto the output file. Several runs are merged into it by `do_file_merge`, a k-way merge.
- A `temporary_file_manager` deletes every run file it still owns when the sort returns or throws. `delete_file` swallows every deletion error.

The second piece is the prime-number example job, `prime.cpp`:

- `is_prime` is the prime test.
- `number_source` hands out keys (`setup_key`) and work units (`get_data`).
- `map_task` emits `(is_prime(x), x)` for each `x` of a work unit.
- `reduce_task` keeps the values of the key `true`.

Modules, one concept each:

| module | file | what it holds |
|---|---|---|
| `Wrappers` | wrappers.dfy | `Option` |
| `LexOrder` | lexorder.dfy | the `std::string` order on records and lines |
| `Lines` | lines.dfy | `getline(…, '\r')`, reading a whole file, writing lines |
| `Chunking` | chunking.dfy | how the input is cut into chunks |
| `CountMap` | countmap.dfy | the per-chunk `std::map` and the run it flushes |
| `TempFiles` | tempfiles.dfy | the disk, `delete_file`, the manager's cleanup, `rename` |
| `Runs` | runs.dfy | the chunk loop that writes the run files |
| `KWayMerge` | kwaymerge.dfy | the merge loop of `do_file_merge` |
| `MergeSort` | mergesort.dfy | `do_file_merge`, `merge_sort` and the end-to-end theorems |
| `CheckedMerge` | checkedmerge.dfy | `merge_sort` with the merge leaving out empty runs, and its theorem |
| `PrimeCalculator` | prime.dfy | `is_prime`, `number_source`, `map_task`, `reduce_task` |

## How the model works

- **Records.** A record is a `std::string`. Parsing and printing a record are both the identity. The record order is the lexicographic order of `std::string`, and the count map and the merge both use it. Two records the map cannot tell apart are equal (`LexOrder.EquivalentIsEqual`), so "the first-inserted representative" is the record itself.
- **Files.** A file is its text, a `seq<char>`. A disk maps each existing path to its content.
- **Effects outside the sort are parameters:**
  - `temp(k)` is the name the k-th call to `get_temporary_filename` returns. The names are distinct, not empty, not on disk, and neither the input nor the output.
  - `stuck` is the set of paths whose removal throws.
  - `fault` is one stream failure. It is either the failed-stream check before a given read of a chunk (`:180`) or the check before a given map entry is written (`:199`).
- **The chunk loop.** `Runs.PassOf` says what one pass does with its chunk under the fault: it flushes the whole run, or a read throws, or a write throws part-way through. `Runs.Loop` runs the passes in order and stops at the first that throws. `Runs.WriteRuns` is that loop over the input's chunks.
- **Result.** `MergeSort.MergeSort` returns the disk after the manager's cleanup and the error thrown, if any.

### Where the code differs from what a sort is expected to do

- **Empty runs and blank records.** A sort is expected to output the input's non-blank records in order. For `"5\r3\r3\r1\r"` with `max_lines` 2 that is `"1\r3\r3\r5\r"`, from two runs. The code makes three runs:
  - The fifth `getline` returns `""` and sets end of file in a third pass of the outer loop, which flushes an empty run.
  - `do_file_merge` does not test end of file after a run file's first read, so that empty run contributes one blank line.
  - The output therefore has one blank record more than expected. Under the model's selection by content it is `"\r1\r3\r3\r5\r"`. Under the code's selection by stream pointer, the records can come out in another order.

  `MergeSort.MergeSortSorts` states the exact number of blank records. `MergeSort.ExactChunksAddBlank` shows that every input whose records fill whole chunks gains one. `CheckedMerge` leaves empty runs out of the merge and proves the expected result (see Findings).
- **Output write errors.** `do_file_merge` never checks the output stream, so it returns true regardless. `merge_sort` ignores that result and returns true (mergesort.hpp:217) whenever it does not throw.
- **Merge selection.** The model does not follow the code here. `std::min_element` over `pair<shared_ptr<ifstream>, string>` compares the stream pointers first. The model takes the first buffered line that no other buffered line precedes, which is what the merge is meant to do.

## Model

| member | source | states |
|---|---|---|
| LexOrder.EquivalentIsEqual | include/detail/mergesort.hpp:144-151 | two records the map's comparator cannot order are the same record |
| LexOrder.LessTransitive | include/detail/mergesort.hpp:147-150 | the record order is transitive |
| LexOrder.LessTotal | include/detail/mergesort.hpp:147-150 | any two different records are ordered one way or the other |
| LexOrder.SortedUnique | include/detail/mergesort.hpp:197-203 | two sorted sequences with the same multiset of lines are equal |
| Lines.Reads | include/detail/mergesort.hpp:184 | reading a file line by line makes at least one read, and no line read holds the delimiter |
| Lines.GetLine | include/detail/mergesort.hpp:184 | `getline` returns the text up to the first `'\r'`, consumes the delimiter, and sets end of file exactly when no delimiter is left |
| Lines.ReadsOfSerialised | include/detail/mergesort.hpp:203 | reading back lines written with `"\r"` after each gives those lines, then one empty read that sets end of file |
| Lines.RecordsOfSerialised | include/detail/mergesort.hpp:203 | the records of a written file are exactly the lines written |
| Lines.SerialisedRecords | include/detail/mergesort.hpp:184 | any file is its records, each followed by `'\r'`, then the final read |
| Lines.NonBlankMultiset | include/detail/mergesort.hpp:185 | skipping blank lines removes every empty line and nothing else |
| Chunking.Chunks | include/detail/mergesort.hpp:173-192 | every chunk has between 1 and `max_lines` reads, all but the last exactly `max_lines`, together they are the input's reads in order, and their number is the least that holds them |
| CountMap.Insert | include/detail/mergesort.hpp:190 | inserting keeps the map strictly ordered, adds the record to the keys, and raises its count by one and no other count |
| CountMap.Fill | include/detail/mergesort.hpp:178-191 | after a chunk, each record's count is its number of non-blank occurrences in the chunk |
| CountMap.Expand | include/detail/mergesort.hpp:197-203 | every line written to a run is a record of the map |
| CountMap.ExpandSorted | include/detail/mergesort.hpp:197-203 | writing a valid map in order, each record `count` times, gives a sorted run |
| CountMap.ExpandCounts | include/detail/mergesort.hpp:202-203 | each record occurs in the run exactly as often as the map counted it |
| CountMap.RunLinesSpec | include/detail/mergesort.hpp:176-203 | a chunk's run is sorted, has no blank line, and is a permutation of the chunk's non-blank lines |
| Runs.PartFile | include/detail/mergesort.hpp:197-203 | a run file whose writing stops at the check before an entry holds a prefix of the full run, and all of it when no entry is left |
| Runs.Loop | include/detail/mergesort.hpp:173-205 | the outer loop registers at most one path per pass, the k-th pass using `temp(k)` |
| Runs.LoopOutcome | include/detail/mergesort.hpp:178-200 | the loop throws exactly when a pass throws, with that pass's message, after registering the paths of the passes before it (and its own for a write); otherwise there is one path per pass |
| Runs.LoopDisk | include/detail/mergesort.hpp:194-196 | the loop adds exactly the registered paths to the disk and changes no other file |
| Runs.LoopContents | include/detail/mergesort.hpp:194-204 | when no pass throws, the n-th registered path holds what the n-th pass flushed |
| Runs.WriteRuns | include/detail/mergesort.hpp:173-205 | over the input's chunks, the loop registers at most one path per chunk, the n-th being `temp(n)` |
| Runs.PassesStop | include/detail/mergesort.hpp:178-200 | the only pass that can throw is the one the fault names, it throws exactly when the fault is reached, and a read fault throws from the read check, a write fault from the write check |
| Runs.WriteRunsOutcome | include/detail/mergesort.hpp:178-200 | the loop throws exactly when the fault is reached, with the read or write message, after registering the paths of the passes before it (and its own for a write fault); otherwise there is one path per chunk |
| Runs.WriteRunsDisk | include/detail/mergesort.hpp:194-196 | the loop adds exactly the registered paths to the disk and changes no other file |
| Runs.WriteRunsComplete | include/detail/mergesort.hpp:173-205 | without a fault, every chunk has its path, holding its run |
| TempFiles.DeleteFile | include/detail/mergesort.hpp:92-113 | the empty path succeeds without touching the disk; otherwise the path is removed unless its removal throws, the result says whether it existed and was removed, and nothing else changes |
| TempFiles.Cleanup | include/detail/mergesort.hpp:124-136 | every owned path is removed except those whose removal throws; no other path changes |
| TempFiles.Rename | include/detail/mergesort.hpp:211 | the target holds what the source held, the source is gone, and nothing else changes |
| KWayMerge.Open | include/detail/mergesort.hpp:61-71 | an opened run buffers its first read, whatever it is, and keeps the rest |
| KWayMerge.Refill | include/detail/mergesort.hpp:83-85 | a refill drops the file when it has nothing left to contribute, else moves to its next line |
| KWayMerge.MinIndex | include/detail/mergesort.hpp:77-80 | the chosen file's line precedes or equals every buffered line, and every earlier file's line comes strictly after it |
| KWayMerge.Advance | include/detail/mergesort.hpp:81-85 | one step removes exactly the written line from what the files still contribute and keeps every file sorted |
| KWayMerge.MergeLines | include/detail/mergesort.hpp:74-86 | the merge writes exactly the lines the open files contribute, as a multiset |
| KWayMerge.MergeLinesSorted | include/detail/mergesort.hpp:74-86 | when every file is sorted, the merge writes its lines in order |
| KWayMerge.OpenSerialised | include/detail/mergesort.hpp:69-71 | a run file contributes its lines, and an empty one contributes one blank line; its first read sets end of file exactly when it is empty |
| KWayMerge.Live | include/detail/mergesort.hpp:69-71 | the corrected open loop keeps exactly the files whose first read did not set end of file, and keeps them all when there is no such file |
| KWayMerge.LiveOne | include/detail/mergesort.hpp:69-71 | a single file is kept exactly when its first read did not set end of file |
| KWayMerge.LiveAppend | include/detail/mergesort.hpp:69-71 | the corrected open loop decides file by file: the files kept from two lists of files are those kept from the first, then those kept from the second, in order |
| KWayMerge.LiveSorted | include/detail/mergesort.hpp:69-71 | leaving files out keeps the others sorted |
| MergeSort.OpenAll | include/detail/mergesort.hpp:59-72 | the open loop opens files in order and stops at the first that does not exist |
| MergeSort.DoFileMerge | include/detail/mergesort.hpp:43-90 | the merge completes exactly when every run exists; it then adds or replaces only the output |
| MergeSort.MergeOfRuns | include/detail/mergesort.hpp:43-90 | merging run files never fails; the output is exactly its records, each followed by `'\r'`; the records are sorted and are what the runs contribute |
| MergeSort.Finish | include/detail/mergesort.hpp:206-217 | after a throw the error stands and the output is untouched; on success the output exists; only the output is created; an owned run survives only when its removal throws; other files are unchanged |
| MergeSort.Abandon | include/detail/mergesort.hpp:124-136 | after a throw, the manager removes each owned run unless its removal throws, and every other file, the output included, stays as it was |
| MergeSort.Promote | include/detail/mergesort.hpp:208-213 | a single run replaces the output: the output holds the run's text, the run's path is gone, and no other file changes |
| MergeSort.Merge | include/detail/mergesort.hpp:214-215 | after the merge, the output keeps what the merge wrote, the owned runs are removed unless their removal throws, and other files are unchanged |
| MergeSort.MergeSort | include/detail/mergesort.hpp:165-171 | a missing input throws "Unable to open file" and leaves the disk as it was |
| MergeSort.MergedCounts | include/detail/mergesort.hpp:69-86 | the runs contribute every non-blank input line as often as the input has it, plus one blank line per empty run |
| MergeSort.FinishRenamed | include/detail/mergesort.hpp:208-213 | a single run becomes the output |
| MergeSort.FinishMerged | include/detail/mergesort.hpp:214-215 | several runs are merged into an output that is exactly its records, each followed by `'\r'`, sorted and holding what the runs contribute |
| MergeSort.SingleRun | include/detail/mergesort.hpp:208-213 | an input of at most `max_lines` reads yields its run as the output |
| MergeSort.SeveralRuns | include/detail/mergesort.hpp:214-215 | a longer input yields an output that is exactly its records, each followed by `'\r'`, sorted and holding what all runs contribute |
| MergeSort.MergeSortSorts | include/detail/mergesort.hpp:154-218 | on success the output is exactly its records, each followed by `'\r'`; the records are sorted, each non-blank input line occurs exactly as often as in the input, and there is one blank record per empty run when runs were merged, none otherwise |
| MergeSort.MergeSortOutcome | include/detail/mergesort.hpp:165-200 | with the input present, the sort throws exactly when the fault is reached, with its message; the merge never fails |
| MergeSort.MergeSortTidy | include/detail/mergesort.hpp:161-217 | afterwards every other file is unchanged, the only new files are the output and temporary runs whose removal threw, and a failed sort leaves the output as it was |
| MergeSort.NoStrayFiles | include/detail/mergesort.hpp:161-217 | when run files can be removed, a failed sort leaves the disk as it was and a successful one changes only the output |
| MergeSort.EmptyInput | include/detail/mergesort.hpp:173-213 | an empty input sorts to an empty output |
| MergeSort.SortedInputUnchanged | include/detail/mergesort.hpp:173-215 | a sorted, blank-free, `'\r'`-terminated input is reproduced when it fits one chunk or every chunk has a non-blank line |
| MergeSort.ChunkSizeIrrelevant | include/detail/mergesort.hpp:173-215 | the non-blank output records are the same for every `max_lines` |
| MergeSort.TrailingEmptyChunk | include/detail/mergesort.hpp:173-184 | when the reads before the final empty one fill whole chunks, the final read is a chunk of its own |
| MergeSort.ExactChunksAddBlank | include/detail/mergesort.hpp:173-215 | such an input's output holds a blank record |
| CheckedMerge.DoFileMergeChecked | include/detail/mergesort.hpp:43-90 | the corrected merge completes exactly when every run exists; it then adds or replaces only the output |
| CheckedMerge.FinishChecked | include/detail/mergesort.hpp:206-217 | after a throw or with a single run it ends as `merge_sort` does; on success the output exists; only the output is created; an owned run survives only when its removal throws; other files are unchanged |
| CheckedMerge.MergeSortChecked | include/detail/mergesort.hpp:165-205 | a missing input throws "Unable to open file"; when the chunk loop throws, the corrected sort ends exactly as `merge_sort` |
| CheckedMerge.AllRunLinesCounts | include/detail/mergesort.hpp:176-203 | the runs together hold exactly the non-blank lines of the chunks |
| CheckedMerge.PendingsOfLiveRuns | include/detail/mergesort.hpp:59-72 | with the empty runs left out, the files contribute exactly their runs' lines, run after run |
| CheckedMerge.MergeOfRunsChecked | include/detail/mergesort.hpp:43-90 | the corrected merge of run files never fails; the output is exactly its records, each followed by `'\r'`; the records are sorted and are exactly the runs' lines |
| CheckedMerge.FinishMergedChecked | include/detail/mergesort.hpp:214-215 | several runs are merged by the corrected merge into a sorted output holding exactly the runs' lines |
| CheckedMerge.OneChunkChecked | include/detail/mergesort.hpp:208-213 | with one chunk, the corrected sort's output is its sorted records, which are exactly the input's non-blank lines |
| CheckedMerge.MergeSortCheckedSorts | include/detail/mergesort.hpp:154-218 | on success the corrected sort's output is exactly its records, each followed by `'\r'`; they are sorted and are the input's non-blank lines, each as often as in the input, for every `max_lines` |
| CheckedMerge.NoBlankRuns | include/detail/mergesort.hpp:173-203 | no run is empty exactly when every chunk has a non-blank line |
| CheckedMerge.FinishAgrees | include/detail/mergesort.hpp:43-90 | when no run is empty, the corrected merge ends exactly as `do_file_merge` does |
| CheckedMerge.CheckedAgrees | include/detail/mergesort.hpp:154-218 | when every chunk has a non-blank line, the corrected sort ends exactly as `merge_sort` does |
| PrimeCalculator.Isqrt | examples/prime/prime.cpp:31 | the square root is the largest number whose square is at most `n` |
| PrimeCalculator.TrialFinds | examples/prime/prime.cpp:33-37 | the loop finds a divisor exactly when some `i` in its arithmetic progression below the bound divides `n` |
| PrimeCalculator.IsPrime | examples/prime/prime.cpp:23-43 | negatives are reported prime, 0 and 1 are not, 2 is, even numbers above 2 are not, and an odd `n > 2` is unless an odd `i` with `3 <= i < Isqrt(n)` divides it |
| PrimeCalculator.IsPrimeKeepsPrimes | examples/prime/prime.cpp:23-43 | every prime is reported prime |
| PrimeCalculator.NineReportedPrime | examples/prime/prime.cpp:31-36 | 9 is reported prime though it is not |
| PrimeCalculator.FifteenReportedPrime | examples/prime/prime.cpp:31-36 | 15 is reported prime though it is not |
| PrimeCalculator.TwentyFiveReportedPrime | examples/prime/prime.cpp:31-36 | 25 is reported prime though it is not |
| PrimeCalculator.IsPrimeIntended | examples/prime/prime.cpp:23-43 | with the bound `i <= Isqrt(n)`, an odd `n > 2` is reported prime unless an odd `i` with `3 <= i <= Isqrt(n)` divides it |
| PrimeCalculator.IsPrimeIntendedExact | examples/prime/prime.cpp:23-43 | with the corrected bound, a non-negative number is reported prime exactly when it is prime |
| PrimeCalculator.SetupKey | examples/prime/prime.cpp:54-58 | each call hands out the counter as the key, advances it by one, changes nothing else, and accepts the key exactly when `key * step <= last` |
| PrimeCalculator.KeysFrom | examples/prime/prime.cpp:54-58 | calling `setup_key` until it refuses yields the consecutive keys from the counter up to `last / step` |
| PrimeCalculator.KeysOfNewSource | examples/prime/prime.cpp:49-58 | a new source accepts keys `0..last / step`, that is `last / step + 1` keys when `last >= 0` and none otherwise |
| PrimeCalculator.TenWorkUnits | examples/prime/prime.cpp:54-58 | with `last = 999` and `step = 100` exactly the ten keys 0..9 are accepted |
| PrimeCalculator.GetData | examples/prime/prime.cpp:60-69 | the unit of `key` starts at `first + key * step` and ends at the earlier of `first + key * step + step - 1` and `last` |
| PrimeCalculator.WorkUnitsTile | examples/prime/prime.cpp:56-65 | for `first = 0`, each accepted unit is non-empty, the first starts at 0, each next one starts right after its predecessor ends, and the last ends at `last` |
| PrimeCalculator.WorkUnitsCover | examples/prime/prime.cpp:54-69 | for `first = 0`, the accepted units together list `0..last`, each number once, in order |
| PrimeCalculator.MapTask | examples/prime/prime.cpp:81-85 | one pair `(classify(x), x)` for each `x` of the unit, ascending |
| PrimeCalculator.MapAllClassifies | examples/prime/prime.cpp:81-85 | mapping the units one after the other classifies exactly the numbers they cover, in order |
| PrimeCalculator.ReduceTask | examples/prime/prime.cpp:91-95 | the key `true` re-emits each value with `true`, in order; the key `false` emits nothing |
| PrimeCalculator.JobReports | examples/prime/prime.cpp:54-95 | the job reports `(true, x)` exactly for the `x` in `0..last` the classifier accepts |
| PrimeCalculator.JobFindsPrimes | examples/prime/prime.cpp:23-95 | with the corrected test, the job reports exactly the primes up to `last` |
| PrimeCalculator.JobAsWritten | examples/prime/prime.cpp:23-95 | as written, the job reports every prime up to `last`, and also 9 |

## Findings

| source | as written | input that shows it | evidently intended | confidence | as-written member | corrected member |
|---|---|---|---|---|---|---|
| include/detail/mergesort.hpp:69-71 | the first `getline` of each run file is not checked for end of file, so an empty run file buffers one blank line, which the merge writes | `"5\r3\r3\r1\r"` with `max_lines` 2: the final empty read forms a third chunk with an empty run, and the output gains a blank record | keep a run file in the merge only when its first read does not set end of file | not executed | MergeSort.ExactChunksAddBlank | CheckedMerge.MergeSortCheckedSorts |
| examples/prime/prime.cpp:33 | the trial-division loop runs while `i < sqrt_number`, so a divisor equal to the square root is never tried | 9: `sqrt_number` is 3, the loop never runs, and 9 is reported prime (also 15, 25, 35, 49) | `i <= sqrt_number` | not executed | PrimeCalculator.NineReportedPrime | PrimeCalculator.IsPrimeIntendedExact |

`MergeSort` models the merge as written. `CheckedMerge.MergeSortChecked` is `merge_sort` with the corrected merge. `CheckedMerge.MergeSortCheckedSorts` proves that its output is exactly the input's non-blank records, sorted, for every `max_lines`. `CheckedMerge.CheckedAgrees` shows that the correction changes nothing when no run is empty.

`PrimeCalculator.IsPrime` models the loop as written. `PrimeCalculator.IsPrimeIntended` uses the corrected bound, and the job theorem `PrimeCalculator.JobFindsPrimes` is stated with it. `map_task` takes its classifier as a parameter, so `PrimeCalculator.JobAsWritten` states the job with the test as written.

## Left out

- **Real file and stream I/O.** Streams, their state bits, and `boost::filesystem` are replaced by the disk map, `GetLine` and `Serialise`. A stream failure is the single `fault` parameter.
- **Temporary names.** `platform::get_temporary_filename` is not part of this model. Its names are the `temp` parameter.
- **Record parsing.** The record type of `merge_sort<Record>` is fixed to a string that `operator>>` and `operator<<` pass through unchanged. For `std::string`, `>>` skips leading whitespace and stops at the next whitespace character. A line of whitespace only becomes the record `""`, and it is counted (mergesort.hpp:188-190). Records are taken to contain no whitespace.
- **Merge selection by pointer.** The pointer-address part of the merge's `std::min_element` cannot be modelled. Selection is by line content.
- **Debug-only code.** This is the `_DEBUG` cap of ten merged files and the `DEBUG_TRACE_OUTPUT` tracing.
- **MergeSort.Finish: the `MergeIncomplete` branch is a stand-in.** When a run file does not open, the open loop of `do_file_merge` stops. `MergeSort.DoFileMerge` gives `None` for this case, and `MergeSort.Finish` then runs the manager's cleanup and reports `MergeIncomplete` with the output untouched. The source never does that. It would already have truncated the output (mergesort.hpp:50) and written the merge of the runs that did open. Its loop would then go round again and abort at `assert(++count == 1)` (:55) without running the manager's destructor, or, with assertions compiled out, go round forever. `MergeSort.MergeSortOutcome` proves that `merge_sort` never reaches this branch.
- **Rename failure.** `boost::filesystem::rename` is taken to succeed. The run path is on disk by construction. A rename can still fail for reasons the disk map does not represent: the output's directory is missing, the two paths are on different file systems, or permissions forbid it.
- **The default `max_lines`.** `merge_sort` defaults `max_lines` to 10000000 (mergesort.hpp:156). The model always takes `maxLines` as an argument, and every theorem holds for each value of at least 1, the default included.
- **The return value of `merge_sort`.** It returns true (mergesort.hpp:217) whenever it does not throw. The model returns the disk and the error instead, and `error == None` stands for that result.
- **MergeSort.MergeSort: requires `max_lines >= 1`.** With `max_lines` 0 the inner loop reads nothing, end of file is never reached, and the source loops forever.
- **MergeSort.MergeSortSorts: assumes every unchecked write succeeds.** Several writes are never followed by a stream check:
  - the output file's creation and every line written to it in `do_file_merge` (mergesort.hpp:50, :81);
  - a run file's creation when its chunk has no entries, since the check at :199 runs only inside the entry loop (:196);
  - the writes of the last map entry, which no later check looks at (:202-203).

  If one of these failed, the file would be short or missing and no exception would be thrown. The model writes the full text instead. `MergeSort.SingleRun`, `MergeSort.SeveralRuns`, `MergeSort.SortedInputUnchanged`, `MergeSort.ChunkSizeIrrelevant` and the `CheckedMerge` theorems rely on the same assumption.
- **MergeSort.MergeSortOutcome: assumes every unchecked write succeeds.** For the same writes, the model reports success where the source also reports nothing but leaves a short or missing file. The `fault` parameter covers only the checked reads (:180) and the checked writes (:199).
- **Integer widths.** `long` and `unsigned` overflow are not modelled: integers are unbounded.
- **Floating-point `sqrt` in `is_prime`.** It is replaced by the exact floor square root `Isqrt`.
- **PrimeCalculator.KeysOfNewSource: requires `step >= 1`.** `main` computes the step as `prime_limit / reduce_tasks`. With a step of 0 (or a negative one), `setup_key` accepts every key and the job never ends.
- **PrimeCalculator.WorkUnitsCover: stated for `first = 0` only.** That is the value `main` uses. `setup_key`'s test ignores `first`, so for other values the units do not line up with `first..last`.
- **`main` (prime.cpp:107-143).** Argument parsing, timing and printing are not modelled.
- **Job and scheduling machinery.** `mapreduce::job`, the schedule policies and the shuffle that groups intermediate pairs by key are not part of this model. `PrimeCalculator.JobResults` feeds the reduce task for `true` with the values of key `true` in emission order, as a stand-in for the order the shuffle delivers them in. `PrimeCalculator.JobReports`, `PrimeCalculator.JobFindsPrimes` and `PrimeCalculator.JobAsWritten` state membership only, so that order does not affect them.
- **CountMap.ChunkMap and CountMap.RunLines.** They carry no postcondition of their own. Their properties are the lemmas `CountMap.ChunkMapCounts` and `CountMap.RunLinesSpec`.
- **Lines.Serialise, Runs.RunFile and PrimeCalculator.NewSource.** They carry no postcondition of their own. Their properties are these lemmas:
  - `Lines.Serialise`: `Lines.ReadsOfSerialised`, `Lines.RecordsOfSerialised` and `Lines.SerialisedRecords`;
  - `Runs.RunFile`: `KWayMerge.OpenSerialised`, `Runs.WriteRunsComplete`, `MergeSort.MergeOfRuns` and `MergeSort.SingleRun`;
  - `PrimeCalculator.NewSource`: `PrimeCalculator.KeysOfNewSource` and `PrimeCalculator.WorkUnitsCover`.
- **Runs.PassOf and Runs.Passes.** They carry no postcondition of their own. Their properties are the lemmas `Runs.PassesStop` and `Runs.WriteRunsComplete`.
