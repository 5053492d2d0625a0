/**
  `merge_sort` with the first read of each run checked.

  `do_file_merge` keeps every run file it opens, even one whose first read
  already sets end of file. An empty run therefore adds one blank record to
  the output. The input then gains a blank record whenever some chunk has no
  non-blank line, for instance when its reads fill whole chunks and the
  final, empty read forms a chunk of its own.

  The corrected merge leaves such a file out of the merge, so every record the
  merge writes is a line of some run. Everything else is `merge_sort` as
  modelled in `MergeSort`.
 */
module CheckedMerge {
  import opened Wrappers
  import opened LexOrder
  import opened Lines
  import opened CountMap
  import opened Chunking
  import opened KWayMerge
  import opened TempFiles
  import opened Runs
  import opened MergeSort

  /** `do_file_merge` keeping only the files whose first read found a line. */
  function DoFileMergeChecked(disk: Disk, paths: seq<Path>, output: Path): (r: Option<Disk>)
    ensures r.Some? <==> forall n :: 0 <= n < |paths| ==> paths[n] in disk
    ensures r.Some? ==> forall q :: q in r.value <==> q in disk || q == output
    ensures r.Some? ==> forall q :: q in disk && q != output ==> r.value[q] == disk[q]
  {
    var cs := OpenAll(disk, paths);
    if |cs| == |paths| then Some(disk[output := Serialise(MergeLines(Live(cs)))]) else None
  }

  /** The end of `merge_sort` with the corrected merge: a throw and a single
      run end as before. */
  function FinishChecked(runs: RunPhase, output: Path, stuck: set<Path>): (c: Completion)
    requires Registered(runs, output)
    ensures runs.error.Some? || |runs.owned| == 1 ==> c == Finish(runs, output, stuck)
    ensures c.error.None? ==> output in c.disk
    ensures forall q :: q in c.disk ==> q in runs.disk || q == output
    ensures forall q :: q in runs.owned && q in c.disk ==> q in stuck
    ensures forall q :: q in runs.disk && q !in runs.owned && q != output ==> q in c.disk && c.disk[q] == runs.disk[q]
  {
    if runs.error.Some? || |runs.owned| == 1 then
      Finish(runs, output, stuck)
    else
      match DoFileMergeChecked(runs.disk, runs.owned, output)
      case Some(merged) => Completion(Merge(runs, merged, output, stuck), None)
      case None => Completion(Cleanup(runs.disk, runs.owned, stuck), Some(MergeIncomplete))
  }

  /** `merge_sort` with the corrected merge. */
  function MergeSortChecked(disk: Disk, input: Path, output: Path, maxLines: nat,
                            temp: nat -> Path, stuck: set<Path>, fault: Fault): (c: Completion)
    requires maxLines >= 1
    requires FreshNames(temp, disk, input, output)
    ensures input !in disk ==> c == Completion(disk, Some(CannotOpenInput))
    ensures input in disk && WriteRuns(disk, Chunks(Reads(disk[input]), maxLines), temp, fault).error.Some?
            ==> c == MergeSort.MergeSort(disk, input, output, maxLines, temp, stuck, fault)
  {
    if input !in disk then
      Completion(disk, Some(CannotOpenInput))
    else
      var chunks := Chunks(Reads(disk[input]), maxLines);
      RunsRegistered(disk, chunks, input, output, temp, fault);
      FinishChecked(WriteRuns(disk, chunks, temp, fault), output, stuck)
  }

  /** The lines of every run, run after run. */
  function AllRunLines(chunks: seq<seq<string>>): seq<string>
  {
    if |chunks| == 0 then [] else RunLines(chunks[0]) + AllRunLines(chunks[1..])
  }

  /** The runs hold together exactly the non-blank lines of the chunks. */
  lemma {:induction false} AllRunLinesCounts(chunks: seq<seq<string>>)
    ensures multiset(AllRunLines(chunks)) == multiset(NonBlank(Flatten(chunks)))
  {
    if |chunks| > 0 {
      AllRunLinesCounts(chunks[1..]);
      RunLinesSpec(chunks[0]);
      NonBlankAppend(chunks[0], Flatten(chunks[1..]));
    }
  }

  lemma {:induction false} AllRunLinesNoCR(chunks: seq<seq<string>>)
    requires forall k :: 0 <= k < |chunks| ==> NoCR(chunks[k])
    ensures NoCR(AllRunLines(chunks))
  {
    if |chunks| > 0 {
      AllRunLinesNoCR(chunks[1..]);
      RunNoCR(chunks[0]);
      NoCRAppend(RunLines(chunks[0]), AllRunLines(chunks[1..]));
    }
  }

  /** Leaving out the run files whose first read set end of file, the others
      contribute exactly their runs' lines. */
  lemma {:induction false} PendingsOfLiveRuns(cs: seq<Cursor>, chunks: seq<seq<string>>)
    requires |cs| == |chunks|
    requires forall n :: 0 <= n < |cs| ==> Pending(cs[n]) == Contribution(RunLines(chunks[n]))
    requires forall n :: 0 <= n < |cs| ==> (Exhausted(cs[n]) <==> RunLines(chunks[n]) == [])
    ensures Pendings(Live(cs)) == AllRunLines(chunks)
  {
    if |cs| > 0 {
      LiveRunsTail(cs, chunks);
      PendingsOfLiveRuns(cs[1..], chunks[1..]);
      LiveRunStep(cs, RunLines(chunks[0]), AllRunLines(chunks[1..]));
    }
  }

  /** What `PendingsOfLiveRuns` requires of all files holds of all but the first. */
  lemma LiveRunsTail(cs: seq<Cursor>, chunks: seq<seq<string>>)
    requires |cs| == |chunks| > 0
    requires forall n :: 0 <= n < |cs| ==> Pending(cs[n]) == Contribution(RunLines(chunks[n]))
    requires forall n :: 0 <= n < |cs| ==> (Exhausted(cs[n]) <==> RunLines(chunks[n]) == [])
    ensures forall n :: 0 <= n < |cs| - 1 ==> Pending(cs[1..][n]) == Contribution(RunLines(chunks[1..][n]))
    ensures forall n :: 0 <= n < |cs| - 1 ==> (Exhausted(cs[1..][n]) <==> RunLines(chunks[1..][n]) == [])
  {
    forall n | 0 <= n < |cs| - 1
      ensures Pending(cs[1..][n]) == Contribution(RunLines(chunks[1..][n]))
      ensures Exhausted(cs[1..][n]) <==> RunLines(chunks[1..][n]) == []
    {
      assert cs[1..][n] == cs[n + 1] && chunks[1..][n] == chunks[n + 1];
    }
  }

  /** One step of `PendingsOfLiveRuns`: a first file holding `run` in front
      of files whose live ones hold `rest`. */
  lemma LiveRunStep(cs: seq<Cursor>, run: seq<string>, rest: seq<string>)
    requires |cs| > 0
    requires Pending(cs[0]) == Contribution(run)
    requires Exhausted(cs[0]) <==> run == []
    requires Pendings(Live(cs[1..])) == rest
    ensures Pendings(Live(cs)) == run + rest
  {
    assert cs == [cs[0]] + cs[1..];
    PendingsLiveCons(cs[0], cs[1..]);
  }

  /** Merging run files, each holding the run of its chunk, with the
      corrected merge: it does not fail, and the output holds, in order,
      exactly the lines of the runs. */
  lemma MergeOfRunsChecked(disk: Disk, paths: seq<Path>, chunks: seq<seq<string>>, output: Path)
    requires |paths| == |chunks|
    requires forall n :: 0 <= n < |paths| ==> paths[n] in disk && disk[paths[n]] == RunFile(chunks[n])
    requires forall k :: 0 <= k < |chunks| ==> NoCR(chunks[k])
    ensures DoFileMergeChecked(disk, paths, output).Some?
    ensures var out := DoFileMergeChecked(disk, paths, output).value[output];
            && out == Serialise(Records(out))
            && Sorted(Records(out))
            && multiset(Records(out)) == multiset(AllRunLines(chunks))
  {
    var cs := OpenAll(disk, paths);
    OpenedRuns(disk, paths, chunks);
    forall n | 0 <= n < |cs|
      ensures Pending(cs[n]) == Contribution(RunLines(chunks[n]))
      ensures Exhausted(cs[n]) <==> RunLines(chunks[n]) == []
    {
      RunNoCR(chunks[n]);
      OpenSerialised(RunLines(chunks[n]));
    }
    PendingsOfLiveRuns(cs, chunks);
    LiveSorted(cs);
    MergeLinesSorted(Live(cs));
    AllRunLinesNoCR(chunks);
    NoCRPermutation(MergeLines(Live(cs)), AllRunLines(chunks));
    RecordsOfSerialised(MergeLines(Live(cs)));
  }

  /** Several runs, each holding the run of its chunk, are merged into the
      output without error by the corrected merge. */
  lemma FinishMergedChecked(runs: RunPhase, chunks: seq<seq<string>>, output: Path, stuck: set<Path>)
    requires Registered(runs, output)
    requires runs.error.None? && |runs.owned| == |chunks| != 1
    requires forall n :: 0 <= n < |runs.owned| ==> runs.disk[runs.owned[n]] == RunFile(chunks[n])
    requires forall k :: 0 <= k < |chunks| ==> NoCR(chunks[k])
    ensures var c := FinishChecked(runs, output, stuck);
            && c.error.None?
            && output in c.disk
            && c.disk[output] == Serialise(Records(c.disk[output]))
            && Sorted(Records(c.disk[output]))
            && multiset(Records(c.disk[output])) == multiset(AllRunLines(chunks))
  {
    MergeOfRunsChecked(runs.disk, runs.owned, chunks, output);
    var merged := DoFileMergeChecked(runs.disk, runs.owned, output).value;
    assert FinishChecked(runs, output, stuck) == Completion(Merge(runs, merged, output, stuck), None);
  }

  /** On success the corrected sort's output is its records, each followed by
      the delimiter; they are sorted and are exactly the non-blank lines of
      the input, as often as the input has them, for every `max_lines`. */
  lemma MergeSortCheckedSorts(disk: Disk, input: Path, output: Path, maxLines: nat,
                              temp: nat -> Path, stuck: set<Path>, fault: Fault)
    requires maxLines >= 1
    requires FreshNames(temp, disk, input, output)
    requires input in disk
    requires MergeSortChecked(disk, input, output, maxLines, temp, stuck, fault).error.None?
    ensures var c := MergeSortChecked(disk, input, output, maxLines, temp, stuck, fault);
            && output in c.disk
            && c.disk[output] == Serialise(Records(c.disk[output]))
            && Sorted(Records(c.disk[output]))
            && multiset(Records(c.disk[output])) == multiset(NonBlank(Reads(disk[input])))
  {
    var lines := Reads(disk[input]);
    var chunks := Chunks(lines, maxLines);
    var runs := WriteRuns(disk, chunks, temp, fault);
    RunsRegistered(disk, chunks, input, output, temp, fault);
    assert MergeSortChecked(disk, input, output, maxLines, temp, stuck, fault) == FinishChecked(runs, output, stuck);
    WriteRunsComplete(disk, chunks, temp, fault);
    ChunksNoCR(lines, maxLines);
    if |chunks| == 1 {
      OneChunkChecked(disk, input, output, maxLines, temp, stuck, fault);
    } else {
      FinishMergedChecked(runs, chunks, output, stuck);
      AllRunLinesCounts(chunks);
    }
  }

  /** With one chunk the corrected sort renames that chunk's run onto the output. */
  lemma OneChunkChecked(disk: Disk, input: Path, output: Path, maxLines: nat,
                        temp: nat -> Path, stuck: set<Path>, fault: Fault)
    requires maxLines >= 1
    requires FreshNames(temp, disk, input, output)
    requires input in disk && |Chunks(Reads(disk[input]), maxLines)| == 1
    requires MergeSortChecked(disk, input, output, maxLines, temp, stuck, fault).error.None?
    ensures var c := MergeSortChecked(disk, input, output, maxLines, temp, stuck, fault);
            && output in c.disk
            && c.disk[output] == Serialise(Records(c.disk[output]))
            && Sorted(Records(c.disk[output]))
            && multiset(Records(c.disk[output])) == multiset(NonBlank(Reads(disk[input])))
  {
    var lines := Reads(disk[input]);
    var chunks := Chunks(lines, maxLines);
    assert chunks[0] == lines by {
      assert Flatten(chunks) == chunks[0] + Flatten(chunks[1..]);
    }
    var runs := WriteRuns(disk, chunks, temp, fault);
    RunsRegistered(disk, chunks, input, output, temp, fault);
    assert MergeSortChecked(disk, input, output, maxLines, temp, stuck, fault) == FinishChecked(runs, output, stuck);
    WriteRunsComplete(disk, chunks, temp, fault);
    FinishRenamed(runs, output, stuck);
    RunNoCR(lines);
    RecordsOfSerialised(RunLines(lines));
    RunLinesSpec(lines);
  }

  /** No chunk lacks a non-blank line exactly when no run is empty. */
  lemma {:induction false} NoBlankRuns(chunks: seq<seq<string>>)
    ensures BlankRuns(chunks) == 0 <==> forall k :: 0 <= k < |chunks| ==> NonBlank(chunks[k]) != []
  {
    if |chunks| > 0 {
      NoBlankRuns(chunks[1..]);
      assert forall k :: 1 <= k < |chunks| ==> chunks[1..][k - 1] == chunks[k];
    }
  }

  /** The run of a chunk is empty exactly when the chunk has no non-blank line. */
  lemma EmptyRun(chunk: seq<string>)
    ensures RunLines(chunk) == [] <==> NonBlank(chunk) == []
  {
    RunLinesSpec(chunk);
    assert |multiset(RunLines(chunk))| == |RunLines(chunk)|;
    assert |multiset(NonBlank(chunk))| == |NonBlank(chunk)|;
  }

  /** When no run is empty the correction changes nothing: the corrected
      sort ends exactly as `merge_sort` does. */
  lemma CheckedAgrees(disk: Disk, input: Path, output: Path, maxLines: nat,
                      temp: nat -> Path, stuck: set<Path>, fault: Fault)
    requires maxLines >= 1
    requires FreshNames(temp, disk, input, output)
    requires input in disk ==> BlankRuns(Chunks(Reads(disk[input]), maxLines)) == 0
    ensures MergeSortChecked(disk, input, output, maxLines, temp, stuck, fault)
            == MergeSort.MergeSort(disk, input, output, maxLines, temp, stuck, fault)
  {
    if input in disk {
      var chunks := Chunks(Reads(disk[input]), maxLines);
      var runs := WriteRuns(disk, chunks, temp, fault);
      RunsRegistered(disk, chunks, input, output, temp, fault);
      assert MergeSort.MergeSort(disk, input, output, maxLines, temp, stuck, fault) == Finish(runs, output, stuck);
      assert MergeSortChecked(disk, input, output, maxLines, temp, stuck, fault) == FinishChecked(runs, output, stuck);
      if runs.error.None? {
        WriteRunsComplete(disk, chunks, temp, fault);
        ChunksNoCR(Reads(disk[input]), maxLines);
        NoBlankRuns(chunks);
        FinishAgrees(runs, chunks, output, stuck);
      }
    }
  }

  /** Merging runs none of which is empty, the corrected merge writes what
      `do_file_merge` writes. */
  lemma FinishAgrees(runs: RunPhase, chunks: seq<seq<string>>, output: Path, stuck: set<Path>)
    requires Registered(runs, output)
    requires |runs.owned| == |chunks|
    requires forall n :: 0 <= n < |runs.owned| ==> runs.disk[runs.owned[n]] == RunFile(chunks[n])
    requires forall k :: 0 <= k < |chunks| ==> NoCR(chunks[k]) && NonBlank(chunks[k]) != []
    ensures FinishChecked(runs, output, stuck) == Finish(runs, output, stuck)
  {
    var cs := OpenAll(runs.disk, runs.owned);
    OpenedRuns(runs.disk, runs.owned, chunks);
    forall n | 0 <= n < |cs| ensures !Exhausted(cs[n]) {
      RunNoCR(chunks[n]);
      OpenSerialised(RunLines(chunks[n]));
      EmptyRun(chunks[n]);
    }
    assert Live(cs) == cs;
    assert DoFileMergeChecked(runs.disk, runs.owned, output) == DoFileMerge(runs.disk, runs.owned, output);
  }
}
