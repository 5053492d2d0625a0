/**
  `merge_sort`: sort the records of an input file into an output file through
  sorted run files, and `do_file_merge`, which merges several runs.

  The input is read in chunks of at most `max_lines` reads; each chunk's
  non-blank lines are counted in an ordered map and flushed as one sorted run
  to a fresh temporary path that the temporary file manager owns. A single run
  is renamed onto the output; several runs are merged into it. When
  `merge_sort` returns or throws, the manager deletes every path it still owns.

  Outside effects are parameters: the disk, the temporary-name supplier
  `temp` (the k-th run goes to `temp(k)`), the paths whose deletion throws
  (`stuck`), and a stream fault.
 */
module MergeSort {
  import opened Wrappers
  import opened LexOrder
  import opened Lines
  import opened CountMap
  import opened Chunking
  import opened KWayMerge
  import opened TempFiles
  import opened Runs

  /** The disk once `merge_sort` has returned or thrown and the manager has
      cleaned up, and the error it threw, if any. */
  datatype Completion = Completion(disk: Disk, error: Option<SortError>)

  /** The temporary-name supplier hands out distinct real paths that are not
      yet on disk and are neither the input nor the output. */
  ghost predicate FreshNames(temp: nat -> Path, disk: Disk, input: Path, output: Path)
  {
    && UniqueNames(temp)
    && forall i: nat :: temp(i) != [] && temp(i) !in disk && temp(i) != input && temp(i) != output
  }

  /** Opening the run files in order, stopping at the first that will not open. */
  function OpenAll(disk: Disk, paths: seq<Path>): (cs: seq<Cursor>)
    ensures |cs| <= |paths|
    ensures forall n :: 0 <= n < |cs| ==> paths[n] in disk && cs[n] == Open(disk[paths[n]])
    ensures |cs| < |paths| ==> paths[|cs|] !in disk
  {
    if |paths| == 0 || paths[0] !in disk then []
    else
      var tail := OpenAll(disk, paths[1..]);
      var cs := [Open(disk[paths[0]])] + tail;
      assert forall n :: 1 <= n < |cs| ==> cs[n] == tail[n - 1] && paths[n] == paths[1..][n - 1];
      cs
  }

  /** `do_file_merge(first, last, out)`: the output file is created, every run
      is opened and merged into it. If a run does not open, the open loop
      stops there, the outer loop would go round a second time, and the assert
      that it runs only once fails: `None`. Otherwise it returns true: `Some`. */
  function DoFileMerge(disk: Disk, paths: seq<Path>, output: Path): (r: Option<Disk>)
    ensures r.Some? <==> forall n :: 0 <= n < |paths| ==> paths[n] in disk
    ensures r.Some? ==> forall q :: q in r.value <==> q in disk || q == output
    ensures r.Some? ==> forall q :: q in disk && q != output ==> r.value[q] == disk[q]
  {
    var cs := OpenAll(disk, paths);
    if |cs| == |paths| then Some(disk[output := Serialise(MergeLines(cs))]) else None
  }

  /** The run paths are on disk, real paths, and not the output. */
  predicate Registered(runs: RunPhase, output: Path)
  {
    forall n :: 0 <= n < |runs.owned| ==> runs.owned[n] in runs.disk && runs.owned[n] != [] && runs.owned[n] != output
  }

  /** The end of `merge_sort` once the chunk loop has finished or thrown,
      followed by the manager's cleanup: after a throw the owned runs are
      deleted; a single run is renamed onto the output (whatever the output
      held is deleted first) and the manager's list is cleared; several runs
      are merged into the output and then deleted. Only the output is
      created, nothing but the owned runs and the output is touched, an owned
      run survives only when its deletion fails, and a throw leaves the
      output as it was. */
  function Finish(runs: RunPhase, output: Path, stuck: set<Path>): (c: Completion)
    requires Registered(runs, output)
    ensures runs.error.Some? ==> c.error == runs.error
    ensures c.error.None? ==> output in c.disk
    ensures forall q :: q in c.disk ==> q in runs.disk || q == output
    ensures forall q :: q in runs.owned && q in c.disk ==> q in stuck
    ensures forall q :: q in runs.disk && q !in runs.owned && q != output ==> q in c.disk && c.disk[q] == runs.disk[q]
    ensures c.error.Some? ==> (output in c.disk <==> output in runs.disk)
    ensures c.error.Some? && output in runs.disk ==> c.disk[output] == runs.disk[output]
  {
    if runs.error.Some? then
      Completion(Abandon(runs, output, stuck), runs.error)
    else if |runs.owned| == 1 then
      Completion(Promote(runs, output, stuck), None)
    else
      match DoFileMerge(runs.disk, runs.owned, output)
      case Some(merged) => Completion(Merge(runs, merged, output, stuck), None)
      case None => Completion(Cleanup(runs.disk, runs.owned, stuck), Some(MergeIncomplete))
  }

  /** Deleting the owned runs after a throw leaves the output alone. */
  function Abandon(runs: RunPhase, output: Path, stuck: set<Path>): (d: Disk)
    requires Registered(runs, output)
    ensures forall q :: q in d ==> q in runs.disk
    ensures forall q :: q in runs.owned && q in d ==> q in stuck
    ensures forall q :: q in runs.disk && q !in runs.owned ==> q in d && d[q] == runs.disk[q]
  {
    Cleanup(runs.disk, runs.owned, stuck)
  }

  /** The single run replaces the output; the manager then owns nothing. */
  function Promote(runs: RunPhase, output: Path, stuck: set<Path>): (d: Disk)
    requires Registered(runs, output) && |runs.owned| == 1
    ensures output in d && d[output] == runs.disk[runs.owned[0]]
    ensures forall q :: q in d ==> q in runs.disk || q == output
    ensures runs.owned[0] !in d
    ensures forall q :: q in runs.disk && q !in runs.owned && q != output ==> q in d && d[q] == runs.disk[q]
  {
    var cleared := DeleteFile(runs.disk, output, stuck).disk;
    Cleanup(Rename(cleared, runs.owned[0], output), [], stuck)
  }

  /** After the merge wrote the output, the owned runs are deleted. */
  function Merge(runs: RunPhase, merged: Disk, output: Path, stuck: set<Path>): (d: Disk)
    requires Registered(runs, output)
    requires forall q :: q in merged <==> q in runs.disk || q == output
    requires forall q :: q in runs.disk && q != output ==> merged[q] == runs.disk[q]
    ensures output in d && d[output] == merged[output]
    ensures forall q :: q in d ==> q in runs.disk || q == output
    ensures forall q :: q in runs.owned && q in d ==> q in stuck
    ensures forall q :: q in runs.disk && q !in runs.owned && q != output ==> q in d && d[q] == runs.disk[q]
  {
    assert output !in runs.owned;
    Cleanup(merged, runs.owned, stuck)
  }

  /** The runs written from a disk with fresh names are registered. */
  lemma RunsRegistered(disk: Disk, chunks: seq<seq<string>>, input: Path, output: Path,
                       temp: nat -> Path, fault: Fault)
    requires FreshNames(temp, disk, input, output)
    ensures Registered(WriteRuns(disk, chunks, temp, fault), output)
  {
    WriteRunsDisk(disk, chunks, temp, fault);
  }

  /** `merge_sort<Record>(in, out, max_lines)`, followed by the manager's
      cleanup (which runs whether it returns or throws). */
  function MergeSort(disk: Disk, input: Path, output: Path, maxLines: nat,
                     temp: nat -> Path, stuck: set<Path>, fault: Fault): (c: Completion)
    requires maxLines >= 1
    requires FreshNames(temp, disk, input, output)
    ensures input !in disk ==> c == Completion(disk, Some(CannotOpenInput))
  {
    if input !in disk then
      Completion(disk, Some(CannotOpenInput))
    else
      var chunks := Chunks(Reads(disk[input]), maxLines);
      RunsRegistered(disk, chunks, input, output, temp, fault);
      Finish(WriteRuns(disk, chunks, temp, fault), output, stuck)
  }

  /** What a run file contributes to the merge: its lines, or one blank line
      when the run is empty (the first read of a file is not checked for end
      of file). */
  function Contribution(run: seq<string>): seq<string>
  {
    if run == [] then [[]] else run
  }

  /** What the runs of the chunks contribute to the merge, run by run. */
  function Merged(chunks: seq<seq<string>>): seq<string>
  {
    if |chunks| == 0 then [] else Contribution(RunLines(chunks[0])) + Merged(chunks[1..])
  }

  /** The number of chunks without a non-blank line, whose runs are empty. */
  function BlankRuns(chunks: seq<seq<string>>): nat
  {
    if |chunks| == 0 then 0 else (if NonBlank(chunks[0]) == [] then 1 else 0) + BlankRuns(chunks[1..])
  }

  lemma NoCRAppend(a: seq<string>, b: seq<string>)
    requires NoCR(a) && NoCR(b)
    ensures NoCR(a + b)
  {
    forall i | 0 <= i < |a + b| ensures CR !in (a + b)[i] {
      if i >= |a| {
        assert (a + b)[i] == b[i - |a|];
      }
    }
  }

  /** A run holds no delimiter when its chunk holds none. */
  lemma RunNoCR(chunk: seq<string>)
    requires NoCR(chunk)
    ensures NoCR(RunLines(chunk))
  {
    RunLinesSpec(chunk);
    var r := RunLines(chunk);
    forall i | 0 <= i < |r| ensures CR !in r[i] {
      assert r[i] in multiset(NonBlank(chunk));
      var j :| 0 <= j < |NonBlank(chunk)| && NonBlank(chunk)[j] == r[i];
      var l :| 0 <= l < |chunk| && chunk[l] == r[i];
    }
  }

  lemma {:induction false} InFlatten<T>(ss: seq<seq<T>>, k: nat, i: nat)
    requires k < |ss| && i < |ss[k]|
    ensures ss[k][i] in Flatten(ss)
  {
    if k > 0 {
      InFlatten(ss[1..], k - 1, i);
    }
  }

  /** The chunks of a series of reads hold no delimiter. */
  lemma ChunksNoCR(lines: seq<string>, maxLines: nat)
    requires |lines| >= 1 && maxLines >= 1 && NoCR(lines)
    ensures forall k :: 0 <= k < |Chunks(lines, maxLines)| ==> NoCR(Chunks(lines, maxLines)[k])
  {
    var cs := Chunks(lines, maxLines);
    forall k, i | 0 <= k < |cs| && 0 <= i < |cs[k]| ensures CR !in cs[k][i] {
      InFlatten(cs, k, i);
      var j :| 0 <= j < |lines| && lines[j] == cs[k][i];
    }
  }

  lemma {:induction false} MergedNoCR(chunks: seq<seq<string>>)
    requires forall k :: 0 <= k < |chunks| ==> NoCR(chunks[k])
    ensures NoCR(Merged(chunks))
  {
    if |chunks| > 0 {
      MergedNoCR(chunks[1..]);
      RunNoCR(chunks[0]);
      NoCRAppend(Contribution(RunLines(chunks[0])), Merged(chunks[1..]));
    }
  }

  /** The merge takes from all runs together every non-blank line of the
      chunks as often as the chunks hold it, plus one blank line per empty run. */
  lemma {:induction false} MergedCounts(chunks: seq<seq<string>>)
    ensures multiset(Merged(chunks))[[]] == BlankRuns(chunks)
    ensures forall x :: x != [] ==> multiset(Merged(chunks))[x] == multiset(Flatten(chunks))[x]
  {
    if |chunks| > 0 {
      var c := chunks[0];
      MergedCounts(chunks[1..]);
      RunLinesSpec(c);
      NonBlankMultiset(c);
      assert RunLines(c) == [] <==> NonBlank(c) == [] by {
        assert |multiset(RunLines(c))| == |RunLines(c)|;
        assert |multiset(NonBlank(c))| == |NonBlank(c)|;
      }
      assert multiset(RunLines(c))[[]] == 0;
    }
  }

  /** Opening runs and taking what each still has to contribute. */
  lemma {:induction false} PendingsOfRuns(cs: seq<Cursor>, chunks: seq<seq<string>>)
    requires |cs| == |chunks|
    requires forall n :: 0 <= n < |cs| ==> Pending(cs[n]) == Contribution(RunLines(chunks[n]))
    ensures Pendings(cs) == Merged(chunks)
  {
    if |cs| > 0 {
      forall n | 0 <= n < |cs| - 1 ensures Pending(cs[1..][n]) == Contribution(RunLines(chunks[1..][n])) {
        assert cs[1..][n] == cs[n + 1] && chunks[1..][n] == chunks[n + 1];
      }
      PendingsOfRuns(cs[1..], chunks[1..]);
    }
  }

  /** Run files opened in order, each holding the run of its chunk: all open,
      each is sorted, and together they have what the runs contribute. */
  lemma OpenedRuns(disk: Disk, paths: seq<Path>, chunks: seq<seq<string>>)
    requires |paths| == |chunks|
    requires forall n :: 0 <= n < |paths| ==> paths[n] in disk && disk[paths[n]] == RunFile(chunks[n])
    requires forall k :: 0 <= k < |chunks| ==> NoCR(chunks[k])
    ensures |OpenAll(disk, paths)| == |paths|
    ensures AllSorted(OpenAll(disk, paths))
    ensures Pendings(OpenAll(disk, paths)) == Merged(chunks)
  {
    var cs := OpenAll(disk, paths);
    assert |cs| == |paths|;
    forall n | 0 <= n < |cs| ensures Pending(cs[n]) == Contribution(RunLines(chunks[n])) {
      RunNoCR(chunks[n]);
      OpenSerialised(RunLines(chunks[n]));
    }
    forall n | 0 <= n < |cs| ensures Sorted(Pending(cs[n])) {
      RunLinesSpec(chunks[n]);
    }
    PendingsOfRuns(cs, chunks);
  }

  /** Merging run files, each holding the run of its chunk: the merge does
      not fail, and the output holds, in order, what the runs contribute. */
  lemma MergeOfRuns(disk: Disk, paths: seq<Path>, chunks: seq<seq<string>>, output: Path)
    requires |paths| == |chunks|
    requires forall n :: 0 <= n < |paths| ==> paths[n] in disk && disk[paths[n]] == RunFile(chunks[n])
    requires forall k :: 0 <= k < |chunks| ==> NoCR(chunks[k])
    ensures DoFileMerge(disk, paths, output).Some?
    ensures var out := DoFileMerge(disk, paths, output).value[output];
            && out == Serialise(Records(out))
            && Sorted(Records(out))
            && multiset(Records(out)) == multiset(Merged(chunks))
  {
    var cs := OpenAll(disk, paths);
    OpenedRuns(disk, paths, chunks);
    MergeLinesSorted(cs);
    MergedNoCR(chunks);
    NoCRPermutation(MergeLines(cs), Merged(chunks));
    RecordsOfSerialised(MergeLines(cs));
  }

  /** A single run is renamed onto the output. */
  lemma FinishRenamed(runs: RunPhase, output: Path, stuck: set<Path>)
    requires Registered(runs, output)
    requires runs.error.None? && |runs.owned| == 1
    ensures var c := Finish(runs, output, stuck);
            c.error.None? && output in c.disk && c.disk[output] == runs.disk[runs.owned[0]]
  {
  }

  /** Several runs, each holding the run of its chunk, are merged into the
      output without error. */
  lemma FinishMerged(runs: RunPhase, chunks: seq<seq<string>>, output: Path, stuck: set<Path>)
    requires Registered(runs, output)
    requires runs.error.None? && |runs.owned| == |chunks| != 1
    requires forall n :: 0 <= n < |runs.owned| ==> runs.disk[runs.owned[n]] == RunFile(chunks[n])
    requires forall k :: 0 <= k < |chunks| ==> NoCR(chunks[k])
    ensures var c := Finish(runs, output, stuck);
            && c.error.None?
            && output in c.disk
            && c.disk[output] == Serialise(Records(c.disk[output]))
            && Sorted(Records(c.disk[output]))
            && multiset(Records(c.disk[output])) == multiset(Merged(chunks))
  {
    MergeOfRuns(runs.disk, runs.owned, chunks, output);
    FinishOfMerge(runs, output, stuck);
  }

  /** When the merge succeeds, the sort succeeds with the merged output. */
  lemma FinishOfMerge(runs: RunPhase, output: Path, stuck: set<Path>)
    requires Registered(runs, output)
    requires runs.error.None? && |runs.owned| != 1
    requires DoFileMerge(runs.disk, runs.owned, output).Some?
    ensures var c := Finish(runs, output, stuck);
            && c.error.None?
            && output in c.disk
            && c.disk[output] == DoFileMerge(runs.disk, runs.owned, output).value[output]
  {
    var merged := DoFileMerge(runs.disk, runs.owned, output).value;
    assert Finish(runs, output, stuck) == Completion(Merge(runs, merged, output, stuck), None);
  }

  /** An input of at most `max_lines` reads is one chunk, its run is renamed
      onto the output, and the output is exactly that run. */
  lemma SingleRun(disk: Disk, input: Path, output: Path, maxLines: nat,
                  temp: nat -> Path, stuck: set<Path>, fault: Fault)
    requires maxLines >= 1
    requires FreshNames(temp, disk, input, output)
    requires input in disk && |Reads(disk[input])| <= maxLines
    requires MergeSort(disk, input, output, maxLines, temp, stuck, fault).error.None?
    ensures var c := MergeSort(disk, input, output, maxLines, temp, stuck, fault);
            output in c.disk && c.disk[output] == RunFile(Reads(disk[input]))
  {
    var lines := Reads(disk[input]);
    var chunks := Chunks(lines, maxLines);
    assert |chunks| == 1;
    assert chunks[0] == lines by {
      assert Flatten(chunks) == chunks[0] + Flatten(chunks[1..]);
    }
    var runs := WriteRuns(disk, chunks, temp, fault);
    RunsRegistered(disk, chunks, input, output, temp, fault);
    assert MergeSort(disk, input, output, maxLines, temp, stuck, fault) == Finish(runs, output, stuck);
    WriteRunsComplete(disk, chunks, temp, fault);
    FinishRenamed(runs, output, stuck);
  }

  /** An input of more than `max_lines` reads gives several runs, and the
      output is their merge. */
  lemma SeveralRuns(disk: Disk, input: Path, output: Path, maxLines: nat,
                    temp: nat -> Path, stuck: set<Path>, fault: Fault)
    requires maxLines >= 1
    requires FreshNames(temp, disk, input, output)
    requires input in disk && |Reads(disk[input])| > maxLines
    requires MergeSort(disk, input, output, maxLines, temp, stuck, fault).error.None?
    ensures var c := MergeSort(disk, input, output, maxLines, temp, stuck, fault);
            var chunks := Chunks(Reads(disk[input]), maxLines);
            && output in c.disk
            && c.disk[output] == Serialise(Records(c.disk[output]))
            && Sorted(Records(c.disk[output]))
            && multiset(Records(c.disk[output])) == multiset(Merged(chunks))
  {
    var lines := Reads(disk[input]);
    var chunks := Chunks(lines, maxLines);
    var runs := WriteRuns(disk, chunks, temp, fault);
    RunsRegistered(disk, chunks, input, output, temp, fault);
    assert MergeSort(disk, input, output, maxLines, temp, stuck, fault) == Finish(runs, output, stuck);
    assert |chunks| >= 2;
    WriteRunsComplete(disk, chunks, temp, fault);
    ChunksNoCR(lines, maxLines);
    FinishMerged(runs, chunks, output, stuck);
  }

  /** On success the output is its records, each followed by the delimiter.
      They are sorted, every non-blank line of the input occurs among them
      exactly as often as in the input, and there is one blank record per
      empty run when the runs were merged and none when the input was one
      chunk. */
  lemma MergeSortSorts(disk: Disk, input: Path, output: Path, maxLines: nat,
                       temp: nat -> Path, stuck: set<Path>, fault: Fault)
    requires maxLines >= 1
    requires FreshNames(temp, disk, input, output)
    requires input in disk
    requires MergeSort(disk, input, output, maxLines, temp, stuck, fault).error.None?
    ensures var c := MergeSort(disk, input, output, maxLines, temp, stuck, fault);
            var lines := Reads(disk[input]);
            && output in c.disk
            && c.disk[output] == Serialise(Records(c.disk[output]))
            && Sorted(Records(c.disk[output]))
            && (forall x :: x != [] ==> multiset(Records(c.disk[output]))[x] == multiset(lines)[x])
            && multiset(Records(c.disk[output]))[[]]
               == if |lines| <= maxLines then 0 else BlankRuns(Chunks(lines, maxLines))
  {
    var lines := Reads(disk[input]);
    if |lines| <= maxLines {
      SingleRun(disk, input, output, maxLines, temp, stuck, fault);
      RunNoCR(lines);
      RecordsOfSerialised(RunLines(lines));
      RunLinesSpec(lines);
      NonBlankMultiset(lines);
    } else {
      SeveralRuns(disk, input, output, maxLines, temp, stuck, fault);
      MergedCounts(Chunks(lines, maxLines));
    }
  }

  /** With the input present, `merge_sort` fails exactly when the stream fault
      strikes, and then with that fault's message: the merge never fails. */
  lemma MergeSortOutcome(disk: Disk, input: Path, output: Path, maxLines: nat,
                         temp: nat -> Path, stuck: set<Path>, fault: Fault)
    requires maxLines >= 1
    requires FreshNames(temp, disk, input, output)
    requires input in disk
    ensures var c := MergeSort(disk, input, output, maxLines, temp, stuck, fault);
            && (c.error.None? <==> !Strikes(fault, Chunks(Reads(disk[input]), maxLines), 0))
            && (c.error.Some? ==> c.error.value == (if fault.ReadFault? then ReadFailed else WriteFailed))
  {
    var chunks := Chunks(Reads(disk[input]), maxLines);
    var runs := WriteRuns(disk, chunks, temp, fault);
    RunsRegistered(disk, chunks, input, output, temp, fault);
    assert MergeSort(disk, input, output, maxLines, temp, stuck, fault) == Finish(runs, output, stuck);
    WriteRunsOutcome(disk, chunks, temp, fault);
    if runs.error.None? {
      if |runs.owned| == 1 {
        FinishRenamed(runs, output, stuck);
      } else {
        WriteRunsComplete(disk, chunks, temp, fault);
        ChunksNoCR(Reads(disk[input]), maxLines);
        FinishMerged(runs, chunks, output, stuck);
      }
    }
  }

  /** What `merge_sort` leaves on disk once the manager has cleaned up: every
      other path is as it was, the only new paths are the output and run
      files whose deletion failed, and a failed sort leaves the output as it
      was. */
  lemma MergeSortTidy(disk: Disk, input: Path, output: Path, maxLines: nat,
                      temp: nat -> Path, stuck: set<Path>, fault: Fault)
    requires maxLines >= 1
    requires FreshNames(temp, disk, input, output)
    ensures var c := MergeSort(disk, input, output, maxLines, temp, stuck, fault);
            && (forall q :: q in disk && q != output ==> q in c.disk && c.disk[q] == disk[q])
            && (forall q :: q in c.disk && q !in disk && q != output ==> q in stuck && exists i: nat :: q == temp(i))
            && (c.error.Some? ==> (output in c.disk <==> output in disk))
            && (c.error.Some? && output in disk ==> c.disk[output] == disk[output])
            && (c.error.None? ==> output in c.disk)
  {
    if input in disk {
      var chunks := Chunks(Reads(disk[input]), maxLines);
      var runs := WriteRuns(disk, chunks, temp, fault);
      RunsRegistered(disk, chunks, input, output, temp, fault);
      var c := Finish(runs, output, stuck);
      assert MergeSort(disk, input, output, maxLines, temp, stuck, fault) == c;
      WriteRunsDisk(disk, chunks, temp, fault);
      forall q | q in disk ensures q !in runs.owned {
        forall n | 0 <= n < |runs.owned| ensures runs.owned[n] != q {
          assert runs.owned[n] == temp(n);
        }
      }
      forall q | q in c.disk && q !in disk && q != output
        ensures q in stuck && exists i: nat :: q == temp(i)
      {
        var n :| 0 <= n < |runs.owned| && runs.owned[n] == q;
        assert q == temp(n);
      }
    }
  }

  /** When every run file can be deleted, a failed sort leaves the disk as it
      was, and a successful one changes nothing but the output. */
  lemma NoStrayFiles(disk: Disk, input: Path, output: Path, maxLines: nat,
                     temp: nat -> Path, stuck: set<Path>, fault: Fault)
    requires maxLines >= 1
    requires FreshNames(temp, disk, input, output)
    requires forall i: nat :: temp(i) !in stuck
    ensures var c := MergeSort(disk, input, output, maxLines, temp, stuck, fault);
            && (c.error.Some? ==> c.disk == disk)
            && (c.error.None? ==> output in c.disk && c.disk == disk[output := c.disk[output]])
  {
    var c := MergeSort(disk, input, output, maxLines, temp, stuck, fault);
    MergeSortTidy(disk, input, output, maxLines, temp, stuck, fault);
    DiskAfter(disk, c.disk, output, c.error.Some?, temp, stuck);
  }

  lemma DiskAfter(disk: Disk, after: Disk, output: Path, failed: bool, temp: nat -> Path, stuck: set<Path>)
    requires forall i: nat :: temp(i) !in stuck
    requires forall q :: q in disk && q != output ==> q in after && after[q] == disk[q]
    requires forall q :: q in after && q !in disk && q != output ==> q in stuck && exists i: nat :: q == temp(i)
    requires failed ==> (output in after <==> output in disk)
    requires failed && output in disk ==> after[output] == disk[output]
    requires !failed ==> output in after
    ensures failed ==> after == disk
    ensures !failed ==> after == disk[output := after[output]]
  {
    if failed {
      assert after.Keys == disk.Keys;
    } else {
      assert after.Keys == disk.Keys + {output};
    }
  }

  /** An empty input file sorts to an empty output file. */
  lemma EmptyInput(disk: Disk, input: Path, output: Path, maxLines: nat,
                   temp: nat -> Path, stuck: set<Path>, fault: Fault)
    requires maxLines >= 1
    requires FreshNames(temp, disk, input, output)
    requires input in disk && disk[input] == []
    requires MergeSort(disk, input, output, maxLines, temp, stuck, fault).error.None?
    ensures var c := MergeSort(disk, input, output, maxLines, temp, stuck, fault);
            output in c.disk && c.disk[output] == []
  {
    assert Reads([]) == [[]];
    SingleRun(disk, input, output, maxLines, temp, stuck, fault);
    RunLinesSpec([[]]);
    assert NonBlank([[]]) == [];
    assert |multiset(RunLines([[]]))| == 0;
  }

  /** A file that is already sorted, has no blank record and ends with the
      delimiter is reproduced character for character, when it fits in one
      chunk or every chunk has a non-blank line (so no run is empty). */
  lemma SortedInputUnchanged(disk: Disk, input: Path, output: Path, maxLines: nat,
                             temp: nat -> Path, stuck: set<Path>, fault: Fault)
    requires maxLines >= 1
    requires FreshNames(temp, disk, input, output)
    requires input in disk
    requires |Reads(disk[input])| <= maxLines || BlankRuns(Chunks(Reads(disk[input]), maxLines)) == 0
    requires Sorted(Records(disk[input]))
    requires forall i :: 0 <= i < |Records(disk[input])| ==> Records(disk[input])[i] != []
    requires Reads(disk[input])[|Reads(disk[input])| - 1] == []
    requires MergeSort(disk, input, output, maxLines, temp, stuck, fault).error.None?
    ensures var c := MergeSort(disk, input, output, maxLines, temp, stuck, fault);
            output in c.disk && c.disk[output] == disk[input]
  {
    var c := MergeSort(disk, input, output, maxLines, temp, stuck, fault);
    MergeSortSorts(disk, input, output, maxLines, temp, stuck, fault);
    Reproduced(c.disk[output], disk[input]);
  }

  /** A text that is its sorted records, each followed by the delimiter, and
      has no blank record and every non-blank line as often as a sorted,
      blank-free, delimiter-terminated content reads it, is that content. */
  lemma Reproduced(out: seq<char>, content: seq<char>)
    requires out == Serialise(Records(out)) && Sorted(Records(out))
    requires forall x :: x != [] ==> multiset(Records(out))[x] == multiset(Reads(content))[x]
    requires multiset(Records(out))[[]] == 0
    requires Sorted(Records(content))
    requires forall i :: 0 <= i < |Records(content)| ==> Records(content)[i] != []
    requires Reads(content)[|Reads(content)| - 1] == []
    ensures out == content
  {
    EndsWithDelimiter(content);
    SameRecords(Records(out), Records(content));
    SortedUnique(Records(out), Records(content));
  }

  /** A content whose final read is empty is its records, each followed by
      the delimiter. */
  lemma EndsWithDelimiter(content: seq<char>)
    requires Reads(content)[|Reads(content)| - 1] == []
    ensures Reads(content) == Records(content) + [[]]
    ensures content == Serialise(Records(content))
  {
    var lines := Reads(content);
    assert lines == lines[..|lines| - 1] + [lines[|lines| - 1]];
    SerialisedRecords(content);
  }

  /** Lines with no blank one, counted against those lines followed by the
      blank final read, are counted exactly. */
  lemma SameRecords(r: seq<string>, recs: seq<string>)
    requires forall i :: 0 <= i < |recs| ==> recs[i] != []
    requires forall x :: x != [] ==> multiset(r)[x] == multiset(recs + [[]])[x]
    requires multiset(r)[[]] == 0
    ensures multiset(r) == multiset(recs)
  {
    assert multiset(recs)[[]] == 0;
    forall x ensures multiset(r)[x] == multiset(recs)[x] {
      if x != [] {
        assert multiset(recs + [[]]) == multiset(recs) + multiset{[]};
      }
    }
  }

  /** Dropping blank lines keeps a sorted sequence sorted. */
  lemma {:induction false} NonBlankSorted(s: seq<string>)
    requires Sorted(s)
    ensures Sorted(NonBlank(s))
  {
    if |s| > 0 {
      SortedTail(s);
      NonBlankSorted(s[1..]);
      if |s[0]| != 0 {
        var t := NonBlank(s[1..]);
        forall y | y in t ensures Le(s[0], y) {
          var i :| 0 <= i < |t| && t[i] == y;
          assert t[i] in s[1..];
          var j :| 0 <= j < |s[1..]| && s[1..][j] == y;
          assert s[j + 1] == y;
        }
        SortedCons(s[0], t);
      }
    }
  }

  /** The chunk size decides only how many blank records the output gets:
      the non-blank records are the same for every `max_lines`. */
  lemma ChunkSizeIrrelevant(disk: Disk, input: Path, output: Path, maxLines1: nat, maxLines2: nat,
                            temp: nat -> Path, stuck: set<Path>, fault: Fault)
    requires maxLines1 >= 1 && maxLines2 >= 1
    requires FreshNames(temp, disk, input, output)
    requires input in disk
    requires MergeSort(disk, input, output, maxLines1, temp, stuck, fault).error.None?
    requires MergeSort(disk, input, output, maxLines2, temp, stuck, fault).error.None?
    ensures var c1 := MergeSort(disk, input, output, maxLines1, temp, stuck, fault);
            var c2 := MergeSort(disk, input, output, maxLines2, temp, stuck, fault);
            output in c1.disk && output in c2.disk
            && NonBlank(Records(c1.disk[output])) == NonBlank(Records(c2.disk[output]))
  {
    var c1 := MergeSort(disk, input, output, maxLines1, temp, stuck, fault);
    var c2 := MergeSort(disk, input, output, maxLines2, temp, stuck, fault);
    MergeSortSorts(disk, input, output, maxLines1, temp, stuck, fault);
    MergeSortSorts(disk, input, output, maxLines2, temp, stuck, fault);
    SameNonBlank(Records(c1.disk[output]), Records(c2.disk[output]), Reads(disk[input]));
  }

  /** Two sorted sequences holding every non-blank line as often as a third
      one does have the same non-blank lines in the same order. */
  lemma SameNonBlank(r1: seq<string>, r2: seq<string>, lines: seq<string>)
    requires Sorted(r1) && Sorted(r2)
    requires forall x :: x != [] ==> multiset(r1)[x] == multiset(lines)[x]
    requires forall x :: x != [] ==> multiset(r2)[x] == multiset(lines)[x]
    ensures NonBlank(r1) == NonBlank(r2)
  {
    NonBlankSorted(r1);
    NonBlankSorted(r2);
    NonBlankMultiset(r1);
    NonBlankMultiset(r2);
    assert multiset(NonBlank(r1)) == multiset(NonBlank(r2)) by {
      forall x ensures multiset(NonBlank(r1))[x] == multiset(NonBlank(r2))[x] {
      }
    }
    SortedUnique(NonBlank(r1), NonBlank(r2));
  }

  /** When the reads before the last fill `q` whole chunks and the last read
      is the empty one that sets end of file, that read forms a chunk of its own. */
  lemma {:induction false} TrailingEmptyChunk(lines: seq<string>, maxLines: nat, q: nat)
    requires maxLines >= 1 && |lines| == q * maxLines + 1
    requires lines[|lines| - 1] == []
    ensures var cs := Chunks(lines, maxLines);
            cs[|cs| - 1] == [[]]
    decreases q
  {
    if q > 0 {
      FilledChunks(q, maxLines);
      OneChunkLess(q, maxLines);
      var rest := lines[maxLines..];
      TrailingEmptyChunk(rest, maxLines, q - 1);
      assert Chunks(lines, maxLines) == [lines[..maxLines]] + Chunks(rest, maxLines);
    } else {
      assert lines == [[]];
    }
  }

  /** A chunk without a non-blank line counts among the blank runs. */
  lemma {:induction false} BlankRunsLast(chunks: seq<seq<string>>)
    requires |chunks| > 0 && NonBlank(chunks[|chunks| - 1]) == []
    ensures BlankRuns(chunks) >= 1
  {
    if |chunks| > 1 {
      BlankRunsLast(chunks[1..]);
    }
  }

  /** The reads fill `q` chunks of `maxLines` exactly and end with the empty
      read at end of file. */
  predicate FillsChunks(lines: seq<string>, maxLines: nat, q: nat)
  {
    |lines| >= 1 && |lines| == q * maxLines + 1 && lines[|lines| - 1] == []
  }

  /** An output whose blank count is that of the several-runs case, for such
      a series of reads, holds a blank record. */
  lemma TrailingBlankRun(out: seq<char>, lines: seq<string>, maxLines: nat, q: nat)
    requires maxLines >= 1 && q >= 1 && FillsChunks(lines, maxLines, q)
    requires multiset(Records(out))[[]]
             == if |lines| <= maxLines then 0 else BlankRuns(Chunks(lines, maxLines))
    ensures [] in Records(out)
  {
    FilledChunks(q, maxLines);
    TrailingBlankRuns(lines, maxLines, q);
  }

  lemma OneChunkLess(q: nat, maxLines: nat)
    requires q >= 1
    ensures (q - 1) * maxLines + maxLines == q * maxLines
  {
  }

  lemma FilledChunks(q: nat, maxLines: nat)
    requires q >= 1 && maxLines >= 1
    ensures q * maxLines + 1 > maxLines
  {
    assert q * maxLines >= maxLines;
  }

  /** Such a series of reads has an empty run. */
  lemma TrailingBlankRuns(lines: seq<string>, maxLines: nat, q: nat)
    requires maxLines >= 1 && |lines| == q * maxLines + 1
    requires lines[|lines| - 1] == []
    ensures BlankRuns(Chunks(lines, maxLines)) >= 1
  {
    TrailingEmptyChunk(lines, maxLines, q);
    assert NonBlank([[]]) == [];
    BlankRunsLast(Chunks(lines, maxLines));
  }

  /** When the input's records fill `q >= 1` chunks exactly and the file ends
      with the delimiter (as "5\r3\r3\r1\r" with `max_lines` 2 does), the
      output gains a blank record that the input does not have. */
  lemma ExactChunksAddBlank(disk: Disk, input: Path, output: Path, maxLines: nat, q: nat,
                            temp: nat -> Path, stuck: set<Path>, fault: Fault)
    requires maxLines >= 1 && q >= 1
    requires FreshNames(temp, disk, input, output)
    requires input in disk
    requires FillsChunks(Reads(disk[input]), maxLines, q)
    requires MergeSort(disk, input, output, maxLines, temp, stuck, fault).error.None?
    ensures var c := MergeSort(disk, input, output, maxLines, temp, stuck, fault);
            output in c.disk && [] in Records(c.disk[output])
  {
    var c := MergeSort(disk, input, output, maxLines, temp, stuck, fault);
    var lines := Reads(disk[input]);
    MergeSortSorts(disk, input, output, maxLines, temp, stuck, fault);
    assert multiset(Records(c.disk[output]))[[]]
           == if |lines| <= maxLines then 0 else BlankRuns(Chunks(lines, maxLines));
    TrailingBlankRun(c.disk[output], lines, maxLines, q);
  }
}
