/**
  The chunk loop of `merge_sort`: each pass of the outer loop reads one chunk,
  registers a fresh temporary path with the file manager and flushes the
  chunk's sorted run to it.

  The temporary-name supplier is a parameter (`temp`: the k-th pass gets
  `temp(k)`), and so is a stream fault, the one way a pass can throw.
 */
module Runs {
  import opened Wrappers
  import opened Lines
  import opened CountMap
  import opened TempFiles

  /** A stream failure: the input stream is found failed before the given
      read of a chunk (the check before each `getline`), or the run file is
      found failed before the given map entry is written (the check before
      each distinct record). */
  datatype Fault = NoFault | ReadFault(chunk: nat, read: nat) | WriteFault(chunk: nat, entry: nat)

  datatype SortError =
    | CannotOpenInput   // "Unable to open file"
    | ReadFailed        // "An error occurred reading the input file."
    | WriteFailed       // "An error occurred writing temporary a file."
    | MergeIncomplete   // a run could not be reopened; the merge's assert fires

  /** The state after the chunk loop: the disk, the owned run paths in the
      order they were registered, and the error that ended the loop, if any. */
  datatype RunPhase = RunPhase(disk: Disk, owned: seq<Path>, error: Option<SortError>)

  /** The temporary-name supplier never hands out the same path twice. */
  ghost predicate UniqueNames(temp: nat -> Path)
  {
    forall i: nat, j: nat :: i != j ==> temp(i) != temp(j)
  }

  /** The content of the run file a chunk is flushed to. */
  function RunFile(chunk: seq<string>): seq<char>
  {
    Serialise(RunLines(chunk))
  }

  /** The content of a run file when writing stops before map entry `n`: it
      begins the run the whole map would have written, and is all of it when
      no entry is left. */
  function PartFile(m: seq<Entry>, n: nat): (r: seq<char>)
    requires n <= |m|
    ensures r <= Serialise(Expand(m))
    ensures n == |m| ==> r == Serialise(Expand(m))
  {
    assert m == m[..n] + m[n..];
    ExpandAppend(m[..n], m[n..]);
    SerialiseAppend(Expand(m[..n]), Expand(m[n..]));
    Serialise(Expand(m[..n]))
  }

  /** The fault is detected in chunk `from` or later: its chunk is reached and
      the check it names runs (the inner loop performs that read, or the map
      has that entry). */
  predicate Strikes(fault: Fault, chunks: seq<seq<string>>, from: nat)
  {
    match fault
    case NoFault => false
    case ReadFault(c, i) => from <= c < |chunks| && i < |chunks[c]|
    case WriteFault(c, j) => from <= c < |chunks| && j < |ChunkMap(chunks[c])|
  }

  /** What one pass of the outer loop does: it flushes the chunk's whole run,
      or a read throws before it registers a path, or a write throws after it
      registered its path and wrote part of the run. */
  datatype Pass = Flushed(content: seq<char>) | ReadThrew | WriteThrew(partial: seq<char>)

  /** Pass `k` over `chunk` under the fault. */
  function PassOf(chunk: seq<string>, k: nat, fault: Fault): Pass
  {
    if fault.ReadFault? && fault.chunk == k && fault.read < |chunk| then
      ReadThrew
    else
      var m := ChunkMap(chunk);
      if fault.WriteFault? && fault.chunk == k && fault.entry < |m| then
        WriteThrew(PartFile(m, fault.entry))
      else
        Flushed(RunFile(chunk))
  }

  function Passes(chunks: seq<seq<string>>, fault: Fault): seq<Pass>
  {
    seq(|chunks|, k requires 0 <= k < |chunks| => PassOf(chunks[k], k, fault))
  }

  /** The outer loop of `merge_sort` from pass `k` on. Each pass registers a
      fresh path and writes its run there until one throws; the k-th pass is
      the only one to use `temp(k)`. */
  function Loop(disk: Disk, passes: seq<Pass>, k: nat, temp: nat -> Path): (p: RunPhase)
    requires k <= |passes|
    ensures |p.owned| <= |passes| - k
    ensures forall n :: 0 <= n < |p.owned| ==> p.owned[n] == temp(k + n)
    decreases |passes| - k
  {
    if k == |passes| then
      RunPhase(disk, [], None)
    else
      match passes[k]
      case ReadThrew => RunPhase(disk, [], Some(ReadFailed))
      case WriteThrew(partial) => RunPhase(disk[temp(k) := partial], [temp(k)], Some(WriteFailed))
      case Flushed(content) =>
        var rest := Loop(disk[temp(k) := content], passes, k + 1, temp);
        var owned := [temp(k)] + rest.owned;
        assert forall n :: 1 <= n < |owned| ==> owned[n] == rest.owned[n - 1];
        RunPhase(rest.disk, owned, rest.error)
  }

  /** The first pass at or after `k` that throws, or `|passes|` if none does. */
  function Stop(passes: seq<Pass>, k: nat): (s: nat)
    requires k <= |passes|
    ensures k <= s <= |passes|
    ensures forall n :: k <= n < s ==> passes[n].Flushed?
    ensures s < |passes| ==> !passes[s].Flushed?
    decreases |passes| - k
  {
    if k == |passes| || !passes[k].Flushed? then k else Stop(passes, k + 1)
  }

  /** The loop ends with an error exactly when a pass throws, with that pass's
      message, after registering the paths of the passes before it (and its
      own for a write); otherwise there is one path per pass. */
  lemma {:induction false} LoopOutcome(disk: Disk, passes: seq<Pass>, k: nat, temp: nat -> Path)
    requires k <= |passes|
    ensures var p := Loop(disk, passes, k, temp);
            var s := Stop(passes, k);
            && (p.error.None? <==> s == |passes|)
            && (s < |passes| ==> p.error == Some(if passes[s].ReadThrew? then ReadFailed else WriteFailed))
            && (s < |passes| ==> |p.owned| == s - k + (if passes[s].WriteThrew? then 1 else 0))
            && (s == |passes| ==> |p.owned| == |passes| - k)
    decreases |passes| - k
  {
    if k < |passes| && passes[k].Flushed? {
      LoopOutcome(disk[temp(k) := passes[k].content], passes, k + 1, temp);
    }
  }

  /** The path of pass `k` is not one a later pass registers. */
  lemma NotRegisteredLater(disk: Disk, passes: seq<Pass>, k: nat, temp: nat -> Path)
    requires k < |passes|
    requires UniqueNames(temp)
    ensures temp(k) !in Loop(disk, passes, k + 1, temp).owned
  {
    var rest := Loop(disk, passes, k + 1, temp);
    forall n | 0 <= n < |rest.owned| ensures rest.owned[n] != temp(k) {
      assert rest.owned[n] == temp(k + 1 + n);
    }
  }

  /** Writing path `t` and then the later passes' paths adds exactly those
      paths and leaves the rest of the disk alone. */
  lemma DiskAfterPass(disk: Disk, t: Path, content: seq<char>, after: Disk, later: seq<Path>)
    requires t !in later
    requires forall q :: q in after <==> q in disk[t := content] || q in later
    requires forall q :: q in disk[t := content] && q !in later ==> after[q] == disk[t := content][q]
    ensures forall q :: q in after <==> q in disk || q in [t] + later
    ensures forall q :: q in disk && q !in [t] + later ==> after[q] == disk[q]
  {
  }

  /** The loop adds exactly the paths it registers and changes nothing else. */
  lemma {:induction false} LoopDisk(disk: Disk, passes: seq<Pass>, k: nat, temp: nat -> Path)
    requires k <= |passes|
    requires UniqueNames(temp)
    ensures var p := Loop(disk, passes, k, temp);
            && (forall q :: q in p.disk <==> q in disk || q in p.owned)
            && (forall q :: q in disk && q !in p.owned ==> p.disk[q] == disk[q])
    decreases |passes| - k
  {
    if k < |passes| && passes[k].Flushed? {
      var written := disk[temp(k) := passes[k].content];
      var rest := Loop(written, passes, k + 1, temp);
      LoopDisk(written, passes, k + 1, temp);
      NotRegisteredLater(written, passes, k, temp);
      DiskAfterPass(disk, temp(k), passes[k].content, rest.disk, rest.owned);
    }
  }

  /** When no pass throws, the n-th owned path holds the run of pass `k + n`. */
  lemma {:induction false} LoopContents(disk: Disk, passes: seq<Pass>, k: nat, temp: nat -> Path, n: nat)
    requires k <= |passes|
    requires UniqueNames(temp)
    requires Loop(disk, passes, k, temp).error.None?
    requires n < |Loop(disk, passes, k, temp).owned|
    ensures k + n < |passes| && passes[k + n].Flushed?
    ensures var p := Loop(disk, passes, k, temp);
            p.owned[n] in p.disk && p.disk[p.owned[n]] == passes[k + n].content
    decreases n
  {
    var written := disk[temp(k) := passes[k].content];
    if n == 0 {
      LoopDisk(written, passes, k + 1, temp);
      NotRegisteredLater(written, passes, k, temp);
    } else {
      LoopContents(written, passes, k + 1, temp, n - 1);
      assert k + 1 + (n - 1) == k + n;
    }
  }

  /** The outer loop of `merge_sort` over the chunks of its input, with the
      given fault. */
  function WriteRuns(disk: Disk, chunks: seq<seq<string>>, temp: nat -> Path, fault: Fault): (p: RunPhase)
    ensures |p.owned| <= |chunks|
    ensures forall n :: 0 <= n < |p.owned| ==> p.owned[n] == temp(n)
  {
    Loop(disk, Passes(chunks, fault), 0, temp)
  }

  /** The only pass that can throw is the fault's, and it throws exactly when
      the fault strikes. */
  lemma PassesStop(chunks: seq<seq<string>>, fault: Fault)
    ensures var passes := Passes(chunks, fault);
            var s := Stop(passes, 0);
            && (s < |chunks| <==> Strikes(fault, chunks, 0))
            && (s < |chunks| ==> s == fault.chunk && (passes[s].ReadThrew? <==> fault.ReadFault?))
            && (s < |chunks| ==> (passes[s].WriteThrew? <==> fault.WriteFault?))
  {
    var passes := Passes(chunks, fault);
    var s := Stop(passes, 0);
    if Strikes(fault, chunks, 0) {
      assert passes[fault.chunk] == PassOf(chunks[fault.chunk], fault.chunk, fault);
    }
    if s < |chunks| {
      assert passes[s] == PassOf(chunks[s], s, fault);
    }
  }

  /** The loop throws exactly when the fault strikes, with the read or write
      message, after registering the paths of the passes before the fault's
      (and its own for a write fault); otherwise there is one path per chunk. */
  lemma WriteRunsOutcome(disk: Disk, chunks: seq<seq<string>>, temp: nat -> Path, fault: Fault)
    ensures var p := WriteRuns(disk, chunks, temp, fault);
            && (p.error.None? <==> !Strikes(fault, chunks, 0))
            && (p.error.Some? ==> p.error.value == (if fault.ReadFault? then ReadFailed else WriteFailed))
            && (p.error.Some? ==> |p.owned| == fault.chunk + (if fault.WriteFault? then 1 else 0))
            && (p.error.None? ==> |p.owned| == |chunks|)
  {
    LoopOutcome(disk, Passes(chunks, fault), 0, temp);
    PassesStop(chunks, fault);
  }

  /** The loop adds exactly the registered paths to the disk and changes no
      other file. */
  lemma WriteRunsDisk(disk: Disk, chunks: seq<seq<string>>, temp: nat -> Path, fault: Fault)
    requires UniqueNames(temp)
    ensures var p := WriteRuns(disk, chunks, temp, fault);
            && (forall q :: q in p.disk <==> q in disk || q in p.owned)
            && (forall q :: q in disk && q !in p.owned ==> p.disk[q] == disk[q])
  {
    LoopDisk(disk, Passes(chunks, fault), 0, temp);
    assert WriteRuns(disk, chunks, temp, fault) == Loop(disk, Passes(chunks, fault), 0, temp);
  }

  /** After a loop no fault interrupted, there is one owned path per chunk,
      each holding that chunk's run. */
  lemma WriteRunsComplete(disk: Disk, chunks: seq<seq<string>>, temp: nat -> Path, fault: Fault)
    requires UniqueNames(temp)
    requires WriteRuns(disk, chunks, temp, fault).error.None?
    ensures var p := WriteRuns(disk, chunks, temp, fault);
            && |p.owned| == |chunks|
            && forall n :: 0 <= n < |p.owned| ==> p.owned[n] in p.disk && p.disk[p.owned[n]] == RunFile(chunks[n])
  {
    WriteRunsOutcome(disk, chunks, temp, fault);
    var p := WriteRuns(disk, chunks, temp, fault);
    forall n | 0 <= n < |p.owned| ensures p.owned[n] in p.disk && p.disk[p.owned[n]] == RunFile(chunks[n]) {
      OwnedRun(disk, chunks, temp, fault, n);
    }
  }

  /** The n-th owned path of an uninterrupted loop holds the n-th chunk's run. */
  lemma OwnedRun(disk: Disk, chunks: seq<seq<string>>, temp: nat -> Path, fault: Fault, n: nat)
    requires UniqueNames(temp)
    requires WriteRuns(disk, chunks, temp, fault).error.None?
    requires n < |WriteRuns(disk, chunks, temp, fault).owned|
    ensures var p := WriteRuns(disk, chunks, temp, fault);
            p.owned[n] in p.disk && p.disk[p.owned[n]] == RunFile(chunks[n])
  {
    var passes := Passes(chunks, fault);
    assert WriteRuns(disk, chunks, temp, fault) == Loop(disk, passes, 0, temp);
    LoopContents(disk, passes, 0, temp, n);
    assert passes[n] == PassOf(chunks[n], n, fault);
    FlushedRun(chunks[n], n, fault);
  }

  /** A pass that flushes writes its chunk's whole run. */
  lemma FlushedRun(chunk: seq<string>, k: nat, fault: Fault)
    requires PassOf(chunk, k, fault).Flushed?
    ensures PassOf(chunk, k, fault).content == RunFile(chunk)
  {
  }
}
