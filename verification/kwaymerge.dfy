/**
  The k-way merge loop of `do_file_merge`.

  Every run file is opened and one line is read from it into a buffer. Then,
  while some file remains, the buffered line that comes first is written to
  the output and replaced by the next line of the same file; a file is dropped
  once that refill sets its end-of-file flag.

  Selection is by line content. The source applies `std::min_element` to
  `std::pair<std::shared_ptr<std::ifstream>, std::string>`, which compares the
  stream pointers before the lines, so the line it picks depends on where the
  streams happen to be allocated; the model picks the first buffered line
  that no other buffered line comes before, which is what the merge is for.
 */
module KWayMerge {
  import opened Wrappers
  import opened LexOrder
  import opened Lines

  /** An open run file: its buffered line and the reads still to come. */
  datatype Cursor = Cursor(line: string, rest: seq<string>)

  /** Opening a run file and reading its first line. That first read is not
      checked for end of file, so an empty file still buffers one (empty) line. */
  function Open(content: seq<char>): (c: Cursor)
    ensures [c.line] + c.rest == Reads(content)
  {
    var r := Reads(content);
    Cursor(r[0], r[1..])
  }

  /** The lines this file will still contribute to the output: the buffered
      line, then every remaining read except the one that sets end of file. */
  function Pending(c: Cursor): seq<string>
  {
    [c.line] + (if |c.rest| <= 1 then [] else c.rest[..|c.rest| - 1])
  }

  /** Refilling after the buffered line was written: `None` when the read
      sets end of file (the file is then erased from the list). */
  function Refill(c: Cursor): (r: Option<Cursor>)
    ensures r.None? ==> Pending(c) == [c.line]
    ensures r.Some? ==> Pending(r.value) == Pending(c)[1..]
  {
    if |c.rest| <= 1 then None
    else
      var c' := Cursor(c.rest[0], c.rest[1..]);
      assert c.rest[..|c.rest| - 1] == [c.rest[0]] + c.rest[1..][..|c.rest| - 2];
      Some(c')
  }

  /** Everything the open files will still contribute, file by file. */
  function Pendings(cs: seq<Cursor>): seq<string>
  {
    if |cs| == 0 then [] else Pending(cs[0]) + Pendings(cs[1..])
  }

  /** Every file's remaining lines are in order. */
  predicate AllSorted(cs: seq<Cursor>)
  {
    forall k :: 0 <= k < |cs| ==> Sorted(Pending(cs[k]))
  }

  /** The file to take the next line from: the first whose buffered line no
      other buffered line comes before. A single file is taken as it is. */
  function MinIndex(cs: seq<Cursor>): (i: nat)
    requires |cs| > 0
    ensures i < |cs|
    ensures forall k :: 0 <= k < |cs| ==> Le(cs[i].line, cs[k].line)
    ensures forall k :: 0 <= k < i ==> Less(cs[i].line, cs[k].line)
  {
    if |cs| == 1 then
      LeReflexive(cs[0].line);
      0
    else
      var j := 1 + MinIndex(cs[1..]);
      assert forall k :: 1 <= k < |cs| ==> cs[1..][k - 1] == cs[k];
      if Less(cs[j].line, cs[0].line) then
        LessImpliesLe(cs[j].line, cs[0].line);
        j
      else
        forall k | 0 <= k < |cs| ensures Le(cs[0].line, cs[k].line) {
          if k == 0 {
            LeReflexive(cs[0].line);
          } else {
            LeTransitive(cs[0].line, cs[j].line, cs[k].line);
          }
        }
        0
  }

  lemma {:induction false} PendingsAppend(a: seq<Cursor>, b: seq<Cursor>)
    ensures Pendings(a + b) == Pendings(a) + Pendings(b)
  {
    if |a| > 0 {
      assert (a + b)[1..] == a[1..] + b;
      PendingsAppend(a[1..], b);
    } else {
      assert a + b == b;
    }
  }

  /** Removing or refilling file `i` takes away exactly its buffered line. */
  lemma AdvanceShrinks(cs: seq<Cursor>, i: nat, next: seq<Cursor>, rest: seq<string>)
    requires i < |cs|
    requires Pending(cs[i]) == [cs[i].line] + rest
    requires Pendings(next) == Pendings(cs[..i]) + rest + Pendings(cs[i + 1..])
    ensures multiset(Pendings(next)) + multiset{cs[i].line} == multiset(Pendings(cs))
    ensures |Pendings(next)| + 1 == |Pendings(cs)|
  {
    PendingsSplit(cs, i);
    DropOne(Pendings(cs[..i]), cs[i].line, rest, Pendings(cs[i + 1..]));
  }

  /** What the files contribute, split around file `i`. */
  lemma PendingsSplit(cs: seq<Cursor>, i: nat)
    requires i < |cs|
    ensures Pendings(cs) == Pendings(cs[..i]) + Pending(cs[i]) + Pendings(cs[i + 1..])
  {
    SplitAround(cs, i);
    PendingsAppend(cs[..i] + [cs[i]], cs[i + 1..]);
    PendingsAppend(cs[..i], [cs[i]]);
    PendingsOne(cs[i]);
  }

  lemma SplitAround<T>(s: seq<T>, i: nat)
    requires i < |s|
    ensures s == s[..i] + [s[i]] + s[i + 1..]
  {
  }

  lemma PendingsOne(c: Cursor)
    ensures Pendings([c]) == Pending(c)
  {
    assert [c][1..] == [];
  }

  lemma DropOne<T>(a: seq<T>, x: T, rest: seq<T>, b: seq<T>)
    ensures multiset(a + rest + b) + multiset{x} == multiset(a + ([x] + rest) + b)
    ensures |a + rest + b| + 1 == |a + ([x] + rest) + b|
  {
  }

  /** One step of the loop after writing the buffered line of file `i`. */
  function Advance(cs: seq<Cursor>, i: nat): (next: seq<Cursor>)
    requires i < |cs|
    ensures multiset(Pendings(next)) + multiset{cs[i].line} == multiset(Pendings(cs))
    ensures |Pendings(next)| + 1 == |Pendings(cs)|
    ensures AllSorted(cs) ==> AllSorted(next)
  {
    match Refill(cs[i])
    case None =>
      var next := cs[..i] + cs[i + 1..];
      assert Pendings(next) == Pendings(cs[..i]) + [] + Pendings(cs[i + 1..]) by {
        PendingsAppend(cs[..i], cs[i + 1..]);
      }
      AdvanceShrinks(cs, i, next, []);
      DroppedSorted(cs, i);
      next
    case Some(c) =>
      var next := cs[..i] + [c] + cs[i + 1..];
      assert Pendings(next) == Pendings(cs[..i]) + Pending(c) + Pendings(cs[i + 1..]) by {
        PendingsAppend(cs[..i] + [c], cs[i + 1..]);
        PendingsAppend(cs[..i], [c]);
        assert Pendings([c]) == Pending(c);
      }
      AdvanceShrinks(cs, i, next, Pending(c));
      RefilledSorted(cs, i, c);
      next
  }

  lemma DroppedSorted(cs: seq<Cursor>, i: nat)
    requires i < |cs|
    ensures AllSorted(cs) ==> AllSorted(cs[..i] + cs[i + 1..])
  {
    var next := cs[..i] + cs[i + 1..];
    if AllSorted(cs) {
      forall k | 0 <= k < |next| ensures Sorted(Pending(next[k])) {
        if k < i {
          assert next[k] == cs[k];
        } else {
          assert next[k] == cs[k + 1];
        }
      }
    }
  }

  lemma RefilledSorted(cs: seq<Cursor>, i: nat, c: Cursor)
    requires i < |cs| && Refill(cs[i]) == Some(c)
    ensures AllSorted(cs) ==> AllSorted(cs[..i] + [c] + cs[i + 1..])
  {
    var next := cs[..i] + [c] + cs[i + 1..];
    if AllSorted(cs) {
      forall k | 0 <= k < |next| ensures Sorted(Pending(next[k])) {
        if k == i {
          SortedTail(Pending(cs[i]));
        } else {
          assert next[k] == cs[k];
        }
      }
    }
  }

  /** The first read of the file already set end of file: the file held no
      delimited line, and its buffered line is that final read. */
  predicate Exhausted(c: Cursor)
  {
    c.rest == []
  }

  /** The open files without those whose first read set end of file, in
      their order. */
  function Live(cs: seq<Cursor>): (r: seq<Cursor>)
    ensures |r| <= |cs|
    ensures forall c :: c in r <==> c in cs && !Exhausted(c)
    ensures (forall k :: 0 <= k < |cs| ==> !Exhausted(cs[k])) ==> r == cs
  {
    KeptFacts(cs);
    Kept(cs)
  }

  /** The files `Live` keeps, file by file. */
  function Kept(cs: seq<Cursor>): seq<Cursor>
  {
    if |cs| == 0 then [] else (if Exhausted(cs[0]) then [] else [cs[0]]) + Kept(cs[1..])
  }

  lemma {:induction false} KeptFacts(cs: seq<Cursor>)
    ensures |Kept(cs)| <= |cs|
    ensures forall c :: c in Kept(cs) <==> c in cs && !Exhausted(c)
    ensures (forall k :: 0 <= k < |cs| ==> !Exhausted(cs[k])) ==> Kept(cs) == cs
  {
    if |cs| > 0 {
      KeptFacts(cs[1..]);
      assert cs == [cs[0]] + cs[1..];
    }
  }

  /** A single file is kept exactly when its first read did not set end of file. */
  lemma LiveOne(c: Cursor)
    ensures Live([c]) == if Exhausted(c) then [] else [c]
  {
    assert [c][1..] == [];
    assert Kept([c]) == (if Exhausted(c) then [] else [c]) + Kept([]);
  }

  /** Leaving out files works file by file: the files kept from `a + b` are
      those kept from `a`, then those kept from `b`, in order. Together with
      `LiveOne` this fixes `Live` on every sequence. */
  lemma LiveAppend(a: seq<Cursor>, b: seq<Cursor>)
    ensures Live(a + b) == Live(a) + Live(b)
  {
    KeptAppend(a, b);
  }

  lemma {:induction false} KeptAppend(a: seq<Cursor>, b: seq<Cursor>)
    ensures Kept(a + b) == Kept(a) + Kept(b)
  {
    if |a| == 0 {
      assert a + b == b;
    } else {
      assert (a + b)[0] == a[0];
      assert (a + b)[1..] == a[1..] + b;
      KeptAppend(a[1..], b);
    }
  }

  /** The files kept from `[c] + t`: `c` when it is live, then those kept from `t`. */
  lemma LiveCons(c: Cursor, t: seq<Cursor>)
    ensures Live([c] + t) == (if Exhausted(c) then [] else [c]) + Live(t)
  {
    LiveAppend([c], t);
    LiveOne(c);
  }

  /** The lines still to be merged from the live files of `[c] + t`. */
  lemma PendingsLiveCons(c: Cursor, t: seq<Cursor>)
    ensures Pendings(Live([c] + t)) == (if Exhausted(c) then [] else Pending(c)) + Pendings(Live(t))
  {
    var head := if Exhausted(c) then [] else [c];
    LiveCons(c, t);
    PendingsAppend(head, Live(t));
    if !Exhausted(c) {
      assert head[1..] == [];
    }
  }

  /** Leaving out files keeps the others sorted. */
  lemma LiveSorted(cs: seq<Cursor>)
    requires AllSorted(cs)
    ensures AllSorted(Live(cs))
  {
    var r := Live(cs);
    forall k | 0 <= k < |r| ensures Sorted(Pending(r[k])) {
      assert r[k] in cs;
      var j :| 0 <= j < |cs| && cs[j] == r[k];
    }
  }

  /** The merge loop: the lines written to the output file, in order. */
  function MergeLines(cs: seq<Cursor>): (out: seq<string>)
    ensures multiset(out) == multiset(Pendings(cs))
    decreases |Pendings(cs)|
  {
    if |cs| == 0 then []
    else
      var i := MinIndex(cs);
      [cs[i].line] + MergeLines(Advance(cs, i))
  }

  /** Every line a sorted file still holds comes no earlier than its buffered line. */
  lemma PendingFromLine(c: Cursor)
    requires Sorted(Pending(c))
    ensures forall y :: y in Pending(c) ==> Le(c.line, y)
  {
    var p := Pending(c);
    forall y | y in p ensures Le(c.line, y) {
      var k :| 0 <= k < |p| && p[k] == y;
      if k == 0 {
        LeReflexive(c.line);
      } else {
        assert Le(p[0], p[k]);
      }
    }
  }

  lemma {:induction false} PendingsLowerBound(cs: seq<Cursor>, b: string)
    requires AllSorted(cs)
    requires forall k :: 0 <= k < |cs| ==> Le(b, cs[k].line)
    ensures forall y :: y in Pendings(cs) ==> Le(b, y)
  {
    if |cs| > 0 {
      PendingsLowerBound(cs[1..], b);
      PendingFromLine(cs[0]);
      forall y | y in Pending(cs[0]) ensures Le(b, y) {
        LeTransitive(b, cs[0].line, y);
      }
    }
  }

  /** When every file is sorted, the merge writes its lines in order. */
  lemma {:induction false} MergeLinesSorted(cs: seq<Cursor>)
    requires AllSorted(cs)
    ensures Sorted(MergeLines(cs))
    decreases |Pendings(cs)|
  {
    if |cs| > 0 {
      var i := MinIndex(cs);
      var next := Advance(cs, i);
      var t := MergeLines(next);
      MergeLinesSorted(next);
      assert forall y :: y in t ==> Le(cs[i].line, y) by {
        var p := Pendings(cs);
        var q := Pendings(next);
        assert multiset(q) + multiset{cs[i].line} == multiset(p);
        assert multiset(t) == multiset(q);
        PendingsLowerBound(cs, cs[i].line);
        forall y | y in t ensures y in p {
          assert multiset(t)[y] > 0;
          assert multiset(p)[y] > 0;
        }
      }
      SortedCons(cs[i].line, t);
    }
  }

  lemma SortedCons(m: string, t: seq<string>)
    requires Sorted(t)
    requires forall y :: y in t ==> Le(m, y)
    ensures Sorted([m] + t)
  {
    var out := [m] + t;
    forall a, b | 0 <= a < b < |out| ensures Le(out[a], out[b]) {
      assert out[b] == t[b - 1];
      if a > 0 {
        assert out[a] == t[a - 1];
      }
    }
  }

  /** A run file written by `Serialise` contributes exactly its lines, except
      that an empty run contributes one empty line. */
  lemma OpenSerialised(lines: seq<string>)
    requires NoCR(lines)
    ensures Pending(Open(Serialise(lines))) == if lines == [] then [[]] else lines
    ensures Exhausted(Open(Serialise(lines))) <==> lines == []
  {
    ReadsOfSerialised(lines);
    PendingOfReads(Open(Serialise(lines)), lines);
  }

  /** A file whose reads are `lines` and then the empty one. */
  lemma PendingOfReads(c: Cursor, lines: seq<string>)
    requires [c.line] + c.rest == lines + [[]]
    ensures Pending(c) == if lines == [] then [[]] else lines
    ensures c.rest == [] <==> lines == []
  {
    if lines != [] {
      assert c.line == ([c.line] + c.rest)[0] == (lines + [[]])[0] == lines[0];
      assert c.rest == lines[1..] + [[]] by {
        assert c.rest == ([c.line] + c.rest)[1..];
      }
      if |c.rest| > 1 {
        assert c.rest[..|c.rest| - 1] == lines[1..];
      }
      assert lines == [lines[0]] + lines[1..];
    } else {
      assert c.rest == ([c.line] + c.rest)[1..];
    }
  }
}
