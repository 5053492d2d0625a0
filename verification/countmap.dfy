/**
  The per-chunk count map of `merge_sort`: a `std::map` from record to
  occurrence count, ordered by the record order.

  It is modelled as a sequence of entries kept in strictly ascending record
  order, which is what iterating the `std::map` from `begin()` to `end()`
  yields.
 */
module CountMap {
  import opened LexOrder
  import opened Lines

  datatype Entry = Entry(rec: string, count: nat)

  /** Strictly ascending records (one entry per equivalence class), each
      counted at least once. */
  predicate Valid(m: seq<Entry>)
  {
    && (forall i, j :: 0 <= i < j < |m| ==> Less(m[i].rec, m[j].rec))
    && (forall i :: 0 <= i < |m| ==> m[i].count >= 1)
  }

  function Keys(m: seq<Entry>): set<string>
  {
    set i | 0 <= i < |m| :: m[i].rec
  }

  lemma KeysCons(e: Entry, m: seq<Entry>)
    ensures Keys([e] + m) == {e.rec} + Keys(m)
  {
    var m' := [e] + m;
    assert m'[0].rec == e.rec;
    forall x | x in Keys(m) ensures x in Keys(m') {
      var i :| 0 <= i < |m| && m[i].rec == x;
      assert m'[i + 1].rec == x;
    }
    forall x | x in Keys(m') ensures x == e.rec || x in Keys(m) {
      var i :| 0 <= i < |m'| && m'[i].rec == x;
      if i > 0 {
        assert m[i - 1].rec == x;
      }
    }
  }

  /** The count the map holds for the equivalence class of `x` (0 if absent). */
  function CountOf(m: seq<Entry>, x: string): nat
  {
    if |m| == 0 then 0
    else (if Equivalent(m[0].rec, x) then m[0].count else 0) + CountOf(m[1..], x)
  }

  /** Putting an entry in front of a valid map whose records all follow it. */
  lemma ConsValid(e: Entry, m: seq<Entry>)
    requires Valid(m) && e.count >= 1
    requires forall y :: y in Keys(m) ==> Less(e.rec, y)
    ensures Valid([e] + m)
    ensures forall x :: CountOf([e] + m, x) == (if Equivalent(e.rec, x) then e.count else 0) + CountOf(m, x)
  {
    var m' := [e] + m;
    assert m'[1..] == m;
    forall j | 1 <= j < |m'|
      ensures Less(e.rec, m'[j].rec)
    {
      assert m'[j].rec == m[j - 1].rec;
      assert m[j - 1].rec in Keys(m);
    }
  }

  /** `++lines.insert(std::make_pair(record, 0U)).first->second`: when an
      equivalent key is present its count goes up by one and the key already
      stored (the first-inserted representative) is kept; otherwise the record
      is inserted in order with count 1. */
  function Insert(m: seq<Entry>, r: string): (m': seq<Entry>)
    requires Valid(m)
    ensures Valid(m')
    ensures Keys(m') == Keys(m) + {r}
    ensures forall x :: CountOf(m', x) == CountOf(m, x) + (if Equivalent(x, r) then 1 else 0)
  {
    if |m| == 0 then
      assert [Entry(r, 1)][0].rec == r;
      [Entry(r, 1)]
    else if Less(r, m[0].rec) then
      InsertedBefore(m, r);
      [Entry(r, 1)] + m
    else if !Less(m[0].rec, r) then
      EquivalentIsEqual(m[0].rec, r);
      BumpedValid(m);
      CountBumped(m, r);
      [Entry(m[0].rec, m[0].count + 1)] + m[1..]
    else
      var tail := Insert(m[1..], r);
      InsertedAfter(m, r, tail);
      [m[0]] + tail
  }

  lemma InsertedBefore(m: seq<Entry>, r: string)
    requires Valid(m) && |m| > 0 && Less(r, m[0].rec)
    ensures Valid([Entry(r, 1)] + m)
    ensures Keys([Entry(r, 1)] + m) == Keys(m) + {r}
    ensures forall x :: CountOf([Entry(r, 1)] + m, x) == CountOf(m, x) + (if Equivalent(x, r) then 1 else 0)
  {
    forall y | y in Keys(m) ensures Less(r, y) {
      var i :| 0 <= i < |m| && m[i].rec == y;
      if i > 0 {
        LessTransitive(r, m[0].rec, y);
      }
    }
    ConsValid(Entry(r, 1), m);
    KeysCons(Entry(r, 1), m);
  }

  /** Bumping the count of the first entry keeps the map valid and its keys. */
  lemma BumpedValid(m: seq<Entry>)
    requires Valid(m) && |m| > 0
    ensures Valid([Entry(m[0].rec, m[0].count + 1)] + m[1..])
    ensures Keys([Entry(m[0].rec, m[0].count + 1)] + m[1..]) == Keys(m)
  {
    var e := Entry(m[0].rec, m[0].count + 1);
    var m' := [e] + m[1..];
    forall j | 1 <= j < |m'| ensures Less(e.rec, m'[j].rec) {
      assert m'[j] == m[j];
    }
    KeysCons(e, m[1..]);
    KeysCons(m[0], m[1..]);
    assert m == [m[0]] + m[1..];
  }

  lemma CountBumped(m: seq<Entry>, r: string)
    requires |m| > 0 && m[0].rec == r
    ensures forall x :: CountOf([Entry(m[0].rec, m[0].count + 1)] + m[1..], x)
                        == CountOf(m, x) + (if Equivalent(x, r) then 1 else 0)
  {
    forall x ensures CountOf([Entry(m[0].rec, m[0].count + 1)] + m[1..], x)
                     == CountOf(m, x) + (if Equivalent(x, r) then 1 else 0) {
      CountOfCons(Entry(m[0].rec, m[0].count + 1), m[1..], x);
      assert Equivalent(x, r) == Equivalent(r, x);
    }
  }

  lemma CountOfCons(e: Entry, m: seq<Entry>, x: string)
    ensures CountOf([e] + m, x) == (if Equivalent(e.rec, x) then e.count else 0) + CountOf(m, x)
  {
    assert ([e] + m)[1..] == m;
  }

  lemma InsertedAfter(m: seq<Entry>, r: string, tail: seq<Entry>)
    requires Valid(m) && |m| > 0 && Less(m[0].rec, r)
    requires Valid(tail) && Keys(tail) == Keys(m[1..]) + {r}
    requires forall x :: CountOf(tail, x) == CountOf(m[1..], x) + (if Equivalent(x, r) then 1 else 0)
    ensures Valid([m[0]] + tail)
    ensures Keys([m[0]] + tail) == Keys(m) + {r}
    ensures forall x :: CountOf([m[0]] + tail, x) == CountOf(m, x) + (if Equivalent(x, r) then 1 else 0)
  {
    FrontLessTail(m, r, tail);
    ConsValid(m[0], tail);
    KeysCons(m[0], tail);
    KeysCons(m[0], m[1..]);
    assert m == [m[0]] + m[1..];
    forall x ensures CountOf([m[0]] + tail, x) == CountOf(m, x) + (if Equivalent(x, r) then 1 else 0) {
      CountOfCons(m[0], tail, x);
      CountOfCons(m[0], m[1..], x);
    }
  }

  /** The first record precedes every key of the tail it is put back on. */
  lemma FrontLessTail(m: seq<Entry>, r: string, tail: seq<Entry>)
    requires Valid(m) && |m| > 0 && Less(m[0].rec, r)
    requires Keys(tail) == Keys(m[1..]) + {r}
    ensures forall y :: y in Keys(tail) ==> Less(m[0].rec, y)
  {
    forall y | y in Keys(tail) ensures Less(m[0].rec, y) {
      if y != r {
        var i :| 0 <= i < |m[1..]| && m[1..][i].rec == y;
        assert m[i + 1].rec == y;
      }
    }
  }

  /** `n` copies of `x`. */
  function Repeat(x: string, n: nat): (r: seq<string>)
    ensures |r| == n
    ensures forall i :: 0 <= i < n ==> r[i] == x
  {
    if n == 0 then [] else [x] + Repeat(x, n - 1)
  }

  /** The run a chunk flushes: every record in map order, written as many
      times as it was counted. */
  function Expand(m: seq<Entry>): (r: seq<string>)
    ensures forall i :: 0 <= i < |r| ==> r[i] in Keys(m)
  {
    if |m| == 0 then []
    else
      var tail := Expand(m[1..]);
      KeysCons(m[0], m[1..]);
      assert m == [m[0]] + m[1..];
      Repeat(m[0].rec, m[0].count) + tail
  }

  /** Expanding a map split in two expands each part in turn. */
  lemma {:induction false} ExpandAppend(a: seq<Entry>, b: seq<Entry>)
    ensures Expand(a + b) == Expand(a) + Expand(b)
  {
    if |a| == 0 {
      assert a + b == b;
    } else {
      assert (a + b)[0] == a[0];
      assert (a + b)[1..] == a[1..] + b;
      ExpandAppend(a[1..], b);
    }
  }

  /** The chunk's read loop: blank lines are skipped, every other line is
      parsed (identity) and counted. */
  function Fill(m: seq<Entry>, lines: seq<string>): (m': seq<Entry>)
    requires Valid(m)
    ensures Valid(m')
    ensures forall x :: CountOf(m', x) == CountOf(m, x) + multiset(NonBlank(lines))[x]
    decreases |lines|
  {
    if |lines| == 0 then m
    else if |lines[0]| == 0 then
      assert NonBlank(lines) == NonBlank(lines[1..]);
      Fill(m, lines[1..])
    else
      assert NonBlank(lines) == [lines[0]] + NonBlank(lines[1..]);
      forall x ensures Equivalent(x, lines[0]) <==> x == lines[0] {
        EquivalentIsEqual(x, lines[0]);
      }
      Fill(Insert(m, lines[0]), lines[1..])
  }

  lemma {:induction false} RepeatSorted(x: string, n: nat)
    ensures Sorted(Repeat(x, n))
  {
    LeReflexive(x);
  }

  /** A valid map expands to a sorted run. */
  lemma {:induction false} ExpandSorted(m: seq<Entry>)
    requires Valid(m)
    ensures Sorted(Expand(m))
  {
    if |m| > 0 {
      var head := Repeat(m[0].rec, m[0].count);
      var tail := Expand(m[1..]);
      ExpandSorted(m[1..]);
      RepeatSorted(m[0].rec, m[0].count);
      forall j | 0 <= j < |tail|
        ensures Le(m[0].rec, tail[j])
      {
        assert tail[j] in Keys(m[1..]);
        LessImpliesLe(m[0].rec, tail[j]);
      }
      var r := head + tail;
      forall i, j | 0 <= i < j < |r|
        ensures Le(r[i], r[j])
      {
        if j >= |head| && i < |head| {
          assert r[j] == tail[j - |head|];
        }
      }
    }
  }

  lemma {:induction false} RepeatMultiset(x: string, n: nat)
    ensures multiset(Repeat(x, n)) == multiset{}[x := n]
  {
    if n > 0 {
      RepeatMultiset(x, n - 1);
    }
  }

  /** Each record occurs in the expanded run exactly as often as it was counted. */
  lemma {:induction false} ExpandCounts(m: seq<Entry>, x: string)
    ensures multiset(Expand(m))[x] == CountOf(m, x)
  {
    if |m| > 0 {
      ExpandCounts(m[1..], x);
      RepeatMultiset(m[0].rec, m[0].count);
      EquivalentIsEqual(m[0].rec, x);
    }
  }

  /** The map a chunk builds from an empty `std::map`. */
  function ChunkMap(chunk: seq<string>): seq<Entry>
  {
    Fill([], chunk)
  }

  /** The chunk's map is a valid map holding each non-blank line of the chunk
      as many times as it occurs. */
  lemma ChunkMapCounts(chunk: seq<string>)
    ensures Valid(ChunkMap(chunk))
    ensures forall x :: CountOf(ChunkMap(chunk), x) == multiset(NonBlank(chunk))[x]
  {
  }

  /** The lines of the run file a chunk is flushed to. */
  function RunLines(chunk: seq<string>): seq<string>
  {
    Expand(ChunkMap(chunk))
  }

  /** A run is sorted, holds no blank line, and is a permutation of the
      chunk's non-blank lines. */
  lemma RunLinesSpec(chunk: seq<string>)
    ensures Sorted(RunLines(chunk))
    ensures multiset(RunLines(chunk)) == multiset(NonBlank(chunk))
    ensures forall i :: 0 <= i < |RunLines(chunk)| ==> RunLines(chunk)[i] != []
  {
    var m := ChunkMap(chunk);
    var r := Expand(m);
    ChunkMapCounts(chunk);
    ExpandSorted(m);
    forall x ensures multiset(r)[x] == multiset(NonBlank(chunk))[x] {
      ExpandCounts(m, x);
    }
    assert multiset(r) == multiset(NonBlank(chunk));
    forall i | 0 <= i < |r| ensures r[i] != [] {
      assert r[i] in multiset(NonBlank(chunk));
    }
  }
}
