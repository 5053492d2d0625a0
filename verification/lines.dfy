/**
  Files as text, and the carriage-return line format the sort engine reads and
  writes.

  A file's content is a sequence of characters. Reading it line by line with
  `std::getline(stream, line, '\r')` is modelled by `GetLine`, and the whole
  series of lines one gets until the end-of-file flag is set is `Reads`.
  Writing a record is writing its text followed by `'\r'` (`Serialise`).
 */
module Lines {

  const CR: char := '\r'

  /** No line of `ls` holds the delimiter (true of everything `getline` returns). */
  predicate NoCR(ls: seq<string>)
  {
    forall i :: 0 <= i < |ls| ==> CR !in ls[i]
  }

  /** What one `getline(…, '\r')` call returns: the line, what is left of the
      stream, and whether the end-of-file flag is now set. */
  datatype Got = Got(line: string, rest: seq<char>, eof: bool)

  /** One `std::getline(stream, line, '\r')`. Characters are extracted up to the
      delimiter, which is consumed and not stored; reaching the end of the
      stream first sets the end-of-file flag (on an empty stream nothing is
      extracted and the line is empty). */
  function GetLine(c: seq<char>): (g: Got)
    ensures CR !in g.line
    ensures g.eof <==> CR !in c
    ensures g.eof ==> g.line == c && g.rest == []
    ensures !g.eof ==> c == g.line + [CR] + g.rest
  {
    if |c| == 0 then Got([], [], true)
    else if c[0] == CR then Got([], c[1..], false)
    else
      var g := GetLine(c[1..]);
      assert c == [c[0]] + c[1..];
      Got([c[0]] + g.line, g.rest, g.eof)
  }

  /** The lines successive `getline` calls return, up to and including the call
      that sets the end-of-file flag. There is always at least one. */
  function Reads(c: seq<char>): (r: seq<string>)
    ensures |r| >= 1
    ensures NoCR(r)
    decreases |c|
  {
    var g := GetLine(c);
    if g.eof then [g.line] else [g.line] + Reads(g.rest)
  }

  /** Writing each line followed by `'\r'`, as `file << record << "\r"` does. */
  function Serialise(lines: seq<string>): seq<char>
  {
    if |lines| == 0 then [] else lines[0] + [CR] + Serialise(lines[1..])
  }

  /** The delimited lines of a file: every read except the one that hit the end. */
  function Records(c: seq<char>): (r: seq<string>)
    ensures NoCR(r)
  {
    var rs := Reads(c);
    rs[..|rs| - 1]
  }

  /** The lines that are not empty, in order. */
  function NonBlank(ls: seq<string>): (r: seq<string>)
    ensures |r| <= |ls|
    ensures forall i :: 0 <= i < |r| ==> r[i] != [] && r[i] in ls
  {
    if |ls| == 0 then []
    else (if |ls[0]| == 0 then [] else [ls[0]]) + NonBlank(ls[1..])
  }

  /** The concatenation of a sequence of sequences. */
  function Flatten<T>(ss: seq<seq<T>>): seq<T>
  {
    if |ss| == 0 then [] else ss[0] + Flatten(ss[1..])
  }

  lemma {:induction false} GetLineOfSerialised(line: string, tail: seq<char>)
    requires CR !in line
    ensures GetLine(line + [CR] + tail) == Got(line, tail, false)
  {
    var c := line + [CR] + tail;
    if |line| > 0 {
      assert c[1..] == line[1..] + [CR] + tail;
      GetLineOfSerialised(line[1..], tail);
      assert [line[0]] + line[1..] == line;
    } else {
      assert c[1..] == tail;
    }
  }

  /** Reading back what `Serialise` wrote gives the lines, then the empty read
      that sets the end-of-file flag. */
  lemma {:induction false} ReadsOfSerialised(lines: seq<string>)
    requires NoCR(lines)
    ensures Reads(Serialise(lines)) == lines + [[]]
  {
    if |lines| > 0 {
      var tail := Serialise(lines[1..]);
      SerialiseCons(lines[0], lines[1..]);
      assert lines == [lines[0]] + lines[1..];
      ReadsOfDelimited(lines[0], tail);
      assert NoCR(lines[1..]) by {
        assert forall i :: 0 <= i < |lines| - 1 ==> lines[1..][i] == lines[i + 1];
      }
      ReadsOfSerialised(lines[1..]);
    }
  }

  /** The records of a file written by `Serialise` are exactly the lines written. */
  lemma RecordsOfSerialised(lines: seq<string>)
    requires NoCR(lines)
    ensures Records(Serialise(lines)) == lines
  {
    ReadsOfSerialised(lines);
  }

  /** Conversely, any file is its records, each followed by `'\r'`, then the
      undelimited text after the last delimiter. */
  lemma {:induction false} SerialisedRecords(c: seq<char>)
    ensures Serialise(Records(c)) + Reads(c)[|Reads(c)| - 1] == c
    decreases |c|
  {
    var g := GetLine(c);
    if !g.eof {
      SerialisedRecords(g.rest);
      ReadsOfLine(c);
      SerialiseCons(g.line, Records(g.rest));
      Regroup(g.line + [CR], Serialise(Records(g.rest)), Reads(g.rest)[|Reads(g.rest)| - 1]);
    }
  }

  lemma Regroup(a: seq<char>, b: seq<char>, x: seq<char>)
    ensures (a + b) + x == a + (b + x)
  {
  }

  /** A line followed by the delimiter is read first, then what follows. */
  lemma ReadsOfDelimited(line: string, tail: seq<char>)
    requires CR !in line
    ensures Reads(line + [CR] + tail) == [line] + Reads(tail)
  {
    GetLineOfSerialised(line, tail);
    ReadsOfLine(line + [CR] + tail);
  }

  /** A read that finds the delimiter comes in front of the reads, and of the
      records, of what follows it. */
  lemma ReadsOfLine(c: seq<char>)
    requires !GetLine(c).eof
    ensures Reads(c) == [GetLine(c).line] + Reads(GetLine(c).rest)
    ensures Records(c) == [GetLine(c).line] + Records(GetLine(c).rest)
    ensures Reads(c)[|Reads(c)| - 1] == Reads(GetLine(c).rest)[|Reads(GetLine(c).rest)| - 1]
  {
    var g := GetLine(c);
    var rs := Reads(g.rest);
    assert ([g.line] + rs)[..|rs|] == [g.line] + rs[..|rs| - 1];
  }

  lemma SerialiseCons(line: string, tail: seq<string>)
    ensures Serialise([line] + tail) == line + [CR] + Serialise(tail)
  {
    assert ([line] + tail)[1..] == tail;
  }

  /** Writing two lists of lines one after the other writes their concatenation. */
  lemma {:induction false} SerialiseAppend(a: seq<string>, b: seq<string>)
    ensures Serialise(a + b) == Serialise(a) + Serialise(b)
  {
    if |a| == 0 {
      assert a + b == b;
    } else {
      assert (a + b)[0] == a[0];
      assert (a + b)[1..] == a[1..] + b;
      SerialiseAppend(a[1..], b);
    }
  }

  lemma {:induction false} NonBlankAppend(a: seq<string>, b: seq<string>)
    ensures NonBlank(a + b) == NonBlank(a) + NonBlank(b)
  {
    if |a| > 0 {
      assert (a + b)[1..] == a[1..] + b;
      NonBlankAppend(a[1..], b);
    } else {
      assert a + b == b;
    }
  }

  /** Dropping blank lines removes every copy of the empty line and nothing else. */
  lemma {:induction false} NonBlankMultiset(ls: seq<string>)
    ensures multiset(NonBlank(ls)) == multiset(ls)[[] := 0]
  {
    if |ls| > 0 {
      NonBlankMultiset(ls[1..]);
      assert ls == [ls[0]] + ls[1..];
      assert multiset(ls) == multiset{ls[0]} + multiset(ls[1..]);
    }
  }

  /** A sequence with no blank line is its own non-blank part. */
  lemma {:induction false} NonBlankOfNonBlank(ls: seq<string>)
    requires forall i :: 0 <= i < |ls| ==> ls[i] != []
    ensures NonBlank(ls) == ls
  {
    if |ls| > 0 {
      NonBlankOfNonBlank(ls[1..]);
      assert ls == [ls[0]] + ls[1..];
    }
  }

  /** Reordering lines keeps them free of the delimiter. */
  lemma NoCRPermutation(a: seq<string>, b: seq<string>)
    requires NoCR(b) && multiset(a) == multiset(b)
    ensures NoCR(a)
  {
    forall i | 0 <= i < |a| ensures CR !in a[i] {
      assert multiset(b)[a[i]] > 0;
      var j :| 0 <= j < |b| && b[j] == a[i];
    }
  }
}
