/** An image written through the buffer and read back through the buffer. */
module BufferedFile {
  import opened Bytes
  import opened FullIo
  import BufferedReader
  import BufferedWriter

  type Line = BufferedReader.Line

  /** Piece i is no longer than asked for, and if shorter it ends s. */
  ghost predicate FullOrLast(s: seq<Byte>, sizes: seq<nat>, pieces: seq<seq<Byte>>, i: nat)
    requires i < |pieces| <= |sizes|
  {
    |pieces[i]| == sizes[i] || (|pieces[i]| < sizes[i] && Concat(pieces[..i + 1]) == s)
  }

  /** The pieces are consecutive parts of s from its start. */
  ghost predicate Consecutive(s: seq<Byte>, sizes: seq<nat>, pieces: seq<seq<Byte>>) {
    && |pieces| <= |sizes| && Concat(pieces) <= s
    && forall i {:trigger FullOrLast(s, sizes, pieces, i)} :: 0 <= i < |pieces| ==> FullOrLast(s, sizes, pieces, i)
  }

  lemma Onward(s: seq<Byte>, pieces: seq<seq<Byte>>, p: seq<Byte>, rest: seq<Byte>)
    requires Concat(pieces) + (p + rest) == s
    ensures Concat(pieces + [p]) + rest == s && Concat(pieces + [p]) <= s
  {
    ConcatAppend(pieces, p);
    assert Concat(pieces) + (p + rest) == Concat(pieces + [p]) + rest;
  }

  lemma StillFullOrLast(s: seq<Byte>, sizes: seq<nat>, pieces: seq<seq<Byte>>, p: seq<Byte>, i: nat)
    requires i < |pieces| < |sizes| && FullOrLast(s, sizes, pieces, i)
    ensures FullOrLast(s, sizes, pieces + [p], i)
  {
    assert (pieces + [p])[..i + 1] == pieces[..i + 1];
  }

  lemma NewFullOrLast(s: seq<Byte>, sizes: seq<nat>, pieces: seq<seq<Byte>>, p: seq<Byte>, rest: seq<Byte>)
    requires |pieces| < |sizes| && Concat(pieces + [p]) + rest == s
    requires |p| == sizes[|pieces|] || (|p| < sizes[|pieces|] && rest == [])
    ensures FullOrLast(s, sizes, pieces + [p], |pieces|)
  {
    assert (pieces + [p])[..|pieces| + 1] == pieces + [p];
    assert Concat(pieces + [p]) + [] == Concat(pieces + [p]);
  }

  lemma ConsecutiveGrows(s: seq<Byte>, sizes: seq<nat>, pieces: seq<seq<Byte>>, p: seq<Byte>, rest: seq<Byte>)
    requires Consecutive(s, sizes, pieces) && |pieces| < |sizes|
    requires Concat(pieces) + (p + rest) == s
    requires |p| == sizes[|pieces|] || (|p| < sizes[|pieces|] && rest == [])
    ensures Consecutive(s, sizes, pieces + [p]) && Concat(pieces + [p]) + rest == s
  {
    Onward(s, pieces, p, rest);
    NewFullOrLast(s, sizes, pieces, p, rest);
    forall i | 0 <= i < |pieces| ensures FullOrLast(s, sizes, pieces + [p], i) {
      StillFullOrLast(s, sizes, pieces, p, i);
    }
  }

  /** `bwritev` for each record and `bflush` put all records on the file. */
  method WriteAndFlush(records: seq<seq<seq<Byte>>>, io: nat -> Call) returns (ok: bool, file: seq<Byte>)
    ensures ok ==> file == BufferedWriter.AllRecords(records)
    ensures (forall j :: io(j).Moves?) ==> ok
  {
    var w := new BufferedWriter.Writer(io);
    var i := 0;
    while i < |records|
      invariant 0 <= i <= |records| && w.Valid() && fresh(w) && fresh(w.mem) && w.io == io
      invariant w.Stream() == BufferedWriter.AllRecords(records[..i])
    {
      var r := w.AppendRecord(records[i]);
      if r < 0 {
        return false, [];
      }
      BufferedWriter.AllRecordsAppend(records[..i], records[i]);
      assert records[..i + 1] == records[..i] + [records[i]];
      i := i + 1;
    }
    assert records[..i] == records;
    RunMeans(w.io, w.calls, w.sz, w.sz);
    var r := w.Flush();
    return r == 0, w.file;
  }

  /** Written, flushed, and read back with any sizes: the same bytes in the same order;
      and if no call fails it succeeds. */
  method WriteThenRead(records: seq<seq<seq<Byte>>>, sizes: seq<nat>, wio: nat -> Call, rio: nat -> Call)
    returns (ok: bool, pieces: seq<seq<Byte>>)
    ensures (forall j :: wio(j).Moves?) && (forall j :: rio(j).Moves?) ==> ok
    ensures ok ==> |pieces| == |sizes| && Consecutive(BufferedWriter.AllRecords(records), sizes, pieces)
  {
    var file;
    pieces := [];
    ok, file := WriteAndFlush(records, wio);
    if !ok {
      return;
    }
    var b := new BufferedReader.Reader(file, rio);
    while |pieces| < |sizes|
      invariant |pieces| <= |sizes| && b.Valid() && fresh(b) && fresh(b.mem) && b.io == rio
      invariant Consecutive(file, sizes, pieces) && Concat(pieces) + b.Rest() == file
    {
      var good, p := b.Bread(sizes[|pieces|]);
      if !good {
        return false, pieces;
      }
      ConsecutiveGrows(file, sizes, pieces, p, b.Rest());
      pieces := pieces + [p];
    }
  }

  /** Of all the lines, those read so far come before those of what is left. */
  ghost predicate Onwards(all: seq<Line>, c: Byte, lines: seq<Line>, rest: seq<Byte>) {
    all == lines + BufferedReader.LinesOf(rest, c)
  }

  lemma OneMoreLine(all: seq<Line>, c: Byte, lines: seq<Line>, rest: seq<Byte>)
    requires Onwards(all, c, lines, rest)
    ensures var line := BufferedReader.NextLine(rest, c);
      if line.Text? then Onwards(all, c, lines + [line], BufferedReader.AfterLine(rest, c)) else all == lines + [line]
  {
    var line, after := BufferedReader.NextLine(rest, c), BufferedReader.AfterLine(rest, c);
    BufferedReader.LinesUnfold(rest, c);
    if line.Text? { Reassociate(lines, [line], BufferedReader.LinesOf(after, c)); }
  }

  method ReadLine(b: BufferedReader.Reader, c: Byte, ghost all: seq<Line>, ghost lines: seq<Line>)
    returns (line: Line)
    requires b.Valid() && Onwards(all, c, lines, b.Rest())
    modifies b, b.mem
    ensures b.Valid()
    ensures line.Text? ==> Onwards(all, c, lines + [line], b.Rest()) && |b.Rest()| < |old(b.Rest())|
    ensures !line.Text? && line != BufferedReader.ReadError ==> all == lines + [line]
    ensures line == BufferedReader.ReadError ==> lines <= all && exists j: nat :: b.io(j).Fails?
  {
    OneMoreLine(all, c, lines, b.Rest());
    BufferedReader.TextShortens(b.Rest(), c);
    line := b.BreadChr(c);
  }

  /** `breadchr` until it returns something that is no line: the lines of the file, all
      of them unless a read fails. */
  method ReadLines(contents: seq<Byte>, c: Byte, io: nat -> Call) returns (lines: seq<Line>)
    ensures |lines| > 0
    ensures Last(lines) != BufferedReader.ReadError ==> lines == BufferedReader.LinesOf(contents, c)
    ensures Last(lines) == BufferedReader.ReadError ==> AllButLast(lines) <= BufferedReader.LinesOf(contents, c)
    ensures (forall j :: io(j).Moves?) ==> Last(lines) != BufferedReader.ReadError
  {
    var b := new BufferedReader.Reader(contents, io);
    ghost var all := BufferedReader.LinesOf(contents, c);
    lines := [];
    while true
      invariant b.Valid() && fresh(b) && fresh(b.mem) && b.io == io
      invariant Onwards(all, c, lines, b.Rest())
      decreases |b.Rest()|
    {
      var line := ReadLine(b, c, all, lines);
      AppendLast(lines, line);
      lines := lines + [line];
      if !line.Text? {
        return;
      }
    }
  }

  function Last(lines: seq<Line>): Line
    requires |lines| > 0
  {
    lines[|lines| - 1]
  }

  function AllButLast(lines: seq<Line>): seq<Line>
    requires |lines| > 0
  {
    lines[..|lines| - 1]
  }

  lemma AppendLast(lines: seq<Line>, line: Line)
    ensures Last(lines + [line]) == line && AllButLast(lines + [line]) == lines
  {}
}
