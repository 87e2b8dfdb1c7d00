/** Reading through the one-page buffer of `bfd.c`, against a plain byte stream. */
module BufferedReader {

  import opened Bytes
  import opened FullIo
  import BufferPool

  const BUFSIZE: nat := BufferPool.BUFSIZE

  /** What `breadchr` returns: NULL, a piece without its delimiter, or ERR_PTR(-EIO)
      for a line that cannot fit or a failed read. */
  datatype Line = EndOfFile | Text(bytes: seq<Byte>) | TooLong | ReadError

  /** c is at none of the places [i, j) of s. */
  ghost predicate Absent(s: seq<Byte>, c: Byte, i: nat, j: nat) {
    j <= |s| && forall k :: i <= k < j ==> s[k] != c
  }

  /** Index of the first c, or the length. */
  function IndexOf(s: seq<Byte>, c: Byte): (k: nat)
    ensures Absent(s, c, 0, k) && (k < |s| ==> s[k] == c)
  {
    if s == [] || s[0] == c then 0 else 1 + IndexOf(s[1..], c)
  }

  lemma IndexOfUnique(s: seq<Byte>, c: Byte, k: nat)
    requires Absent(s, c, 0, k) && (k < |s| ==> s[k] == c)
    ensures IndexOf(s, c) == k
  {}

  /** The next piece of a plain byte stream, when nothing fails. */
  function NextLine(rest: seq<Byte>, c: Byte): Line {
    var k := IndexOf(rest, c);
    if k < |rest| && k < BUFSIZE then Text(rest[..k])
    else if rest == [] then EndOfFile
    else if |rest| < BUFSIZE then Text(rest)
    else TooLong
  }

  /** What is left after it. */
  function AfterLine(rest: seq<Byte>, c: Byte): seq<Byte> {
    var k := IndexOf(rest, c);
    if k < |rest| && k < BUFSIZE then rest[k + 1..]
    else if |rest| < BUFSIZE then []
    else rest
  }

  lemma LineFound(rest: seq<Byte>, c: Byte, k: nat)
    requires k < |rest| && k < BUFSIZE && Absent(rest, c, 0, k) && rest[k] == c
    ensures NextLine(rest, c) == Text(rest[..k]) && AfterLine(rest, c) == rest[k + 1..]
  {
    IndexOfUnique(rest, c, k);
  }

  lemma LineNotFound(rest: seq<Byte>, c: Byte, n: nat)
    requires n == (if |rest| < BUFSIZE then |rest| else BUFSIZE) && Absent(rest, c, 0, n)
    ensures NextLine(rest, c) == if n == 0 then EndOfFile else if n == BUFSIZE then TooLong else Text(rest)
    ensures AfterLine(rest, c) == if n == BUFSIZE then rest else []
  {}

  class Reader {
    const file: seq<Byte>       // contents behind the descriptor
    const io: nat -> Call       // what each read(2) does
    var calls: nat              // how many were made
    var pos: nat                // file offset
    const mem: array<Byte>
    var data: nat               // b->data - b->mem
    var sz: nat

    ghost predicate Valid()
      reads this, mem
    {
      mem.Length == BUFSIZE && data + sz <= BUFSIZE && pos <= |file|
    }

    ghost function Buffered(): seq<Byte>
      requires Valid()
      reads this, mem
    {
      mem[data..data + sz]
    }

    /** The bytes not yet handed out. */
    ghost function Rest(): seq<Byte>
      requires Valid()
      reads this, mem
    {
      Buffered() + file[pos..]
    }

    constructor (contents: seq<Byte>, calling: nat -> Call)
      ensures Valid() && fresh(mem) && Rest() == contents && file == contents && io == calling && calls == 0
    {
      file, io, calls := contents, calling, 0;
      mem := new Byte[BUFSIZE](_ => 0);
      pos, data, sz := 0, 0, 0;
    }

    /** Moves what is buffered to the front. */
    method Compact()
      requires Valid()
      modifies this`data, mem
      ensures Valid() && Buffered() == old(Buffered()) && data == 0
    {
      ghost var before := mem[data..data + sz];
      forall i | 0 <= i < sz {
        mem[i] := mem[data + i];
      }
      data := 0;
      assert mem[..sz] == before;
    }

    /** What the reads of one `read_all` put behind what is buffered. */
    method Store(n: nat)
      requires Valid() && data == 0 && sz + n <= BUFSIZE && pos + n <= |file|
      modifies this`pos, mem
      ensures Valid() && pos == old(pos) + n
      ensures mem[..sz + n] == old(mem[..sz]) + file[old(pos)..pos]
    {
      forall i | 0 <= i < n {
        mem[sz + i] := file[pos + i];
      }
      pos := pos + n;
    }

    /** The bytes stored become part of the buffer, or are dropped. */
    method Accept(n: nat, failed: bool)
      requires Valid() && data == 0 && sz + n <= BUFSIZE && pos + n <= |file|
      modifies this`pos, this`sz, mem
      ensures Valid() && pos == old(pos) + n
      ensures Buffered() == if failed then old(Buffered()) else old(Buffered()) + file[old(pos)..pos]
    {
      ghost var before := mem[..sz];
      assert before == Buffered();
      Store(n);
      assert mem[..sz] == before;
      if !failed {
        sz := sz + n;
      }
    }

    /** Reads behind a buffer that starts the page. */
    method FillPage() returns (r: Done)
      requires Valid() && data == 0
      modifies this`pos, this`sz, this`calls, mem
      ensures Valid() && r == Refilling(old(calls), old(sz), old(pos)) && calls == r.next && pos == old(pos) + r.moved
      ensures !r.failed ==> r.moved == Min(BUFSIZE - old(sz), |file| - old(pos))
      ensures Buffered() == if r.failed then old(Buffered()) else old(Buffered()) + file[old(pos)..pos]
    {
      r := TransferAll(io, calls, BUFSIZE - sz, |file| - pos);
      calls := r.next;
      Accept(r.moved, r.failed);
    }

    /** `brefill`: fills the rest of the page. If it fails, what `read_all` had already
        read of the file is gone and what was buffered stays. */
    method Refill() returns (ret: int)
      requires Valid()
      modifies this, mem
      ensures Valid() && data == 0
      ensures calls == Refilling(old(calls), old(sz), old(pos)).next
      ensures pos == old(pos) + Refilling(old(calls), old(sz), old(pos)).moved
      ensures ret == -1 <==> Refilling(old(calls), old(sz), old(pos)).failed
      ensures -1 <= ret <= 1 && (ret == 1 <==> ret != -1 && pos > old(pos))
      ensures ret == -1 ==> Buffered() == old(Buffered())
      ensures ret >= 0 ==> Rest() == old(Rest()) && sz == Min(|Rest()|, BUFSIZE)
    {
      Compact();
      ghost var before, from := Buffered(), pos;
      var r := FillPage();
      if r.failed {
        return -1;
      }
      Rejoin(before, file, from, pos);
      assert |Buffered()| == sz;
      return if r.moved == 0 then 0 else 1;
    }

    /** The calls of a refill of a page with `buffered` bytes at file offset `from`. */
    ghost function Refilling(k: nat, buffered: nat, from: nat): Done
      requires buffered <= BUFSIZE && from <= |file|
    {
      Run(io, k, BUFSIZE - buffered, |file| - from)
    }

    /** `strnchr`: index of the first c from ss on, or sz. */
    method Scan(ss: nat, c: Byte) returns (k: nat)
      requires Valid() && ss <= sz
      ensures ss <= k <= sz <= |Rest()| && Absent(Rest(), c, ss, k)
      ensures k < sz ==> Rest()[k] == c
    {
      k := ss;
      ghost var rest := Rest();
      while k < sz && mem[data + k] != c
        invariant ss <= k <= sz <= |rest| && Absent(rest, c, ss, k)
      {
        assert rest[k] == mem[data + k];
        k := k + 1;
      }
    }

    /** Hands out the piece that ends at buffered index k, where the delimiter is. */
    method Take(k: nat) returns (line: Line)
      requires Valid() && k < sz
      modifies this, mem
      ensures Valid() && |old(Rest())| > k && calls == old(calls)
      ensures line == Text(old(Rest())[..k]) && Rest() == old(Rest())[k + 1..]
    {
      line := Text(mem[data..data + k]);
      ghost var left := mem[data + k + 1..data + sz];
      assert Rest() == mem[data..data + k] + [mem[data + k]] + left + file[pos..];
      mem[data + k] := 0;
      data, sz := data + k + 1, sz - (k + 1);
      assert mem[data..data + sz] == left;
    }

    /** Hands out an unterminated last piece, which leaves room for its NUL. */
    method TakeTail() returns (line: Line)
      requires Valid() && data == 0 && sz < BUFSIZE && |Rest()| == sz
      modifies this, mem
      ensures Valid() && line == Text(old(Rest())) && Rest() == [] && calls == old(calls)
    {
      assert file[pos..] == [];
      line := Text(mem[..sz]);
      mem[data + sz] := 0;
      sz := 0;
    }

    /** `breadchr`: exactly the next piece of the plain stream; or an error, if and only
        if no delimiter was buffered and a read failed. Then the bytes that the failing
        refill had read are lost and nothing else. */
    method BreadChr(c: Byte) returns (line: Line)
      requires Valid()
      modifies this, mem
      ensures Valid()
      ensures line != ReadError ==> line == NextLine(old(Rest()), c) && Rest() == AfterLine(old(Rest()), c)
      ensures line == ReadError ==> AnyFails(io, old(calls), calls)
      ensures var r := Refilling(old(calls), old(sz), old(pos));
        && (line == ReadError <==> Absent(old(Rest()), c, 0, old(sz)) && r.failed)
        && (line == ReadError ==>
              old(pos) + r.moved <= |file| && Rest() == old(Buffered()) + file[old(pos) + r.moved..])
        && calls == if Absent(old(Rest()), c, 0, old(sz)) then r.next else old(calls)
    {
      ghost var rest := Rest();
      var k := Scan(0, c);
      if k < sz {
        LineFound(rest, c, k);
        line := Take(k);
        return;
      }
      var ss := sz;
      var r := Refill();
      if r < 0 {
        RunMeans(io, old(calls), BUFSIZE - old(sz), |file| - old(pos));
        return ReadError;
      }
      line := AfterRefill(ss, c);
    }

    /** The second half of `breadchr`: the first ss bytes hold no delimiter and the page
        is as full as the file allows. */
    method AfterRefill(ss: nat, c: Byte) returns (line: Line)
      requires Valid() && data == 0 && ss <= sz && sz == Min(|Rest()|, BUFSIZE)
      requires Absent(Rest(), c, 0, ss)
      modifies this, mem
      ensures Valid() && line == NextLine(old(Rest()), c) && Rest() == AfterLine(old(Rest()), c)
      ensures line != ReadError && calls == old(calls)
    {
      ghost var rest := Rest();
      var k := Scan(ss, c);
      if k < sz {
        LineFound(rest, c, k);
        line := Take(k);
        return;
      }
      LineNotFound(rest, c, sz);
      if sz == 0 {
        return EndOfFile;
      }
      if sz == BUFSIZE {
        return TooLong;
      }
      line := TakeTail();
    }

    /** Copies the next n buffered bytes out. */
    method CopyOut(n: nat) returns (out: seq<Byte>)
      requires Valid() && n <= sz
      modifies this
      ensures Valid() && |out| == n && sz == old(sz) - n && pos == old(pos) && calls == old(calls)
      ensures out + Rest() == old(Rest())
    {
      out := mem[data..data + n];
      assert mem[data..data + sz] == out + mem[data + n..data + sz];
      data, sz := data + n, sz - n;
    }

    method CopyMore(out: seq<Byte>, size: nat) returns (more: seq<Byte>)
      requires Valid() && |out| <= size
      modifies this
      ensures Valid() && more + Rest() == old(out + Rest()) && |more| <= size && pos == old(pos) && calls == old(calls)
      ensures |more| < size ==> sz == 0
    {
      var part := CopyOut(if size - |out| > sz then sz else size - |out|);
      Reassociate(out, part, Rest());
      more := out + part;
    }

    /** A refill of an empty page, in the terms of `bread`. */
    method RefillEmpty(ghost rest: seq<Byte>, ghost out: seq<Byte>) returns (ret: int)
      requires Valid() && sz == 0 && rest == out + Rest()
      modifies this, mem
      ensures Valid() && data == 0 && old(calls) <= calls && -1 <= ret <= 1
      ensures ret < 0 <==> AnyFails(io, old(calls), calls)
      ensures ret < 0 ==> LostBy(io, old(calls), rest, out, Rest(), calls)
      ensures ret >= 0 ==> rest == out + Rest() && sz == Min(|Rest()|, BUFSIZE)
      ensures ret == 1 <==> ret != -1 && pos > old(pos)
    {
      ghost var k, p := calls, pos;
      assert Rest() == file[p..];
      RunMeans(io, k, BUFSIZE, |file| - p);
      ret := Refill();
      if ret < 0 {
        assert Rest() == file[pos..];
        LostTail(io, k, rest, out, file, p);
      }
    }

    /** `bread`: the next bytes of the plain stream, fewer only at its end, unless a read
        fails; then what was copied and what is left lack what the failing refill read. */
    method Bread(size: nat) returns (ok: bool, out: seq<Byte>)
      requires Valid()
      modifies this, mem
      ensures Valid() && old(calls) <= calls && (!ok <==> AnyFails(io, old(calls), calls))
      ensures ok ==> out + Rest() == old(Rest()) && |out| == Min(|old(Rest())|, size)
      ensures !ok ==> exists k: nat :: k >= old(calls) && LostBy(io, k, old(Rest()), out, Rest(), calls)
    {
      ghost var rest := Rest();
      var more := 1;
      out := [];
      while more > 0
        invariant Valid() && |out| <= size && -1 <= more <= 1 && old(calls) <= calls
        invariant more >= 0 ==> out + Rest() == rest && !AnyFails(io, old(calls), calls)
        invariant more == 0 ==> |out| == Min(|rest|, size)
        invariant more < 0 ==> AnyFails(io, old(calls), calls)
        invariant more < 0 ==> exists k: nat :: k >= old(calls) && LostBy(io, k, rest, out, Rest(), calls)
        decreases more, |file| - pos
      {
        out := CopyMore(out, size);
        if |out| < size {
          ghost var k := calls;
          more := RefillEmpty(rest, out);
          FailsJoin(io, old(calls), k, calls);
        } else {
          more := 0;
        }
      }
      ok := more == 0;
    }
  }

  /** The call of `read_all` from read k on failed after the bytes out of rest were
      handed out; rest' is what can still be read. */
  ghost predicate LostBy(io: nat -> Call, k: nat, rest: seq<Byte>, out: seq<Byte>, rest': seq<Byte>, calls: nat) {
    && out <= rest
    && var r := Run(io, k, BUFSIZE, |rest| - |out|);
       r.failed && r.next == calls && rest' == rest[|out| + r.moved..]
  }

  lemma LostTail(io: nat -> Call, k: nat, rest: seq<Byte>, out: seq<Byte>, file: seq<Byte>, p: nat)
    requires p <= |file| && rest == out + file[p..] && Run(io, k, BUFSIZE, |file| - p).failed
    ensures var r := Run(io, k, BUFSIZE, |file| - p); LostBy(io, k, rest, out, file[p + r.moved..], r.next)
  {}

  /** Nothing is lost exactly when the first read of the failing refill fails. */
  lemma NothingLostExactly(
    io: nat -> Call, k: nat, rest: seq<Byte>, out: seq<Byte>, rest': seq<Byte>, calls: nat)
    requires LostBy(io, k, rest, out, rest', calls)
    ensures out + rest' == rest <==> io(k).Fails?
  {
    NothingMovedExactly(io, k, BUFSIZE, |rest| - |out|);
    assert out + rest[|out|..] == rest;
  }

  /** The same of `breadchr`, whose refill starts at read k behind the bytes buffered. */
  lemma NoLineLostExactly(io: nat -> Call, k: nat, buffered: seq<Byte>, file: seq<Byte>, pos: nat)
    requires |buffered| <= BUFSIZE && pos <= |file|
    requires Run(io, k, BUFSIZE - |buffered|, |file| - pos).failed
    ensures var r := Run(io, k, BUFSIZE - |buffered|, |file| - pos);
      buffered + file[pos + r.moved..] == buffered + file[pos..] <==> io(k).Fails?
  {
    NothingMovedExactly(io, k, BUFSIZE - |buffered|, |file| - pos);
    var r := Run(io, k, BUFSIZE - |buffered|, |file| - pos);
    assert |buffered + file[pos + r.moved..]| == |buffered| + |file| - pos - r.moved;
  }

  /** A hundred bytes and then an error: of a file of two hundred, one hundred are lost. */
  lemma BytesCanBeLost(file: seq<Byte>)
    requires |file| == 200
    ensures LostBy(k => if k == 0 then Moves(100) else Fails, 0, file, [], file[100..], 2)
  {
    var io := k => if k == 0 then Moves(100) else Fails;
    assert Run(io, 1, BUFSIZE - 100, 100) == Done(2, 0, true);
    assert Run(io, 0, BUFSIZE, 200) == Done(2, 100, true);
  }

  lemma Rejoin(before: seq<Byte>, file: seq<Byte>, from: nat, to: nat)
    requires from <= to <= |file|
    ensures (before + file[from..to]) + file[to..] == before + file[from..]
  {}

  // ----- The whole file -----

  /** The contents cut at every delimiter; a last piece may lack one. */
  function Split(s: seq<Byte>, c: Byte): seq<seq<Byte>>
    decreases |s|
  {
    if s == [] then []
    else
      var k := IndexOf(s, c);
      if k == |s| then [s] else [s[..k]] + Split(s[k + 1..], c)
  }

  /** Every terminated line fits the page with its delimiter, and the unterminated
      tail leaves room for a NUL. */
  predicate Fits(s: seq<Byte>, c: Byte)
    decreases |s|
  {
    s == [] ||
      var k := IndexOf(s, c);
      if k == |s| then |s| < BUFSIZE else k + 1 <= BUFSIZE && Fits(s[k + 1..], c)
  }

  /** What repeated `breadchr` calls return, up to the first NULL or error. */
  function LinesOf(rest: seq<Byte>, c: Byte): seq<Line>
    decreases |rest|
  {
    var line := NextLine(rest, c);
    if line.Text? && |AfterLine(rest, c)| < |rest| then [line] + LinesOf(AfterLine(rest, c), c) else [line]
  }

  lemma LinesUnfold(rest: seq<Byte>, c: Byte)
    ensures var line := NextLine(rest, c);
      LinesOf(rest, c) == if line.Text? then [line] + LinesOf(AfterLine(rest, c), c) else [line]
  {
    TextShortens(rest, c);
  }

  /** A line takes something off a stream. */
  lemma TextShortens(rest: seq<Byte>, c: Byte)
    ensures NextLine(rest, c).Text? ==> |AfterLine(rest, c)| < |rest|
  {}

  function Texts(ps: seq<seq<Byte>>): (r: seq<Line>)
    ensures |r| == |ps| && forall i :: 0 <= i < |ps| ==> r[i] == Text(ps[i])
  {
    seq(|ps|, i requires 0 <= i < |ps| => Text(ps[i]))
  }

  /** A line that fits comes first; the rest is read as if it were the file. */
  lemma ReadOne(s: seq<Byte>, c: Byte)
    requires IndexOf(s, c) < |s| && IndexOf(s, c) < BUFSIZE
    ensures LinesOf(s, c) == [Text(s[..IndexOf(s, c)])] + LinesOf(s[IndexOf(s, c) + 1..], c)
  {}

  lemma ReadTail(s: seq<Byte>, c: Byte)
    requires IndexOf(s, c) == |s| && 0 < |s| < BUFSIZE
    ensures LinesOf(s, c) == Texts([s]) + [EndOfFile]
  {
    assert LinesOf(s, c) == [Text(s)] + LinesOf([], c);
  }

  lemma TextsCons(p: seq<Byte>, ps: seq<seq<Byte>>)
    ensures Texts([p] + ps) + [EndOfFile] == [Text(p)] + (Texts(ps) + [EndOfFile])
  {}

  lemma {:induction false} FittingFile(s: seq<Byte>, c: Byte)
    requires Fits(s, c)
    ensures LinesOf(s, c) == Texts(Split(s, c)) + [EndOfFile]
    decreases |s|
  {
    if s != [] {
      var k := IndexOf(s, c);
      if k < |s| {
        FittingFile(s[k + 1..], c);
        ReadOne(s, c);
        TextsCons(s[..k], Split(s[k + 1..], c));
      } else {
        ReadTail(s, c);
      }
    }
  }

  lemma {:induction false} UnfittingFile(s: seq<Byte>, c: Byte)
    requires !Fits(s, c)
    ensures LinesOf(s, c)[|LinesOf(s, c)| - 1] == TooLong
    decreases |s|
  {
    var k := IndexOf(s, c);
    if k < |s| && k < BUFSIZE {
      UnfittingFile(s[k + 1..], c);
      ReadOne(s, c);
    }
  }

  /** Repeated reads return exactly the pieces of the file and then NULL if and only
      if the file fits; otherwise they end in the error. */
  lemma LinesAreSplit(s: seq<Byte>, c: Byte)
    ensures Fits(s, c) <==> LinesOf(s, c) == Texts(Split(s, c)) + [EndOfFile]
    ensures !Fits(s, c) <==> LinesOf(s, c)[|LinesOf(s, c)| - 1] == TooLong
  {
    var good := Texts(Split(s, c)) + [EndOfFile];
    assert good[|good| - 1] == EndOfFile;
    if Fits(s, c) { FittingFile(s, c); } else { UnfittingFile(s, c); }
  }

  function Join(ps: seq<seq<Byte>>, c: Byte): seq<Byte> {
    if ps == [] then [] else ps[0] + [c] + Join(ps[1..], c)
  }

  /** Nothing is lost in the pieces: joined again they are the file, but for a
      delimiter after an unterminated tail. */
  lemma {:induction false} SplitLosesNothing(s: seq<Byte>, c: Byte)
    ensures Join(Split(s, c), c) == s || Join(Split(s, c), c) == s + [c]
    decreases |s|
  {
    if s != [] {
      var k := IndexOf(s, c);
      if k == |s| {
        JoinCons(s, [], c);
      } else {
        var rest := s[k + 1..];
        SplitLosesNothing(rest, c);
        JoinCons(s[..k], Split(rest, c), c);
        CutAt(s, k, c);
      }
    }
  }

  lemma CutAt(s: seq<Byte>, k: nat, c: Byte)
    requires k < |s| && s[k] == c
    ensures s[..k] + [c] + s[k + 1..] == s
    ensures s[..k] + [c] + (s[k + 1..] + [c]) == s + [c]
  {}

  lemma JoinCons(p: seq<Byte>, ps: seq<seq<Byte>>, c: Byte)
    ensures Join([p] + ps, c) == p + [c] + Join(ps, c)
  {
    assert ([p] + ps)[1..] == ps;
  }
}
