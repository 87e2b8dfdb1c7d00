/** Writing through the one-page buffer of `bfd.c`, and the records that several
    dump tasks append to one image. */
module BufferedWriter {
  import opened Bytes
  import opened FullIo
  import BufferPool

  const BUFSIZE: nat := BufferPool.BUFSIZE

  class Writer {
    var file: seq<Byte>         // what write(2) has accepted
    const io: nat -> Call       // what each write(2) does
    var calls: nat              // how many were made
    const mem: array<Byte>
    var sz: nat

    ghost predicate Valid()
      reads this, mem
    {
      mem.Length == BUFSIZE && sz <= BUFSIZE
    }

    /** Bytes on the file followed by bytes in the buffer. */
    ghost function Stream(): seq<Byte>
      requires Valid()
      reads this, mem
    {
      file + mem[..sz]
    }

    constructor (calling: nat -> Call)
      ensures Valid() && fresh(mem) && Stream() == [] && io == calling && calls == 0
    {
      io, calls := calling, 0;
      mem := new Byte[BUFSIZE](_ => 0);
      file, sz := [], 0;
    }

    /** `write_all`: everything, or an error after some prefix. */
    method WriteAll(bytes: seq<Byte>) returns (ret: int)
      modifies this`file, this`calls
      ensures var r := Run(io, old(calls), |bytes|, |bytes|);
        && calls == r.next && file == old(file) + bytes[..r.moved]
        && ret == if r.failed then -1 else |bytes|
    {
      var r := TransferAll(io, calls, |bytes|, |bytes|);
      calls := r.next;
      file := file + bytes[..r.moved];
      return if r.failed then -1 else r.moved;
    }

    /** `bflush`; the buffer is emptied only if all of it was written. A failure leaves a
        part of it on the file and all of it in the buffer. */
    method Flush() returns (ret: int)
      requires Valid()
      modifies this`file, this`sz, this`calls
      ensures Valid() && (ret == 0 || ret == -1)
      ensures var r := Run(io, old(calls), old(sz), old(sz));
        && calls == r.next && (ret == -1 <==> r.failed)
        && file == old(file) + mem[..r.moved] && sz == if r.failed then old(sz) else 0
      ensures ret == 0 ==> file == old(Stream())
    {
      RunMeans(io, calls, sz, sz);
      if sz == 0 {
        assert mem[..sz] == [];
        return 0;
      }
      var buffer := mem[..sz];
      assert forall n: nat :: n <= sz ==> buffer[..n] == mem[..n];
      var r := WriteAll(buffer);
      if r != sz {
        return -1;
      }
      sz := 0;
      return 0;
    }

    /** A second flush after one that failed and before anything else is written. */
    method FlushAgain() returns (first: int, second: int)
      requires Valid()
      modifies this`file, this`sz, this`calls
      ensures Valid()
      ensures first == -1 && second == 0 ==>
        file == Retried(old(file), old(mem[..sz]), Run(io, old(calls), old(sz), old(sz)).moved)
    {
      ghost var before, buffer := file, mem[..sz];
      first := Flush();
      second := 0;
      if first == -1 {
        assert buffer == mem[..sz];
        second := Flush();
      }
    }

    /** `__bwrite`: a part larger than the page goes straight to the file, after
        whatever was buffered before it. A failure never puts anything else there. */
    method Append(part: seq<Byte>) returns (ret: int)
      requires Valid()
      modifies this, mem
      ensures Valid() && old(calls) <= calls && (ret == |part| || ret == -1)
      ensures ret == -1 <==> AnyFails(io, old(calls), calls)
      ensures ret != -1 ==> Stream() == old(Stream()) + part
      ensures old(file) <= file <= old(Stream()) + part
    {
      ghost var from, stream := calls, Stream();
      if sz + |part| > BUFSIZE {
        RunMeans(io, calls, sz, sz);
        assert file + mem[..sz] == Stream();
        ret := Flush();
        if ret < 0 {
          return;
        }
        assert mem[..sz] == [];
      }
      if |part| > BUFSIZE {
        RunMeans(io, calls, |part|, |part|);
        FailsJoin(io, from, calls, Run(io, calls, |part|, |part|).next);
        ret := WriteAll(part);
        assert part[..|part|] == part && mem[..sz] == [];
        return;
      }
      Copy(part);
      return |part|;
    }

    /** memcpy behind what is buffered. */
    method Copy(part: seq<Byte>)
      requires Valid() && sz + |part| <= BUFSIZE
      modifies this`sz, mem
      ensures Valid() && Stream() == old(Stream()) + part
    {
      ghost var before := mem[..sz];
      forall i | 0 <= i < |part| {
        mem[sz + i] := part[i];
      }
      assert mem[..sz + |part|] == before + part;
      sz := sz + |part|;
      Reassociate(file, before, part);
    }

    /** `bwritev` on a buffered image: one record, all parts in order. */
    method AppendRecord(parts: seq<seq<Byte>>) returns (ret: int)
      requires Valid()
      modifies this, mem
      ensures Valid() && old(calls) <= calls && (ret < 0 <==> AnyFails(io, old(calls), calls))
      ensures ret >= 0 ==> Stream() == old(Stream()) + Concat(parts) && ret == |Concat(parts)|
      ensures old(file) <= file <= old(Stream()) + Concat(parts)
    {
      var written := 0;
      var i := 0;
      while i < |parts|
        invariant 0 <= i <= |parts| && Valid() && old(file) <= file
        invariant old(calls) <= calls && !AnyFails(io, old(calls), calls)
        invariant Stream() == old(Stream()) + Concat(parts[..i]) && written == |Concat(parts[..i])|
      {
        ghost var k := calls;
        ConcatUpTo(old(Stream()), parts, i);
        var r := Append(parts[i]);
        FailsJoin(io, old(calls), k, calls);
        if r < 0 {
          return r;
        }
        written := written + r;
        i := i + 1;
      }
      assert parts[..i] == parts;
      return written;
    }
  }

  /** One more part of a record, and what the record still adds. */
  lemma ConcatUpTo(stream: seq<Byte>, parts: seq<seq<Byte>>, i: nat)
    requires i < |parts|
    ensures stream + Concat(parts[..i]) + parts[i] == stream + Concat(parts[..i + 1])
    ensures stream + Concat(parts[..i + 1]) <= stream + Concat(parts)
    ensures |Concat(parts[..i + 1])| == |Concat(parts[..i])| + |parts[i]|
  {
    ConcatAppend(parts[..i], parts[i]);
    assert parts[..i + 1] == parts[..i] + [parts[i]];
    Reassociate(stream, Concat(parts[..i]), parts[i]);
    ConcatSplit(parts, i + 1);
  }

  /** The file after n bytes of the buffer and then all of it. */
  function Retried(file: seq<Byte>, buffer: seq<Byte>, n: nat): seq<Byte>
    requires n <= |buffer|
  {
    file + buffer[..n] + buffer
  }

  /** A flush that is repeated after a failure writes the buffer once if and only if the
      failing flush failed at its first write(2). */
  lemma RetryExactly(io: nat -> Call, k: nat, file: seq<Byte>, buffer: seq<Byte>)
    requires Run(io, k, |buffer|, |buffer|).failed
    ensures Retried(file, buffer, Run(io, k, |buffer|, |buffer|).moved) == file + buffer <==> io(k).Fails?
  {
    var n := Run(io, k, |buffer|, |buffer|).moved;
    NothingMovedExactly(io, k, |buffer|, |buffer|);
    assert |Retried(file, buffer, n)| == |file| + n + |buffer|;
    if n == 0 { assert file + buffer[..0] == file; }
  }

  /** One byte, an error, and then everything: the byte is on the file twice. */
  lemma BytesCanBeDoubled(a: Byte, b: Byte)
    ensures var io := k => if k == 0 then Moves(1) else if k == 1 then Fails else Moves(2);
      && Run(io, 0, 2, 2) == Done(2, 1, true) && Run(io, 2, 2, 2) == Done(3, 2, false)
      && Retried([], [a, b], 1) == [a, a, b]
  {
    var io := k => if k == 0 then Moves(1) else if k == 1 then Fails else Moves(2);
    assert Run(io, 1, 1, 1) == Done(2, 0, true);
    assert Run(io, 3, 0, 0) == Done(3, 0, false);
  }

  // ----- One image shared by all dump tasks -----

  /** The image during a `bwritev` by one task: the record and the parts appended. */
  datatype Holder = Free | Held(task: nat, record: seq<seq<Byte>>, done: nat)

  /** `records` lists the records completed so far, in the order of their locks. */
  datatype Image = Image(stream: seq<Byte>, holder: Holder, records: seq<seq<seq<Byte>>>)

  datatype Action = Lock(task: nat, record: seq<seq<Byte>>) | AppendPart(task: nat) | Unlock(task: nat)

  predicate Enabled(s: Image, a: Action) {
    match a
    case Lock(_, _) => s.holder.Free?
    case AppendPart(t) => s.holder.Held? && s.holder.task == t && s.holder.done < |s.holder.record|
    case Unlock(t) => s.holder.Held? && s.holder.task == t && s.holder.done == |s.holder.record|
  }

  function Apply(s: Image, a: Action): Image
    requires Enabled(s, a)
  {
    match a
    case Lock(t, r) => s.(holder := Held(t, r, 0))
    case AppendPart(t) =>
      s.(stream := s.stream + s.holder.record[s.holder.done], holder := s.holder.(done := s.holder.done + 1))
    case Unlock(t) => s.(holder := Free, records := s.records + [s.holder.record])
  }

  ghost predicate IsRun(states: seq<Image>, actions: seq<Action>) {
    && |states| == |actions| + 1 && states[0] == Image([], Free, [])
    && forall k :: 0 <= k < |actions| ==>
         Enabled(states[k], actions[k]) && states[k + 1] == Apply(states[k], actions[k])
  }

  function AllRecords(rs: seq<seq<seq<Byte>>>): seq<Byte> {
    if rs == [] then [] else Concat(rs[0]) + AllRecords(rs[1..])
  }

  lemma {:induction false} AllRecordsAppend(rs: seq<seq<seq<Byte>>>, r: seq<seq<Byte>>)
    ensures AllRecords(rs + [r]) == AllRecords(rs) + Concat(r)
  {
    if rs == [] {
      assert rs + [r] == [r];
    } else {
      AllRecordsAppend(rs[1..], r);
      assert (rs + [r])[1..] == rs[1..] + [r];
      Reassociate(Concat(rs[0]), AllRecords(rs[1..]), Concat(r));
    }
  }

  ghost predicate Contiguous(s: Image) {
    && (s.holder.Held? ==> s.holder.done <= |s.holder.record|)
    && s.stream == AllRecords(s.records)
                   + (if s.holder.Held? && s.holder.done <= |s.holder.record|
                      then Concat(s.holder.record[..s.holder.done]) else [])
  }

  lemma StepContiguous(s: Image, a: Action)
    requires Contiguous(s) && Enabled(s, a)
    ensures Contiguous(Apply(s, a))
  {
    match a
    case Lock(_, r) => assert r[..0] == [];
    case AppendPart(_) =>
      var r, d := s.holder.record, s.holder.done;
      ConcatAppend(r[..d], r[d]);
      assert r[..d + 1] == r[..d] + [r[d]];
      assert AllRecords(s.records) + Concat(r[..d]) + r[d] == AllRecords(s.records) + (Concat(r[..d]) + r[d]);
    case Unlock(_) =>
      AllRecordsAppend(s.records, s.holder.record);
      assert s.holder.record[..s.holder.done] == s.holder.record;
  }

  /** However the tasks interleave, the image is a sequence of whole records, followed
      at most by a prefix of the record of the task that holds the lock. */
  lemma {:induction false} RecordsStayWhole(states: seq<Image>, actions: seq<Action>, k: nat)
    requires IsRun(states, actions) && k < |states|
    ensures Contiguous(states[k])
  {
    if k > 0 {
      RecordsStayWhole(states, actions, k - 1);
      StepContiguous(states[k - 1], actions[k - 1]);
    }
  }

  ghost predicate Leads(s: Image, actions: seq<Action>, t: Image)
    decreases |actions|
  {
    if actions == [] then t == s
    else Enabled(s, actions[0]) && Leads(Apply(s, actions[0]), actions[1..], t)
  }

  /** The rest of a record: its parts from d on, and the lock released by the same task. */
  lemma {:induction false} RestOfRecord(s: Image) returns (actions: seq<Action>)
    requires s.holder.Held? && s.holder.done <= |s.holder.record|
    ensures var h := s.holder;
      Leads(s, actions, Image(s.stream + Concat(h.record[h.done..]), Free, s.records + [h.record]))
    ensures forall i :: 0 <= i < |actions| ==> actions[i].task == s.holder.task
    decreases |s.holder.record| - s.holder.done
  {
    var h := s.holder;
    if h.done == |h.record| {
      actions := [Unlock(h.task)];
      assert h.record[h.done..] == [] && s.stream + [] == s.stream;
      assert actions[1..] == [];
    } else {
      var a := AppendPart(h.task);
      var more := RestOfRecord(Apply(s, a));
      actions := [a] + more;
      assert actions[1..] == more;
      assert h.record[h.done..][1..] == h.record[h.done + 1..];
      Reassociate(s.stream, h.record[h.done], Concat(h.record[h.done + 1..]));
    }
  }

  /** A task that finds the image free can append its whole record and leave it free again,
      with exactly that record behind all others. */
  lemma RecordCompletes(s: Image, task: nat, record: seq<seq<Byte>>) returns (actions: seq<Action>)
    requires s.holder.Free?
    ensures Leads(s, actions, Image(s.stream + Concat(record), Free, s.records + [record]))
    ensures forall i :: 0 <= i < |actions| ==> actions[i].task == task
  {
    var more := RestOfRecord(Apply(s, Lock(task, record)));
    actions := [Lock(task, record)] + more;
    assert actions[1..] == more && record[0..] == record;
  }
}
