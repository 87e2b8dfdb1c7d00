/** Whole runs of the event streams: any number of one-way lines, on each any number
    of senders that take turns under the transmit lock, one receiver, and a network
    that cuts the bytes as it likes. A socket is two lines, one each way. */
module SyncRuns {
  import opened Bytes
  import opened SyncChannel

  datatype Holder = Free | Sending(task: nat, event: Event, done: nat)

  datatype Waiting = Idle | For(state: nat)

  /** `gone`: the sending process has ended, by itself or because a send failed, and the
      stream closes behind what is on the wire. */
  datatype Sender = Sender(holder: Holder, sent: seq<Event>, wire: seq<Byte>, gone: bool)

  /** `partial`: bytes of an event not yet complete; `recent`: how many events were
      heard since the last wait began; `broken`: a receive failed. */
  datatype Receiver = Receiver(
    taken: nat, partial: seq<Byte>, heard: seq<Event>, received: set<nat>,
    waiting: Waiting, recent: nat, exited: bool, broken: bool)

  datatype Line = Line(tx: Sender, rx: Receiver)

  datatype Action =
    | Lock(task: nat, event: Event)
    | Send(task: nat, count: nat)
    | Unlock(task: nat)
    | Wait(state: nat)
    | Recv(count: nat)
    | Return
    | SenderEnds
    | RecvFails
    | RecvCloses

  const QUIET: Line := Line(Sender(Free, [], [], false), Receiver(0, [], [], {}, Idle, 0, false, false))

  /** `wait_state` is about to call recv(2). */
  predicate Receiving(rx: Receiver) {
    !rx.exited && rx.waiting.For? && rx.waiting.state !in rx.received
  }

  predicate Enabled(l: Line, a: Action) {
    match a
    case Lock(_, _) => !l.tx.gone && l.tx.holder.Free?
    case Send(t, n) =>
      && !l.tx.gone && l.tx.holder.Sending? && l.tx.holder.task == t
      && 1 <= n && l.tx.holder.done + n <= EVENT_SIZE
    case Unlock(t) =>
      !l.tx.gone && l.tx.holder.Sending? && l.tx.holder.task == t && l.tx.holder.done == EVENT_SIZE
    case Wait(s) => l.rx.waiting.Idle? && !l.rx.exited && Valid(s)
    case Recv(n) =>
      && Receiving(l.rx)
      && 1 <= n && |l.rx.partial| + n <= EVENT_SIZE && l.rx.taken + n <= |l.tx.wire|
    case Return => !l.rx.exited && l.rx.waiting.For? && l.rx.waiting.state in l.rx.received
    case SenderEnds => !l.tx.gone
    case RecvFails => Receiving(l.rx)
    case RecvCloses => Receiving(l.rx) && l.tx.gone && l.rx.taken == |l.tx.wire|
  }

  function AfterSend(tx: Sender, n: nat): Sender
    requires tx.holder.Sending? && tx.holder.done + n <= EVENT_SIZE
  {
    var h := tx.holder;
    tx.(wire := tx.wire + Encode(h.event)[h.done..h.done + n], holder := h.(done := h.done + n))
  }

  /** The last byte of an event completes it: an unknown one ends the process. */
  function AfterRecv(rx: Receiver, bytes: seq<Byte>): Receiver
    requires |rx.partial| + |bytes| <= EVENT_SIZE
  {
    var got := rx.(taken := rx.taken + |bytes|, partial := rx.partial + bytes);
    if |got.partial| < EVENT_SIZE then got
    else
      var e := Decode(got.partial);
      if !Valid(e) then got.(exited := true)
      else got.(partial := [], heard := rx.heard + [e], received := rx.received + {e}, recent := rx.recent + 1)
  }

  /** n bytes come off the wire. */
  function Received(l: Line, n: nat): Line
    requires l.rx.taken + n <= |l.tx.wire| && |l.rx.partial| + n <= EVENT_SIZE
  {
    l.(rx := AfterRecv(l.rx, l.tx.wire[l.rx.taken..l.rx.taken + n]))
  }

  function Apply(l: Line, a: Action): Line
    requires Enabled(l, a)
  {
    match a
    case Lock(t, e) => l.(tx := l.tx.(holder := Sending(t, e, 0), sent := l.tx.sent + [e]))
    case Send(t, n) => l.(tx := AfterSend(l.tx, n))
    case Unlock(t) => l.(tx := l.tx.(holder := Free))
    case Wait(s) => l.(rx := l.rx.(waiting := For(s), recent := 0))
    case Recv(n) => Received(l, n)
    case Return => l.(rx := l.rx.(waiting := Idle))
    case SenderEnds => l.(tx := l.tx.(gone := true))
    case RecvFails => l.(rx := l.rx.(exited := true, broken := true))
    case RecvCloses => l.(rx := l.rx.(exited := true))
  }

  /** A step of the whole system acts on one line. */
  datatype Step = Step(line: nat, action: Action)

  ghost predicate IsRun(lines: nat, states: seq<seq<Line>>, steps: seq<Step>) {
    && |states| == |steps| + 1 && states[0] == seq(lines, _ => QUIET)
    && forall k :: 0 <= k < |steps| ==>
         && steps[k].line < |states[k]| && Enabled(states[k][steps[k].line], steps[k].action)
         && states[k + 1] == states[k][steps[k].line := Apply(states[k][steps[k].line], steps[k].action)]
  }

  // ----- The invariant of a line -----

  /** The wire carries the events in lock order; the last may be incomplete. */
  ghost predicate WireInOrder(tx: Sender) {
    && (tx.holder.Free? ==> |tx.wire| == EVENT_SIZE * |tx.sent|)
    && (tx.holder.Sending? ==>
          && |tx.sent| > 0 && tx.sent[|tx.sent| - 1] == tx.holder.event && tx.holder.done <= EVENT_SIZE
          && |tx.wire| == EVENT_SIZE * (|tx.sent| - 1) + tx.holder.done)
    && (forall i {:trigger ByteInPlace(tx.sent, tx.wire, i)} :: 0 <= i < |tx.wire| ==> ByteInPlace(tx.sent, tx.wire, i))
  }

  ghost predicate ByteInPlace(sent: seq<Event>, wire: seq<Byte>, i: nat)
    requires i < |wire|
  {
    i / 4 < |sent| && wire[i] == Encode(sent[i / 4])[i % 4]
  }

  function AsSet(es: seq<Event>): set<nat> {
    set i | 0 <= i < |es| :: es[i] as nat
  }

  /** The receiver has decoded a prefix of what was sent, and holds the next bytes. */
  ghost predicate HeardInOrder(l: Line) {
    && |l.rx.heard| <= |l.tx.sent| && l.rx.heard == l.tx.sent[..|l.rx.heard|]
    && l.rx.taken == EVENT_SIZE * |l.rx.heard| + |l.rx.partial| && l.rx.taken <= |l.tx.wire|
    && |l.rx.partial| <= EVENT_SIZE
    && l.rx.partial == l.tx.wire[EVENT_SIZE * |l.rx.heard|..l.rx.taken]
    && (forall i :: 0 <= i < |l.rx.heard| ==> Valid(l.rx.heard[i]))
    && l.rx.received == AsSet(l.rx.heard)
  }

  /** The next event on the line is no phase. */
  ghost predicate NextInvalid(l: Line) {
    |l.rx.heard| < |l.tx.sent| && !Valid(l.tx.sent[|l.rx.heard|])
  }

  /** The receiver exits only when a receive fails, the stream has ended, or an event is
      no phase. */
  ghost predicate ExitJustified(l: Line) {
    && (l.rx.exited ==> l.rx.broken || (l.tx.gone && l.rx.taken == |l.tx.wire|) || NextInvalid(l))
    && (!l.rx.exited ==> |l.rx.partial| < EVENT_SIZE && !l.rx.broken)
  }

  /** During a wait, only events heard last can have satisfied it: before those
      `recent` events were read the phase was not received, nor after any but all. */
  ghost predicate WaitIsShortest(rx: Receiver) {
    && rx.recent <= |rx.heard|
    && (rx.waiting.For? ==>
          forall j :: |rx.heard| - rx.recent <= j < |rx.heard| ==> rx.waiting.state !in AsSet(rx.heard[..j]))
  }

  ghost predicate Inv(l: Line) {
    WireInOrder(l.tx) && HeardInOrder(l) && ExitJustified(l) && WaitIsShortest(l.rx)
  }

  lemma SendKeepsOrder(tx: Sender, n: nat)
    requires WireInOrder(tx) && tx.holder.Sending? && tx.holder.done + n <= EVENT_SIZE
    ensures WireInOrder(AfterSend(tx, n))
  {
    var tx', h := AfterSend(tx, n), tx.holder;
    forall i | 0 <= i < |tx'.wire| ensures ByteInPlace(tx'.sent, tx'.wire, i) {
      if i >= |tx.wire| {
        assert i / 4 == |tx.sent| - 1 && i % 4 == h.done + (i - |tx.wire|);
      } else {
        assert ByteInPlace(tx.sent, tx.wire, i);
      }
    }
  }

  /** A complete event on the wire decodes to what was sent in its place. */
  lemma WireDecodes(tx: Sender, k: nat)
    requires WireInOrder(tx) && EVENT_SIZE * (k + 1) <= |tx.wire|
    ensures k < |tx.sent| && Decode(tx.wire[EVENT_SIZE * k..EVENT_SIZE * k + EVENT_SIZE]) == tx.sent[k]
  {
    var got := tx.wire[EVENT_SIZE * k..EVENT_SIZE * k + EVENT_SIZE];
    assert ByteInPlace(tx.sent, tx.wire, 4 * k) && (4 * k) / 4 == k;
    forall j | 0 <= j < 4 ensures got[j] == Encode(tx.sent[k])[j] {
      assert ByteInPlace(tx.sent, tx.wire, 4 * k + j);
      assert (4 * k + j) / 4 == k && (4 * k + j) % 4 == j;
      assert got[j] == tx.wire[4 * k + j];
    }
    assert got == Encode(tx.sent[k]);
    DecodeEncode(tx.sent[k]);
  }

  lemma AsSetGrows(es: seq<Event>, e: Event)
    ensures AsSet(es + [e]) == AsSet(es) + {e as nat}
  {
    assert (es + [e])[|es|] == e;
    forall x | x in AsSet(es) ensures x in AsSet(es + [e]) {
      var i :| 0 <= i < |es| && es[i] as nat == x;
      assert (es + [e])[i] as nat == x;
    }
  }

  /** The bytes held after a receive are the next bytes of the wire. */
  lemma HeldBytes(l: Line, n: nat)
    requires HeardInOrder(l) && l.rx.taken + n <= |l.tx.wire|
    ensures l.rx.partial + l.tx.wire[l.rx.taken..l.rx.taken + n] == l.tx.wire[EVENT_SIZE * |l.rx.heard|..l.rx.taken + n]
  {}

  /** Hearing the next event of the line. */
  lemma HearNext(l: Line, rx: Receiver)
    requires HeardInOrder(l) && EVENT_SIZE * (|l.rx.heard| + 1) <= |l.tx.wire|
    requires |l.rx.heard| < |l.tx.sent| && Valid(l.tx.sent[|l.rx.heard|])
    requires rx.heard == l.rx.heard + [l.tx.sent[|l.rx.heard|]]
    requires rx.taken == EVENT_SIZE * (|l.rx.heard| + 1) && rx.partial == []
    requires rx.received == l.rx.received + {l.tx.sent[|l.rx.heard|] as nat}
    ensures HeardInOrder(l.(rx := rx))
  {
    AsSetGrows(l.rx.heard, l.tx.sent[|l.rx.heard|]);
  }

  lemma RecvPart(l: Line, n: nat)
    requires HeardInOrder(l) && l.rx.taken + n <= |l.tx.wire| && |l.rx.partial| + n < EVENT_SIZE
    requires !l.rx.exited && !l.rx.broken
    ensures HeardInOrder(Received(l, n)) && ExitJustified(Received(l, n))
  {
    HeldBytes(l, n);
  }

  lemma RecvWhole(l: Line, n: nat)
    requires WireInOrder(l.tx) && HeardInOrder(l) && !l.rx.exited && !l.rx.broken
    requires l.rx.taken + n <= |l.tx.wire| && |l.rx.partial| + n == EVENT_SIZE
    ensures HeardInOrder(Received(l, n)) && ExitJustified(Received(l, n))
  {
    HeldBytes(l, n);
    var k := |l.rx.heard|;
    WireDecodes(l.tx, k);
    if Valid(l.tx.sent[k]) {
      HearNext(l, AfterRecv(l.rx, l.tx.wire[l.rx.taken..l.rx.taken + n]));
    }
  }

  lemma RecvKeepsOrder(l: Line, n: nat)
    requires WireInOrder(l.tx) && HeardInOrder(l) && !l.rx.exited && !l.rx.broken
    requires l.rx.taken + n <= |l.tx.wire| && |l.rx.partial| + n <= EVENT_SIZE
    ensures HeardInOrder(Received(l, n)) && ExitJustified(Received(l, n))
  {
    if |l.rx.partial| + n < EVENT_SIZE { RecvPart(l, n); } else { RecvWhole(l, n); }
  }

  /** During a wait for s, one more event or none has been heard. */
  lemma HearingKeepsShortest(rx: Receiver, t: Receiver)
    requires WaitIsShortest(rx) && rx.waiting.For? && t.waiting == rx.waiting
    requires rx.waiting.state !in AsSet(rx.heard)
    requires (t.heard == rx.heard && t.recent == rx.recent)
          || (exists e: Event :: t.heard == rx.heard + [e] && t.recent == rx.recent + 1)
    ensures WaitIsShortest(t)
  {
    forall j | |t.heard| - t.recent <= j < |t.heard| ensures rx.waiting.state !in AsSet(t.heard[..j]) {
      assert t.heard[..j] == rx.heard[..j];
      assert rx.heard[..|rx.heard|] == rx.heard;
    }
  }

  lemma RecvKeepsShortest(rx: Receiver, bytes: seq<Byte>)
    requires WaitIsShortest(rx) && Receiving(rx) && rx.received == AsSet(rx.heard)
    requires |rx.partial| + |bytes| <= EVENT_SIZE
    ensures WaitIsShortest(AfterRecv(rx, bytes))
  {
    HearingKeepsShortest(rx, AfterRecv(rx, bytes));
  }

  lemma LockKeepsOrder(l: Line, a: Action)
    requires Inv(l) && a.Lock? && Enabled(l, a)
    ensures Inv(Apply(l, a))
  {
    var l' := Apply(l, a);
    assert l'.tx.sent[..|l.rx.heard|] == l.tx.sent[..|l.rx.heard|];
    forall i | 0 <= i < |l'.tx.wire| ensures ByteInPlace(l'.tx.sent, l'.tx.wire, i) {
      assert ByteInPlace(l.tx.sent, l.tx.wire, i);
    }
  }

  lemma SendKeeps(l: Line, a: Action)
    requires Inv(l) && a.Send? && Enabled(l, a)
    ensures Inv(Apply(l, a))
  {
    SendKeepsOrder(l.tx, a.count);
    var l' := Apply(l, a);
    assert l'.tx.wire[EVENT_SIZE * |l.rx.heard|..l.rx.taken] == l.tx.wire[EVENT_SIZE * |l.rx.heard|..l.rx.taken];
  }

  lemma RecvKeeps(l: Line, n: nat)
    requires Inv(l) && Enabled(l, Recv(n))
    ensures Inv(Received(l, n))
  {
    RecvKeepsOrder(l, n);
    RecvKeepsShortest(l.rx, l.tx.wire[l.rx.taken..l.rx.taken + n]);
  }

  lemma UnlockKeeps(l: Line, t: nat)
    requires Inv(l) && Enabled(l, Unlock(t))
    ensures Inv(l.(tx := l.tx.(holder := Free)))
  {}

  lemma SenderEndKeeps(l: Line)
    requires Inv(l)
    ensures Inv(l.(tx := l.tx.(gone := true)))
  {}

  /** Steps of the receiver that take nothing off the wire. */
  lemma OtherRxKeeps(l: Line, rx: Receiver)
    requires Inv(l) && !l.rx.exited
    requires rx == l.rx.(waiting := rx.waiting, recent := rx.recent, exited := rx.exited, broken := rx.broken)
    requires WaitIsShortest(rx) && ExitJustified(l.(rx := rx))
    ensures Inv(l.(rx := rx))
  {}

  lemma TxStepKeeps(l: Line, a: Action)
    requires Inv(l) && Enabled(l, a) && (a.Lock? || a.Send? || a.Unlock? || a.SenderEnds?)
    ensures Inv(Apply(l, a))
  {
    match a
    case Lock(_, _) => LockKeepsOrder(l, a);
    case Send(_, _) => SendKeeps(l, a);
    case Unlock(t) => UnlockKeeps(l, t);
    case SenderEnds => SenderEndKeeps(l);
  }

  lemma RxStepKeeps(l: Line, a: Action)
    requires Inv(l) && Enabled(l, a) && (a.Wait? || a.Return? || a.RecvFails? || a.RecvCloses?)
    ensures Inv(Apply(l, a))
  {
    match a
    case Wait(s) => OtherRxKeeps(l, l.rx.(waiting := For(s), recent := 0));
    case Return => OtherRxKeeps(l, l.rx.(waiting := Idle));
    case RecvFails => OtherRxKeeps(l, l.rx.(exited := true, broken := true));
    case RecvCloses => OtherRxKeeps(l, l.rx.(exited := true));
  }

  lemma StepKeeps(l: Line, a: Action)
    requires Inv(l) && Enabled(l, a)
    ensures Inv(Apply(l, a))
  {
    if a.Recv? {
      RecvKeeps(l, a.count);
    } else if a.Lock? || a.Send? || a.Unlock? || a.SenderEnds? {
      TxStepKeeps(l, a);
    } else {
      RxStepKeeps(l, a);
    }
  }

  lemma {:induction false} RunInv(lines: nat, states: seq<seq<Line>>, steps: seq<Step>, k: nat, d: nat)
    requires IsRun(lines, states, steps) && k < |states| && d < lines
    ensures |states[k]| == lines && Inv(states[k][d])
  {
    if k > 0 {
      RunInv(lines, states, steps, k - 1, d);
      if steps[k - 1].line == d { StepKeeps(states[k - 1][d], steps[k - 1].action); }
    }
  }

  // ----- Theorems -----

  /** In every reachable state of every run, each receiver has decoded exactly a prefix
      of the events sent on its own line in lock order, and remembers exactly those:
      nothing it sent itself (that is another line) and nothing from another socket.
      A receiver exits only when a receive fails, at the end of a closed stream, or at an
      event that is no phase. */
  lemma EventsExact(lines: nat, states: seq<seq<Line>>, steps: seq<Step>, k: nat, d: nat)
    requires IsRun(lines, states, steps) && k < |states| && d < lines
    ensures |states[k]| == lines
    ensures states[k][d].rx.heard <= states[k][d].tx.sent
    ensures states[k][d].rx.received == AsSet(states[k][d].rx.heard)
    ensures states[k][d].rx.exited ==>
              || states[k][d].rx.broken
              || (states[k][d].tx.gone && states[k][d].rx.taken == |states[k][d].tx.wire|)
              || NextInvalid(states[k][d])
  {
    RunInv(lines, states, steps, k, d);
  }

  /** A wait that returns has read the shortest sequence of events that made its phase
      received: with one event fewer it was not. */
  lemma WaitReadsNoMore(lines: nat, states: seq<seq<Line>>, steps: seq<Step>, k: nat, d: nat)
    requires IsRun(lines, states, steps) && k < |steps| && steps[k] == Step(d, Return)
    ensures |states[k]| == lines && d < lines
    ensures var rx := states[k][d].rx;
            && rx.waiting.state in AsSet(rx.heard) && rx.recent <= |rx.heard|
            && forall j :: |rx.heard| - rx.recent <= j < |rx.heard| ==> rx.waiting.state !in AsSet(rx.heard[..j])
  {
    assert steps[k].line < |states[k]|;
    LineCount(lines, states, steps, k);
    RunInv(lines, states, steps, k, d);
  }

  lemma {:induction false} LineCount(lines: nat, states: seq<seq<Line>>, steps: seq<Step>, k: nat)
    requires IsRun(lines, states, steps) && k < |states|
    ensures |states[k]| == lines
  {
    if k > 0 { LineCount(lines, states, steps, k - 1); }
  }

  /** What was received stays received. */
  lemma {:induction false} NothingForgotten(
    lines: nat, states: seq<seq<Line>>, steps: seq<Step>, j: nat, k: nat, d: nat)
    requires IsRun(lines, states, steps) && j <= k < |states| && d < lines
    ensures |states[j]| == |states[k]| == lines
    ensures states[j][d].rx.heard <= states[k][d].rx.heard
    ensures states[j][d].rx.received <= states[k][d].rx.received
    decreases k - j
  {
    LineCount(lines, states, steps, j);
    LineCount(lines, states, steps, k);
    if j < k { NothingForgotten(lines, states, steps, j, k - 1, d); }
  }

  lemma HeardBefore(l: Line, i: nat)
    requires HeardInOrder(l) && i < |l.tx.sent| && l.tx.sent[i] as nat !in l.rx.received
    ensures i >= |l.rx.heard|
  {
    assert i < |l.rx.heard| ==> l.rx.heard[i] == l.tx.sent[i];
    assert i < |l.rx.heard| ==> l.rx.heard[i] as nat in AsSet(l.rx.heard);
  }

  /** Once the sender is gone nothing more comes: the wire stays as it is, and a receiver
      that has taken all of it and still waits can only find the stream closed or broken. */
  lemma SenderEndIsFinal(l: Line, a: Action)
    requires Inv(l) && Enabled(l, a) && (l.tx.gone || a.SenderEnds?)
    ensures var t := Apply(l, a);
      && t.tx.gone && t.tx.wire == l.tx.wire && t.tx.sent == l.tx.sent
      && (Receiving(t.rx) && t.rx.taken == |t.tx.wire| ==> Enabled(t, RecvCloses))
      && (l.tx.gone && Receiving(l.rx) && l.rx.taken == |l.tx.wire| ==> t.rx.exited)
  {}

  // ----- Arrival -----

  function Short(a: nat, b: nat): nat { if a > b then a - b else 0 }

  /** Bytes that are still to be sent and to be received before event p is complete. */
  function Distance(l: Line, p: nat): nat {
    Short(EVENT_SIZE * (p + 1), |l.tx.wire|) + Short(EVENT_SIZE * (p + 1), l.rx.taken)
  }

  /** No step moves an event away; every receive and every send that is needed for it
      brings it nearer. */
  lemma NeverFarther(l: Line, a: Action, p: nat)
    requires Inv(l) && Enabled(l, a)
    ensures Distance(Apply(l, a), p) <= Distance(l, p)
    ensures a.Recv? && l.rx.taken < EVENT_SIZE * (p + 1) ==> Distance(Apply(l, a), p) < Distance(l, p)
    ensures a.Send? && |l.tx.wire| < EVENT_SIZE * (p + 1) ==> Distance(Apply(l, a), p) < Distance(l, p)
  {}

  /** Event p is sent, or its sender lives to send it; those up to it are phases. */
  ghost predicate OnItsWay(l: Line, p: nat) {
    && p < |l.tx.sent| && (forall i :: 0 <= i <= p ==> Valid(l.tx.sent[i]))
    && (!l.tx.gone || EVENT_SIZE * (p + 1) <= |l.tx.wire|)
  }

  ghost predicate Awaits(l: Line, p: nat) {
    p < |l.tx.sent| && !l.rx.exited && l.rx.waiting == For(l.tx.sent[p])
  }

  ghost predicate Leads(l: Line, steps: seq<Action>, t: Line)
    decreases |steps|
  {
    if steps == [] then t == l
    else Enabled(l, steps[0]) && Leads(Apply(l, steps[0]), steps[1..], t)
  }

  /** What has not been received has not been heard completely. */
  lemma NotYet(l: Line, p: nat)
    requires Inv(l) && Awaits(l, p) && l.tx.sent[p] as nat !in l.rx.received
    ensures |l.rx.heard| <= p && l.rx.taken < EVENT_SIZE * (p + 1)
  {
    HeardBefore(l, p);
  }

  /** The step to take: receive a byte, or let the holder of the lock send one. */
  function Onward(l: Line): Action {
    if l.rx.taken < |l.tx.wire| then Recv(1)
    else if l.tx.holder.Sending? then Send(l.tx.holder.task, 1) else Recv(1)
  }

  lemma OnwardEnabled(l: Line, p: nat)
    requires Inv(l) && OnItsWay(l, p) && Awaits(l, p) && l.tx.sent[p] as nat !in l.rx.received
    ensures Enabled(l, Onward(l)) && Distance(Apply(l, Onward(l)), p) < Distance(l, p)
  {
    NotYet(l, p);
    NeverFarther(l, Onward(l), p);
  }

  lemma OnwardKeeps(l: Line, p: nat)
    requires Inv(l) && OnItsWay(l, p) && Awaits(l, p) && l.tx.sent[p] as nat !in l.rx.received
    requires Enabled(l, Onward(l))
    ensures var t := Apply(l, Onward(l)); Inv(t) && OnItsWay(t, p) && Awaits(t, p)
  {
    NotYet(l, p);
    StepKeeps(l, Onward(l));
    if Onward(l).Recv? { RecvExits(l, 1); }
  }

  /** A receive ends the process only at an event that is no phase. */
  lemma RecvExits(l: Line, n: nat)
    requires Inv(l) && Enabled(l, Recv(n))
    ensures Apply(l, Recv(n)).rx.exited ==> NextInvalid(l)
  {
    if |l.rx.partial| + n == EVENT_SIZE {
      HeldBytes(l, n);
      WireDecodes(l.tx, |l.rx.heard|);
    }
  }

  /** A task that finds the lock free can take it, send its event and leave the lock free
      again, with exactly its event added behind everything sent before. */
  lemma NotifyCompletes(l: Line, task: nat, e: Event)
    requires Inv(l) && !l.tx.gone && l.tx.holder.Free?
    ensures Leads(l, [Lock(task, e), Send(task, EVENT_SIZE), Unlock(task)],
                  l.(tx := Sender(Free, l.tx.sent + [e], l.tx.wire + Encode(e), false)))
  {
    var a := Apply(l, Lock(task, e));
    var b := Apply(a, Send(task, EVENT_SIZE));
    assert Encode(e)[0..EVENT_SIZE] == Encode(e);
    var steps := [Lock(task, e), Send(task, EVENT_SIZE), Unlock(task)];
    assert steps[1..] == [Send(task, EVENT_SIZE), Unlock(task)] && steps[1..][1..] == [Unlock(task)];
    assert Leads(b, [Unlock(task)], Apply(b, Unlock(task)));
  }

  /** From every such state a path of at most so many steps as bytes are missing leads to
      the return of the wait. */
  lemma {:induction false} Arrives(l: Line, p: nat) returns (steps: seq<Action>, t: Line)
    requires Inv(l) && OnItsWay(l, p) && Awaits(l, p)
    ensures Leads(l, steps, t) && |steps| <= Distance(l, p) && Enabled(t, Return)
    decreases Distance(l, p)
  {
    if l.tx.sent[p] as nat in l.rx.received {
      steps, t := [], l;
    } else {
      OnwardEnabled(l, p);
      OnwardKeeps(l, p);
      var more;
      more, t := Arrives(Apply(l, Onward(l)), p);
      steps := [Onward(l)] + more;
      assert steps[1..] == more;
    }
  }

  /** In every reachable state, a wait for an event on its way can be brought to its
      return by sends and receives alone, as many as bytes are missing at most; and by
      NeverFarther no other step of anybody delays it. */
  lemma SentEventArrives(lines: nat, states: seq<seq<Line>>, steps: seq<Step>, k: nat, d: nat, p: nat)
    returns (more: seq<Action>, t: Line)
    requires IsRun(lines, states, steps) && k < |states| && d < lines && |states[k]| == lines
    requires OnItsWay(states[k][d], p) && Awaits(states[k][d], p)
    ensures Leads(states[k][d], more, t) && |more| <= Distance(states[k][d], p) && Enabled(t, Return)
  {
    RunInv(lines, states, steps, k, d);
    more, t := Arrives(states[k][d], p);
  }
}
