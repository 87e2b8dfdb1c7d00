/** Safety of the migration over every run: whatever fails, and whenever the
    controller dies, the source and the destination never execute together. */
module MigrationSafety {
  import opened Options
  import opened Migration

  // ----- Counting owners -----

  lemma {:induction false} AtLeastUpdate(os: seq<Owner>, i: nat, o: Owner, r: nat)
    requires i < |os|
    ensures AtLeast(os[i := o], r) + (if Rank(os[i]) >= r then 1 else 0)
         == AtLeast(os, r) + (if Rank(o) >= r then 1 else 0)
  {
    if i == 0 {
      assert os[i := o][1..] == os[1..];
    } else {
      AtLeastUpdate(os[1..], i - 1, o, r);
      assert os[i := o][1..] == os[1..][i - 1 := o];
    }
  }

  lemma {:induction false} AtLeastAll(os: seq<Owner>, r: nat)
    ensures AtLeast(os, r) <= |os|
    ensures AtLeast(os, r) == |os| <==> forall i :: 0 <= i < |os| ==> Rank(os[i]) >= r
  {
    if os != [] {
      AtLeastAll(os[1..], r);
      assert forall i :: 0 < i < |os| ==> os[i] == os[1..][i - 1];
      if AtLeast(os, r) == |os| {
        forall i | 0 <= i < |os| ensures Rank(os[i]) >= r {
          if i > 0 { assert os[i] == os[1..][i - 1]; }
        }
      }
    }
  }

  lemma {:induction false} AtLeastNone(os: seq<Owner>, r: nat)
    requires forall i :: 0 <= i < |os| ==> Rank(os[i]) < r
    ensures AtLeast(os, r) == 0
  {
    if os != [] { AtLeastNone(os[1..], r); }
  }

  // ----- The invariant -----

  ghost predicate Shape(c: Config, wk: Workers, go: seq<nat>) {
    && ValidConfig(c)
    && |wk.owners| == |wk.threads| == |go| == |c.threads|
    && forall i :: 0 <= i < |wk.threads| ==> |wk.threads[i]| == c.threads[i]
  }

  /** Each equality-waited counter is the number of owners past its point. */
  ghost predicate CountersExact(wk: Workers) {
    && wk.numMisc == AtLeast(wk.owners, PAST_MISC)
    && wk.numProcess == AtLeast(wk.owners, PAST_DUMP)
    && wk.cured == AtLeast(wk.owners, PAST_CURE)
    && wk.processDone == AtLeast(wk.owners, PAST_DONE)
  }

  predicate SeizeShape(ts: seq<Thread>, k: nat, phase: nat) {
    && k < |ts| && phase < 3
    && (forall j :: 0 <= j < k ==> ts[j] == Armed)
    && ts[k] == (if phase == 0 then Running else if phase == 1 then Traced else Trapped)
    && (forall j :: k < j < |ts| ==> ts[j] == Running)
  }

  predicate ReleaseShape(ts: seq<Thread>, resume: bool, k: nat) {
    && k < |ts|
    && (forall j :: 0 <= j < k ==> ts[j] == if resume then Running else Halted)
    && (forall j :: k <= j < |ts| ==> ts[j] == Armed)
  }

  predicate Settled(ts: seq<Thread>, final: Option<Final>) {
    && final.Some?
    && match final.value
       case Dead => AllAre(ts, Killed)
       case Stopped => AllAre(ts, Halted)
       case Alive => AllAre(ts, Running) || AllAre(ts, Halted)
  }

  /** What an owner's program point says about the threads of its task while
      the controller lives. */
  predicate TaskOk(o: Owner, ts: seq<Thread>, final: Option<Final>) {
    match o
    case Unborn => AllAre(ts, Running) || AllAre(ts, Trapped)
    case Seizing(k, phase) => SeizeShape(ts, k, phase)
    case Gathering => AllAre(ts, Armed) || (AllAre(ts, Killed) && final == Some(Dead))
    case Releasing(resume, k) =>
      && ReleaseShape(ts, resume, k)
      && final.Some? && final.value != Dead && (resume ==> final.value == Alive)
    case Released => Settled(ts, final)
    case Finished => Settled(ts, final)
    case _ => AllAre(ts, Armed)
  }

  ghost predicate TasksOk(wk: Workers, final: Option<Final>) {
    forall i :: 0 <= i < |wk.owners| && i < |wk.threads| ==> TaskOk(wk.owners[i], wk.threads[i], final)
  }

  ghost predicate AllPast(os: seq<Owner>, r: nat) {
    forall i :: 0 <= i < |os| ==> Rank(os[i]) >= r
  }

  /** How many of the processes[] words the coordinator has incremented. */
  function Opened(co: Coordinator): nat {
    match co.pc
    case Open(j) => j
    case AwaitDone => |co.go|
    case Returned => if co.multi then |co.go| else 0
    case _ => 0
  }

  /** The words the coordinator publishes, against its program point. */
  ghost predicate WordsOk(co: Coordinator) {
    var p := Phase(co.pc);
    && Opened(co) <= |co.go| && |co.go| > 0
    && (co.pc.Open? ==> co.pc.next < |co.go|)
    && (forall i :: 0 <= i < |co.go| ==> co.go[i] == if i < Opened(co) then 1 else 0)
    && (co.final.Some? <==> p == 21 || p == 22 || (p == 23 && co.multi))
    && (p < 10 ==> !co.multi)
    && (10 <= p < 20 || co.pc == Finish(false) || 20 < p < 23 ==> co.multi)
    && (p < 18 ==> !co.exposed)
    && (p == 18 || p == 19 || co.pc == Finish(false) ==> co.exposed)
    && (co.exposed ==> co.multi && co.flushed && co.published)
    && (16 <= p <= 17 ==> co.flushed)
    && (p == 17 ==> co.published)
    && (co.exposed && co.final.Some? ==> co.final.value != Alive)
  }

  /** How far the owners must be, against the coordinator's program point. */
  ghost predicate BarriersOk(co: Coordinator, os: seq<Owner>) {
    var p := Phase(co.pc);
    && (!co.multi ==> forall i :: 0 <= i < |os| ==> os[i] == Unborn)
    && (co.pc.Spawn? ==> co.pc.next < |os|)
    && (co.pc.Spawn? ==> forall i :: 0 <= i < |os| ==> (os[i] == Unborn <==> i >= co.pc.next))
    && (co.multi && p != 10 ==> AllPast(os, 1))
    && (p == 12 || p == 13 ==> AllPast(os, PAST_MISC))
    && (14 <= p <= 19 || co.pc == Finish(false) || co.exposed ==> AllPast(os, PAST_DUMP))
    && (p == 23 && co.multi ==> AllPast(os, PAST_DONE))
  }

  ghost predicate OwnersOk(wk: Workers, go: seq<nat>) {
    && (forall i :: 0 <= i < |wk.owners| && i < |go| && Rank(wk.owners[i]) >= 5 ==> go[i] != 0)
    && (forall i :: 0 <= i < |wk.owners| && Rank(wk.owners[i]) >= 10 ==> wk.cured == |wk.owners|)
    && (forall i :: 0 <= i < |wk.owners| ==> (6 <= Rank(wk.owners[i]) <= 7 <==> wk.mutex1 == Some(i)))
    && (wk.mutex1.Some? ==> wk.mutex1.value < |wk.owners|)
  }

  /** Spawned only once the tasks run again. */
  ghost predicate SpawnOk(co: Coordinator, wk: Workers) {
    co.pc.Spawn? ==>
      forall i :: 0 <= i < |wk.owners| && i < |wk.threads| && wk.owners[i] == Unborn ==> AllAre(wk.threads[i], Running)
  }

  /** Nothing is stopped before the network is locked. */
  ghost predicate FreezeOk(co: Coordinator, wk: Workers) {
    && (8 <= Phase(co.pc) < 20 || co.multi ==> co.netLocked)
    && (!co.netLocked ==> forall i :: 0 <= i < |wk.threads| ==> AllAre(wk.threads[i], Running))
  }

  /** What each event in flight or received proves about its sender. */
  ghost predicate EventsOk(c: Config, co: Coordinator, de: Destination, toDst: seq<Event>, toSrc: seq<Event>) {
    var d := DestPhase(de.pc);
    && (EndProcessDump in toDst || EndProcessDump in de.got ==> co.exposed)
    && (StartProcessDump in toSrc || StartProcessDump in co.got ==> de.setupDone)
    && (c.destStage && (StartProcessDump in toSrc || StartProcessDump in co.got) ==> de.refreshApplied)
    && (8 <= d <= 11 || de.treeRead || de.live ==> EndProcessDump in de.got)
    && (2 <= d <= 7 ==> de.setupDone)
    && (c.destStage && 5 <= d <= 7 ==> de.refreshApplied)
    && (7 <= Phase(co.pc) <= 9 || co.netLocked || co.multi ==> StartProcessDump in co.got)
  }

  /** What a peer started with the other `parent_stage` setting can never send. */
  ghost predicate MismatchOk(c: Config, co: Coordinator, de: Destination, toDst: seq<Event>, toSrc: seq<Event>) {
    var p := Phase(co.pc);
    var d := DestPhase(de.pc);
    && (!c.destStage ==> RefreshRequest !in toSrc && RefreshRequest !in co.got && !(2 <= d <= 5))
    && (!c.sourceStage ==> RefreshDone !in toDst && RefreshDone !in de.got && !(2 <= p <= 5))
    && (c.sourceStage && !c.destStage ==> !(3 <= p < 20) && !co.netLocked && !co.multi)
    && (!c.sourceStage && c.destStage ==>
          !(4 <= d <= 11) && StartProcessDump !in toSrc && StartProcessDump !in co.got)
  }

  ghost predicate Inv(c: Config, s: State) {
    && Shape(c, s.wk, s.co.go)
    && CountersExact(s.wk)
    && WordsOk(s.co)
    && BarriersOk(s.co, s.wk.owners)
    && OwnersOk(s.wk, s.co.go)
    && (s.alive ==> TasksOk(s.wk, s.co.final) && SpawnOk(s.co, s.wk))
    && FreezeOk(s.co, s.wk)
    && EventsOk(c, s.co, s.de, s.toDst, s.toSrc)
    && MismatchOk(c, s.co, s.de, s.toDst, s.toSrc)
    && (s.co.exposed ==> Fenced(s.wk, s.alive))
  }

  lemma InitInv(c: Config, s: State)
    requires ValidConfig(c) && Init(c, s)
    ensures Inv(c, s)
  {
    AtLeastNone(s.wk.owners, PAST_MISC);
    AtLeastNone(s.wk.owners, PAST_DUMP);
    AtLeastNone(s.wk.owners, PAST_CURE);
    AtLeastNone(s.wk.owners, PAST_DONE);
  }

  /** While the controller lives, the per-task facts already give the fence. */
  lemma FenceFromTasks(wk: Workers, final: Option<Final>)
    requires |wk.owners| == |wk.threads| && TasksOk(wk, final) && AllPast(wk.owners, PAST_DUMP)
    requires final.Some? ==> final.value != Alive
    ensures Fenced(wk, true)
  {
    forall i, k | 0 <= i < |wk.threads| && 0 <= k < |wk.threads[i]| ensures Held(wk.threads[i][k], true) {
      assert TaskOk(wk.owners[i], wk.threads[i], final);
    }
    forall i | 0 <= i < |wk.owners| && wk.owners[i].Releasing? ensures !wk.owners[i].resume {
      assert TaskOk(wk.owners[i], wk.threads[i], final);
    }
  }

  lemma FenceAfter(co: Coordinator, wk: Workers)
    requires |wk.owners| == |wk.threads| && TasksOk(wk, co.final) && WordsOk(co) && BarriersOk(co, wk.owners)
    ensures co.exposed ==> Fenced(wk, true)
  {
    if co.exposed { FenceFromTasks(wk, co.final); }
  }

  // ----- Steps of the coordinator -----

  lemma CoordWords(c: Config, co: Coordinator)
    requires WordsOk(co) && !co.pc.Finish? && !co.pc.Returned?
    ensures WordsOk(CoordWrites(c, co))
  {}

  lemma CoordEvents(c: Config, s: State)
    requires EventsOk(c, s.co, s.de, s.toDst, s.toSrc) && MismatchOk(c, s.co, s.de, s.toDst, s.toSrc)
    requires CoordEnabled(s.co, s.wk) && WordsOk(s.co)
    ensures var t := CoordWrites(c, s.co);
            EventsOk(c, t, s.de, s.toDst + CoordSends(s.co.pc), s.toSrc)
            && MismatchOk(c, t, s.de, s.toDst + CoordSends(s.co.pc), s.toSrc)
  {}

  lemma CoordCounters(c: Config, s: State)
    requires Inv(c, s) && s.alive && CoordEnabled(s.co, s.wk)
    ensures var co, wk := CoordWrites(c, s.co), CoordOnWorkers(s.co.pc, s.wk);
            Shape(c, wk, co.go) && CountersExact(wk)
  {
    if s.co.pc.Spawn? { CountStep(s.wk, s.co.pc.next, Seizing(0, 0)); }
  }

  lemma CoordTasks(c: Config, s: State)
    requires Inv(c, s) && s.alive && CoordEnabled(s.co, s.wk)
    ensures var co, wk := CoordWrites(c, s.co), CoordOnWorkers(s.co.pc, s.wk);
            TasksOk(wk, co.final) && SpawnOk(co, wk)
  {}

  lemma CoordFreeze(c: Config, s: State)
    requires Inv(c, s) && s.alive && CoordEnabled(s.co, s.wk)
    ensures FreezeOk(CoordWrites(c, s.co), CoordOnWorkers(s.co.pc, s.wk))
  {}

  lemma SpawnBarriers(c: Config, co: Coordinator, wk: Workers)
    requires |wk.owners| == |co.go| && WordsOk(co) && BarriersOk(co, wk.owners)
    requires co.pc.Spawn? && co.pc.next < |wk.owners|
    ensures BarriersOk(CoordWrites(c, co), CoordOnWorkers(co.pc, wk).owners)
  {
    var i, os := co.pc.next, wk.owners[co.pc.next := Seizing(0, 0)];
    if i + 1 == |os| {
      forall j | 0 <= j < |os| ensures Rank(os[j]) >= 1 {
        assert j == i || wk.owners[j] != Unborn;
      }
    }
  }

  /** A wait that ends has seen every owner arrive. */
  lemma Arrived(co: Coordinator, wk: Workers)
    requires CountersExact(wk) && CoordEnabled(co, wk)
    ensures co.pc.AwaitMisc? ==> AllPast(wk.owners, PAST_MISC)
    ensures co.pc.AwaitDumps? ==> AllPast(wk.owners, PAST_DUMP)
    ensures co.pc.AwaitDone? ==> AllPast(wk.owners, PAST_DONE)
  {
    if co.pc.AwaitMisc? { AtLeastAll(wk.owners, PAST_MISC); }
    if co.pc.AwaitDone? { AtLeastAll(wk.owners, PAST_DONE); }
    if co.pc.AwaitDumps? { AtLeastAll(wk.owners, PAST_DUMP); }
  }

  lemma CoordBarriers(c: Config, co: Coordinator, wk: Workers)
    requires |wk.owners| == |co.go| && CountersExact(wk) && WordsOk(co) && BarriersOk(co, wk.owners)
    requires CoordEnabled(co, wk)
    ensures BarriersOk(CoordWrites(c, co), CoordOnWorkers(co.pc, wk).owners)
  {
    if co.pc.Spawn? {
      SpawnBarriers(c, co, wk);
    } else {
      assert CoordOnWorkers(co.pc, wk).owners == wk.owners;
      Arrived(co, wk);
      PlainBarriers(c, co, wk.owners);
    }
  }

  lemma PlainBarriers(c: Config, co: Coordinator, os: seq<Owner>)
    requires WordsOk(co) && BarriersOk(co, os) && |os| == |co.go|
    requires !co.pc.Spawn? && !co.pc.Finish? && !co.pc.Returned?
    requires co.pc.AwaitMisc? ==> AllPast(os, PAST_MISC)
    requires co.pc.AwaitDumps? ==> AllPast(os, PAST_DUMP)
    requires co.pc.AwaitDone? ==> AllPast(os, PAST_DONE)
    ensures BarriersOk(CoordWrites(c, co), os)
  {}

  lemma CoordLocks(c: Config, co: Coordinator, wk: Workers)
    requires |wk.owners| == |co.go| && WordsOk(co) && BarriersOk(co, wk.owners) && OwnersOk(wk, co.go)
    requires CoordEnabled(co, wk)
    ensures OwnersOk(CoordOnWorkers(co.pc, wk), CoordWrites(c, co).go)
  {}

  lemma CoordFence(c: Config, s: State)
    requires Inv(c, s) && s.alive && CoordEnabled(s.co, s.wk)
    ensures var co, wk := CoordWrites(c, s.co), CoordOnWorkers(s.co.pc, s.wk);
            && TasksOk(wk, co.final) && SpawnOk(co, wk) && WordsOk(co) && BarriersOk(co, wk.owners)
            && (co.exposed ==> Fenced(wk, true))
  {
    CoordWords(c, s.co);
    CoordTasks(c, s);
    CoordBarriers(c, s.co, s.wk);
    FenceAfter(CoordWrites(c, s.co), CoordOnWorkers(s.co.pc, s.wk));
  }

  lemma CoordPreserves(c: Config, s: State)
    requires Inv(c, s) && s.alive && CoordEnabled(s.co, s.wk)
    ensures Inv(c, Apply(c, s, CoordActs))
  {
    CoordFence(c, s);
    CoordEvents(c, s);
    CoordCounters(c, s);
    CoordFreeze(c, s);
    CoordLocks(c, s.co, s.wk);
  }

  lemma CoordFailPreserves(c: Config, s: State, leaked: bool)
    requires Inv(c, s) && Enabled(c, s, CoordFails(leaked))
    ensures Inv(c, Apply(c, s, CoordFails(leaked)))
  {
    var t := Apply(c, s, CoordFails(leaked));
    if t.co.exposed { FenceFromTasks(t.wk, t.co.final); }
  }

  lemma SettlePreserves(c: Config, s: State, d: bool, p: bool, f: bool)
    requires Inv(c, s) && s.alive && s.co.pc.Finish?
    ensures Inv(c, Apply(c, s, Settle(d, p, f)))
  {
    var co := SettleWrites(c, s.co, d, p, f);
    SettleWords(c, s.co, d, p, f);
    SettleBarriers(c, s.co, s.wk.owners, d, p, f);
    SettleTasks(s.wk, s.co, co.final);
    SettleEvents(c, s, d, p, f);
    FenceAfter(co, s.wk);
  }

  lemma SettleEvents(c: Config, s: State, d: bool, p: bool, f: bool)
    requires EventsOk(c, s.co, s.de, s.toDst, s.toSrc) && MismatchOk(c, s.co, s.de, s.toDst, s.toSrc)
    requires FreezeOk(s.co, s.wk) && s.co.pc.Finish?
    ensures var t := SettleWrites(c, s.co, d, p, f);
            && EventsOk(c, t, s.de, s.toDst, s.toSrc) && MismatchOk(c, t, s.de, s.toDst, s.toSrc)
            && FreezeOk(t, s.wk) && SpawnOk(t, s.wk)
  {}

  lemma SettleWords(c: Config, co: Coordinator, d: bool, p: bool, f: bool)
    requires WordsOk(co) && co.pc.Finish?
    ensures WordsOk(SettleWrites(c, co, d, p, f))
  {}

  lemma SettleBarriers(c: Config, co: Coordinator, os: seq<Owner>, d: bool, p: bool, f: bool)
    requires BarriersOk(co, os) && WordsOk(co) && co.pc.Finish?
    ensures BarriersOk(SettleWrites(c, co, d, p, f), os)
  {}

  /** Before the final state is published no owner has read it. */
  lemma SettleTasks(wk: Workers, co: Coordinator, final: Option<Final>)
    requires TasksOk(wk, co.final) && OwnersOk(wk, co.go) && WordsOk(co) && co.pc.Finish?
    requires |wk.owners| == |co.go|
    ensures TasksOk(wk, final)
  {
    forall i | 0 <= i < |wk.owners| && i < |wk.threads| ensures TaskOk(wk.owners[i], wk.threads[i], final) {
      assert TaskOk(wk.owners[i], wk.threads[i], co.final);
      assert co.go[i] == 0;
    }
  }

  // ----- Steps of an owner -----

  lemma CountStep(wk: Workers, i: nat, o: Owner)
    requires i < |wk.owners| && CountersExact(wk)
    ensures AtLeast(wk.owners[i := o], PAST_MISC) + (if Rank(wk.owners[i]) >= PAST_MISC then 1 else 0)
         == wk.numMisc + (if Rank(o) >= PAST_MISC then 1 else 0)
    ensures AtLeast(wk.owners[i := o], PAST_DUMP) + (if Rank(wk.owners[i]) >= PAST_DUMP then 1 else 0)
         == wk.numProcess + (if Rank(o) >= PAST_DUMP then 1 else 0)
    ensures AtLeast(wk.owners[i := o], PAST_CURE) + (if Rank(wk.owners[i]) >= PAST_CURE then 1 else 0)
         == wk.cured + (if Rank(o) >= PAST_CURE then 1 else 0)
    ensures AtLeast(wk.owners[i := o], PAST_DONE) + (if Rank(wk.owners[i]) >= PAST_DONE then 1 else 0)
         == wk.processDone + (if Rank(o) >= PAST_DONE then 1 else 0)
  {
    AtLeastUpdate(wk.owners, i, o, PAST_MISC);
    AtLeastUpdate(wk.owners, i, o, PAST_DUMP);
    AtLeastUpdate(wk.owners, i, o, PAST_CURE);
    AtLeastUpdate(wk.owners, i, o, PAST_DONE);
  }

  /** One owner step that kills nobody keeps its own task consistent. */
  lemma OwnTask(o: Owner, ts: seq<Thread>, final: Option<Final>, how: Disposition)
    requires TaskOk(o, ts, final) && !o.Unborn? && |ts| > 0
    requires o.Gathering? ==> AllAre(ts, Armed) && !how.Kill?
    requires o.Gathering? ==> final.Some? && final.value != Dead && (how.Resume? ==> final.value == Alive)
    ensures TaskOk(NextOwner(o, |ts|, how), NextThreads(o, ts), final)
  {}

  /** An owner's own task, and every other, keep the facts of TasksOk. */
  lemma OwnerTasks(c: Config, s: State, i: nat)
    requires Inv(c, s) && s.alive && OwnerEnabled(s.wk, s.co, i) && i < |c.wasStopped|
    ensures TasksOk(OwnerWrites(c, s.wk, s.co.final, i), s.co.final)
  {
    var wk, final := s.wk, s.co.final;
    var t := OwnerWrites(c, wk, final, i);
    var how := HowTo(c, final, wk.owners[i], i);
    assert TaskOk(wk.owners[i], wk.threads[i], final);
    AtLeastAll(wk.owners, PAST_CURE);
    if how.Kill? {
      forall j | 0 <= j < |t.owners| ensures TaskOk(t.owners[j], t.threads[j], final) {
        assert TaskOk(wk.owners[j], wk.threads[j], final);
      }
    } else {
      OwnTask(wk.owners[i], wk.threads[i], final, how);
      forall j | 0 <= j < |t.owners| ensures TaskOk(t.owners[j], t.threads[j], final) {
        assert TaskOk(wk.owners[j], wk.threads[j], final);
      }
    }
  }

  /** Every enabled owner step moves up at most one rank at a time, the kill aside. */
  lemma OwnerRank(c: Config, wk: Workers, co: Coordinator, i: nat)
    requires OwnerEnabled(wk, co, i) && i < |c.wasStopped|
    ensures var o, t := wk.owners[i], OwnerWrites(c, wk, co.final, i);
            && 0 < Rank(o) <= Rank(t.owners[i]) <= Rank(o) + 2
            && (Rank(t.owners[i]) == Rank(o) ==> o.Seizing? || o.Releasing?)
            && (Rank(t.owners[i]) == Rank(o) + 2 ==> o.Gathering?)
  {}

  lemma OwnerCounters(c: Config, wk: Workers, co: Coordinator, i: nat)
    requires CountersExact(wk) && OwnerEnabled(wk, co, i) && i < |c.wasStopped|
    ensures CountersExact(OwnerWrites(c, wk, co.final, i))
  {
    var t := OwnerWrites(c, wk, co.final, i);
    OwnerRank(c, wk, co, i);
    CountStep(wk, i, t.owners[i]);
  }

  lemma OwnerBarriers(c: Config, wk: Workers, co: Coordinator, i: nat)
    requires BarriersOk(co, wk.owners) && OwnerEnabled(wk, co, i) && i < |c.wasStopped|
    ensures BarriersOk(co, OwnerWrites(c, wk, co.final, i).owners)
  {
    OwnerRank(c, wk, co, i);
  }

  lemma OwnerLocks(c: Config, wk: Workers, co: Coordinator, i: nat)
    requires OwnersOk(wk, co.go) && CountersExact(wk) && OwnerEnabled(wk, co, i) && i < |c.wasStopped|
    ensures OwnersOk(OwnerWrites(c, wk, co.final, i), co.go)
  {
    OwnerRank(c, wk, co, i);
    AtLeastAll(wk.owners, PAST_CURE);
  }

  lemma OwnerPreserves(c: Config, s: State, i: nat)
    requires Inv(c, s) && Enabled(c, s, OwnerActs(i))
    ensures Inv(c, Apply(c, s, OwnerActs(i)))
  {
    OwnerTasks(c, s, i);
    OwnerCounters(c, s.wk, s.co, i);
    OwnerBarriers(c, s.wk, s.co, i);
    OwnerLocks(c, s.wk, s.co, i);
    var t := Apply(c, s, OwnerActs(i));
    if t.co.exposed { FenceFromTasks(t.wk, t.co.final); }
  }

  // ----- Death of the controller -----

  /** Whatever the fence held under a living controller it holds after its death. */
  lemma OrphanHeld(c: Config, tss: seq<seq<Thread>>)
    requires |tss| > c.root && AllHeld(tss, true)
    ensures AllHeld(OrphanAll(c, tss), false)
  {
    var r := OrphanAll(c, tss);
    forall i, k | 0 <= i < |r| && 0 <= k < |r[i]| ensures Held(r[i][k], false) {
      assert Held(tss[i][k], true);
      assert tss[i][k] in tss[i];
    }
  }

  lemma DeathPreserves(c: Config, s: State, tss: seq<seq<Thread>>)
    requires Inv(c, s) && s.alive
    requires |tss| == |s.wk.threads| && forall j :: 0 <= j < |tss| ==> |tss[j]| == |s.wk.threads[j]|
    requires forall j :: 0 <= j < |tss| ==> tss[j] == s.wk.threads[j] || AllAre(tss[j], Killed)
    requires !s.co.multi ==> tss == s.wk.threads
    ensures Inv(c, s.(alive := false, wk := s.wk.(threads := OrphanAll(c, tss))))
  {
    if s.co.exposed {
      forall i, k | 0 <= i < |tss| && 0 <= k < |tss[i]| ensures Held(tss[i][k], true) {
        assert Held(s.wk.threads[i][k], s.alive);
      }
      OrphanHeld(c, tss);
    }
  }

  // ----- Steps of the destination, and of the wires -----

  lemma DestPreserves(c: Config, s: State)
    requires Inv(c, s) && Enabled(c, s, DestActs)
    ensures Inv(c, Apply(c, s, DestActs))
  {}

  lemma ReceivePreserves(c: Config, s: State, a: Action)
    requires Inv(c, s) && (a.CoordReceives? || a.DestReceives?) && Enabled(c, s, a)
    ensures Inv(c, Apply(c, s, a))
  {
    if a.CoordReceives? { assert s.toSrc[0] in s.toSrc; } else { assert s.toDst[0] in s.toDst; }
  }

  lemma DestFailPreserves(c: Config, s: State, left: bool)
    requires Inv(c, s) && Enabled(c, s, DestFails(left))
    ensures Inv(c, Apply(c, s, DestFails(left)))
  {}

  lemma StepPreserves(c: Config, s: State, a: Action)
    requires Inv(c, s) && Enabled(c, s, a)
    ensures Inv(c, Apply(c, s, a))
  {
    match a
    case CoordActs => CoordPreserves(c, s);
    case CoordFails(leaked) => CoordFailPreserves(c, s, leaked);
    case Settle(d, p, f) => SettlePreserves(c, s, d, p, f);
    case OwnerActs(i) => OwnerPreserves(c, s, i);
    case OwnerAborts(i) => DeathPreserves(c, s, BeforeAbort(c, s.wk, i));
    case ControllerDies => DeathPreserves(c, s, s.wk.threads);
    case DestActs => DestPreserves(c, s);
    case DestFails(left) => DestFailPreserves(c, s, left);
    case _ => ReceivePreserves(c, s, a);
  }

  lemma {:induction false} RunInv(c: Config, states: seq<State>, actions: seq<Action>, k: nat)
    requires ValidConfig(c) && IsRun(c, states, actions) && k < |states|
    ensures Inv(c, states[k])
  {
    if k == 0 {
      InitInv(c, states[0]);
    } else {
      RunInv(c, states, actions, k - 1);
      StepPreserves(c, states[k - 1], actions[k - 1]);
    }
  }

  // ----- The theorems, over every run -----

  /** At most one live copy. */
  lemma SingleLiveCopy(c: Config, states: seq<State>, actions: seq<Action>, k: nat)
    requires ValidConfig(c) && IsRun(c, states, actions) && k < |states|
    ensures !(SourceExecutes(states[k]) && states[k].de.live)
  {
    RunInv(c, states, actions, k);
    OneLiveCopy(c, states[k]);
  }

  lemma OneLiveCopy(c: Config, s: State)
    requires Inv(c, s)
    ensures !(SourceExecutes(s) && s.de.live)
  {
    if s.de.live {
      forall i, t | 0 <= i < |s.wk.threads| && 0 <= t < |s.wk.threads[i]|
        ensures !Executes(s.wk.threads[i][t])
      {
        assert Held(s.wk.threads[i][t], s.alive);
      }
    }
  }

  /** The destination executes exactly when its restore has come to an end that leaves
      tasks running: at its last point, and there always, or after a failing resume. */
  ghost predicate LiveOk(de: Destination) {
    && (de.pc.DLive? ==> de.live)
    && (de.live ==> de.pc.DLive? || de.pc.DFailed?)
  }

  lemma {:induction false} DestinationLive(c: Config, states: seq<State>, actions: seq<Action>, k: nat)
    requires IsRun(c, states, actions) && k < |states|
    ensures LiveOk(states[k].de)
  {
    if k > 0 {
      DestinationLive(c, states, actions, k - 1);
      LiveStepOk(c, states[k - 1], actions[k - 1]);
    }
  }

  lemma LiveStepOk(c: Config, s: State, a: Action)
    requires LiveOk(s.de) && Enabled(c, s, a)
    ensures LiveOk(Apply(c, s, a).de)
  {}

  lemma {:induction false} ExposureIsForever(c: Config, states: seq<State>, actions: seq<Action>, j: nat, k: nat)
    requires IsRun(c, states, actions) && j <= k < |states| && states[j].co.exposed
    ensures states[k].co.exposed
  {
    if j < k { ExposureIsForever(c, states, actions, j, k - 1); }
  }

  /** From the first byte of the final catalogue on, every source thread is held
      and no owner resumes one, whatever fails or is requested afterwards. */
  lemma ExposureFence(c: Config, states: seq<State>, actions: seq<Action>, j: nat, k: nat)
    requires ValidConfig(c) && IsRun(c, states, actions) && j <= k < |states| && states[j].co.exposed
    ensures Fenced(states[k].wk, states[k].alive)
    ensures states[k].co.final.Some? ==> states[k].co.final.value != Alive
  {
    ExposureIsForever(c, states, actions, j, k);
    RunInv(c, states, actions, k);
  }

  /** The counters are exact and never pass n; mutex1 admits one owner; an owner
      past the gathering point has seen every owner cure and a final state. */
  lemma CureBeforeRelease(c: Config, states: seq<State>, actions: seq<Action>, k: nat, i: nat)
    requires ValidConfig(c) && IsRun(c, states, actions) && k < |states| && i < |c.threads|
    ensures |states[k].wk.owners| == |c.threads| && CountersExact(states[k].wk)
    ensures states[k].wk.numMisc <= |c.threads| && states[k].wk.numProcess <= |c.threads|
    ensures states[k].wk.cured <= |c.threads| && states[k].wk.processDone <= |c.threads|
    ensures Rank(states[k].wk.owners[i]) >= 10 ==>
              AllPast(states[k].wk.owners, PAST_CURE) && states[k].co.final.Some?
    ensures 6 <= Rank(states[k].wk.owners[i]) <= 7 ==>
              forall j :: 0 <= j < |c.threads| && 6 <= Rank(states[k].wk.owners[j]) <= 7 ==> j == i
  {
    RunInv(c, states, actions, k);
    var s := states[k];
    AtLeastAll(s.wk.owners, PAST_MISC);
    AtLeastAll(s.wk.owners, PAST_DUMP);
    AtLeastAll(s.wk.owners, PAST_CURE);
    AtLeastAll(s.wk.owners, PAST_DONE);
    if Rank(s.wk.owners[i]) >= 10 { assert s.co.go[i] != 0; }
    if 6 <= Rank(s.wk.owners[i]) <= 7 { assert s.wk.mutex1 == Some(i); }
  }

  /** The reason for the gathering barrier: no owner ever talks to the parasite of
      a task that another owner's kill has taken down. */
  lemma CuresOnlyLivingTasks(c: Config, states: seq<State>, actions: seq<Action>, k: nat, i: nat)
    requires ValidConfig(c) && IsRun(c, states, actions) && k < |states| && i < |c.threads|
    requires states[k].alive && |states[k].wk.owners| == |c.threads|
    requires 2 <= Rank(states[k].wk.owners[i]) <= 8
    ensures |states[k].wk.threads| == |c.threads| && AllAre(states[k].wk.threads[i], Armed)
  {
    RunInv(c, states, actions, k);
    assert TaskOk(states[k].wk.owners[i], states[k].wk.threads[i], states[k].co.final);
  }

  /** A source thread leaves plain execution only after the network is locked, and
      that only after the destination is set up and has applied the refresh; the
      destination reads the tree only after the final images are flushed and published. */
  lemma HandshakeOrder(c: Config, states: seq<State>, actions: seq<Action>, k: nat)
    requires ValidConfig(c) && IsRun(c, states, actions) && k < |states|
    ensures var s := states[k];
      && (forall i, t :: 0 <= i < |s.wk.threads| && 0 <= t < |s.wk.threads[i]| && s.wk.threads[i][t] != Running
            ==> s.co.netLocked)
      && (s.co.netLocked ==> s.de.setupDone && (c.destStage ==> s.de.refreshApplied))
      && (s.de.treeRead ==> s.co.flushed && s.co.published && s.co.exposed)
  {
    RunInv(c, states, actions, k);
  }

  /** With different `parent_stage` settings the network is never locked. */
  lemma MismatchNeverLocks(c: Config, states: seq<State>, actions: seq<Action>, k: nat)
    requires ValidConfig(c) && IsRun(c, states, actions) && k < |states|
    requires c.sourceStage != c.destStage
    ensures !states[k].co.netLocked && !states[k].co.exposed && !states[k].de.live
  {
    RunInv(c, states, actions, k);
  }
}
