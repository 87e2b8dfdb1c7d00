/** Progress of the migration: nothing waits for ever, and a run in which nothing
    fails is finite and can only end with every owner done and the destination live. */
module MigrationProgress {
  import opened Options
  import opened Migration
  import opened MigrationSafety

  predicate FailureFree(a: Action) {
    match a
    case CoordActs => true
    case CoordReceives => true
    case Settle(d, p, f) => !d && !p && !f
    case OwnerActs(_) => true
    case DestActs => true
    case DestReceives => true
    case _ => false
  }

  predicate Complete(s: State) {
    && s.co.pc == Returned
    && s.wk.processDone == |s.wk.owners|
    && s.de.pc == DLive
  }

  // ----- The source alone -----

  /** An owner that has not yet passed the dump barrier can always move. */
  lemma EarlyOwner(c: Config, s: State, i: nat)
    requires Inv(c, s) && s.alive && i < |s.wk.owners| && 1 <= Rank(s.wk.owners[i]) <= 3
    ensures OwnerEnabled(s.wk, s.co, i)
  {
    assert TaskOk(s.wk.owners[i], s.wk.threads[i], s.co.final);
  }

  /** Once every processes[] word is open, some unfinished owner can move: one that
      is still curing, the holder of mutex1, or one past the gathering point. */
  lemma LateOwner(c: Config, s: State, i: nat) returns (j: nat)
    requires Inv(c, s) && s.alive && s.co.final.Some? && Opened(s.co) == |s.co.go|
    requires AllPast(s.wk.owners, 1)
    requires i < |s.wk.owners| && Rank(s.wk.owners[i]) < PAST_DONE
    ensures j < |s.wk.owners| && OwnerEnabled(s.wk, s.co, j)
  {
    j := i;
    AtLeastAll(s.wk.owners, PAST_CURE);
    if exists m :: 0 <= m < |s.wk.owners| && Rank(s.wk.owners[m]) < PAST_CURE {
      j :| 0 <= j < |s.wk.owners| && Rank(s.wk.owners[j]) < PAST_CURE;
      if Rank(s.wk.owners[j]) == 5 && s.wk.mutex1.Some? {
        j := s.wk.mutex1.value;
      }
    }
    assert TaskOk(s.wk.owners[j], s.wk.threads[j], s.co.final);
    assert s.co.go[j] == 1;
  }

  /** Past the spawn, and whatever has failed so far, a living controller that has
      not returned always has a next step of its own. */
  lemma SourceNeverStuck(c: Config, states: seq<State>, actions: seq<Action>, k: nat)
    requires ValidConfig(c) && IsRun(c, states, actions) && k < |states|
    requires states[k].alive && Phase(states[k].co.pc) >= 10
    ensures states[k].co.pc == Returned
         || Enabled(c, states[k], CoordActs)
         || Enabled(c, states[k], Settle(false, false, false))
         || exists i :: Enabled(c, states[k], OwnerActs(i))
    ensures states[k].co.pc == Returned && states[k].co.multi ==>
              states[k].wk.processDone == |states[k].wk.owners|
  {
    RunInv(c, states, actions, k);
    if states[k].co.pc != Returned { SourceMoves(c, states[k]); }
    AtLeastAll(states[k].wk.owners, PAST_DONE);
  }

  lemma SourceMoves(c: Config, s: State)
    requires Inv(c, s) && s.alive && Phase(s.co.pc) >= 10 && s.co.pc != Returned
    ensures Enabled(c, s, CoordActs) || Enabled(c, s, Settle(false, false, false))
         || exists i :: Enabled(c, s, OwnerActs(i))
  {
    var os := s.wk.owners;
    if s.co.pc.AwaitMisc? && s.wk.numMisc != |os| {
      AtLeastAll(os, PAST_MISC);
      var i :| 0 <= i < |os| && Rank(os[i]) < PAST_MISC;
      EarlyOwner(c, s, i);
      assert Enabled(c, s, OwnerActs(i));
    } else if s.co.pc.AwaitDumps? && s.wk.numProcess != |os| {
      AtLeastAll(os, PAST_DUMP);
      var i :| 0 <= i < |os| && Rank(os[i]) < PAST_DUMP;
      EarlyOwner(c, s, i);
      assert Enabled(c, s, OwnerActs(i));
    } else if s.co.pc.AwaitDone? && s.wk.processDone != |os| {
      AtLeastAll(os, PAST_DONE);
      var i :| 0 <= i < |os| && Rank(os[i]) < PAST_DONE;
      var j := LateOwner(c, s, i);
      assert Enabled(c, s, OwnerActs(j));
    } else if s.co.pc.Finish? {
      assert Enabled(c, s, Settle(false, false, false));
    } else {
      assert Enabled(c, s, CoordActs);
    }
  }

  // ----- Both hosts, when nothing fails -----

  /** Everything a host has sent is received or on the wire. */
  ghost predicate SentOk(c: Config, s: State) {
    SourceSent(c, Phase(s.co.pc), s.toDst, s.de.got) && DestSent(c, DestPhase(s.de.pc), s.toSrc, s.co.got)
  }

  ghost predicate SourceSent(c: Config, p: nat, toDst: seq<Event>, got: set<Event>) {
    && (p >= 2 ==> NamespaceDone in toDst || NamespaceDone in got)
    && (c.sourceStage && p >= 5 ==> RefreshDone in toDst || RefreshDone in got)
    && (p >= 19 ==> EndProcessDump in toDst || EndProcessDump in got)
  }

  ghost predicate DestSent(c: Config, d: nat, toSrc: seq<Event>, got: set<Event>) {
    && (c.destStage && d >= 3 ==> RefreshRequest in toSrc || RefreshRequest in got)
    && (c.destStage && d >= 6 ==> RefreshApplied in toSrc || RefreshApplied in got)
    && (d >= 7 ==> StartProcessDump in toSrc || StartProcessDump in got)
  }

  ghost predicate LiveInv(c: Config, s: State) {
    && Inv(c, s) && s.alive && !s.de.pc.DFailed?
    && c.sourceStage == c.destStage
    && s.co.pc != Finish(true)
    && (Phase(s.co.pc) >= 10 ==> s.co.multi)
    && SentOk(c, s) && LiveOk(s.de)
  }

  lemma LiveInit(c: Config, s: State)
    requires ValidConfig(c) && Init(c, s) && c.sourceStage == c.destStage
    ensures LiveInv(c, s)
  {
    InitInv(c, s);
  }

  lemma CoordSent(c: Config, s: State)
    requires LiveInv(c, s) && Enabled(c, s, CoordActs)
    ensures SentOk(c, Apply(c, s, CoordActs))
  {
    NextSent(c, s.co.pc, |s.co.go|, s.toDst, s.de.got);
  }

  lemma NextSent(c: Config, pc: Coord, n: nat, toDst: seq<Event>, got: set<Event>)
    requires SourceSent(c, Phase(pc), toDst, got) && !pc.Finish? && !pc.Returned?
    ensures SourceSent(c, Phase(NextCoord(c, pc, n)), toDst + CoordSends(pc), got)
  {}

  lemma ReceiveSent(c: Config, s: State, a: Action)
    requires LiveInv(c, s) && (a.CoordReceives? || a.DestReceives?) && Enabled(c, s, a)
    ensures SentOk(c, Apply(c, s, a))
  {
    if a.CoordReceives? {
      assert s.toSrc == [s.toSrc[0]] + s.toSrc[1..];
    } else {
      assert s.toDst == [s.toDst[0]] + s.toDst[1..];
    }
  }

  lemma OtherSent(c: Config, s: State, a: Action)
    requires LiveInv(c, s) && (a.OwnerActs? || a.DestActs? || a == Settle(false, false, false)) && Enabled(c, s, a)
    ensures var t := Apply(c, s, a);
            && SentOk(c, t) && t.alive && !t.de.pc.DFailed? && t.co.pc != Finish(true)
            && (Phase(t.co.pc) >= 10 ==> t.co.multi)
  {}

  lemma LiveStep(c: Config, s: State, a: Action)
    requires LiveInv(c, s) && FailureFree(a) && Enabled(c, s, a)
    ensures LiveInv(c, Apply(c, s, a))
  {
    StepPreserves(c, s, a);
    LiveStepOk(c, s, a);
    match a
    case CoordActs => CoordSent(c, s);
    case CoordReceives => ReceiveSent(c, s, a);
    case DestReceives => ReceiveSent(c, s, a);
    case _ => OtherSent(c, s, a);
  }

  /** A destination whose peer has sent what it awaits can move. */
  lemma DestMoves(c: Config, s: State)
    requires LiveInv(c, s) && !s.de.pc.DLive?
    requires DestAwaits(s.de.pc).Some? ==>
               DestAwaits(s.de.pc).value in s.toDst || DestAwaits(s.de.pc).value in s.de.got
    ensures Enabled(c, s, DestActs) || Enabled(c, s, DestReceives)
  {}

  /** The product of the two phase machines and the owners never deadlocks. */
  lemma NeverDeadlocks(c: Config, s: State) returns (a: Action)
    requires LiveInv(c, s) && !Complete(s)
    ensures FailureFree(a) && Enabled(c, s, a)
  {
    if Phase(s.co.pc) >= 10 && s.co.pc != Returned {
      SourceMoves(c, s);
      if Enabled(c, s, CoordActs) {
        a := CoordActs;
      } else if Enabled(c, s, Settle(false, false, false)) {
        a := Settle(false, false, false);
      } else {
        var i :| Enabled(c, s, OwnerActs(i));
        a := OwnerActs(i);
      }
    } else if s.co.pc == Returned {
      AtLeastAll(s.wk.owners, PAST_DONE);
      DestMoves(c, s);
      a := if Enabled(c, s, DestActs) then DestActs else DestReceives;
    } else if Enabled(c, s, CoordActs) {
      a := CoordActs;
    } else if Enabled(c, s, CoordReceives) {
      a := CoordReceives;
    } else {
      // the awaited event was never sent, so the destination is still before it
      DestMoves(c, s);
      a := if Enabled(c, s, DestActs) then DestActs else DestReceives;
    }
  }

  // ----- A measure that every failure-free step lowers -----

  /** Statements left for one owner of a task with n threads. */
  function OwnerLeft(o: Owner, n: nat): nat {
    match o
    case Unborn => 4 * n + 10
    case Seizing(k, phase) => if k < n && phase < 3 then n + 9 + 3 * (n - k) - phase else 0
    case Infecting => n + 9
    case Saving => n + 8
    case Parked => n + 7
    case Unprotected => n + 6
    case Curing => n + 5
    case CuredLocked => n + 4
    case Unlocked => n + 3
    case Gathering => n + 2
    case Releasing(_, k) => if k < n then 1 + (n - k) else 1
    case Released => 1
    case Finished => 0
  }

  function AllLeft(os: seq<Owner>, ns: seq<nat>): nat
    requires |os| == |ns|
  {
    if os == [] then 0 else OwnerLeft(os[0], ns[0]) + AllLeft(os[1..], ns[1..])
  }

  lemma {:induction false} AllLeftUpdate(os: seq<Owner>, ns: seq<nat>, i: nat, o: Owner)
    requires |os| == |ns| && i < |os|
    ensures AllLeft(os[i := o], ns) + OwnerLeft(os[i], ns[i]) == AllLeft(os, ns) + OwnerLeft(o, ns[i])
  {
    if i == 0 {
      assert os[i := o][1..] == os[1..];
    } else {
      AllLeftUpdate(os[1..], ns[1..], i - 1, o);
      assert os[i := o][1..] == os[1..][i - 1 := o];
    }
  }

  function CoordLeft(pc: Coord, n: nat): nat {
    (23 - Phase(pc)) * (n + 1)
      + (if pc.Spawn? && pc.next < n then n - pc.next else if pc.Open? && pc.next < n then n - pc.next else 0)
  }

  function Measure(c: Config, s: State): nat
    requires |s.wk.owners| == |c.threads|
  {
    AllLeft(s.wk.owners, c.threads) + 2 * CoordLeft(s.co.pc, |c.threads|) + 2 * (12 - DestPhase(s.de.pc))
      + |s.toDst| + |s.toSrc|
  }

  lemma CoordLowers(c: Config, pc: Coord, n: nat)
    requires !pc.Finish? && !pc.Returned? && n > 0
    requires pc.Spawn? || pc.Open? ==> pc.next < n
    ensures CoordLeft(NextCoord(c, pc, n), n) < CoordLeft(pc, n)
  {}

  lemma OwnerLowers(o: Owner, ts: seq<Thread>, final: Option<Final>, how: Disposition)
    requires TaskOk(o, ts, final) && !o.Unborn? && !o.Finished? && |ts| > 0
    ensures OwnerLeft(NextOwner(o, |ts|, how), |ts|) < OwnerLeft(o, |ts|)
  {}

  lemma CoordStepLowers(c: Config, s: State)
    requires LiveInv(c, s) && Enabled(c, s, CoordActs)
    ensures |Apply(c, s, CoordActs).wk.owners| == |c.threads|
    ensures Measure(c, Apply(c, s, CoordActs)) < Measure(c, s)
  {
    CoordLowers(c, s.co.pc, |c.threads|);
    assert |CoordSends(s.co.pc)| <= 1;
    if s.co.pc.Spawn? {
      AllLeftUpdate(s.wk.owners, c.threads, s.co.pc.next, Seizing(0, 0));
    } else {
      assert CoordOnWorkers(s.co.pc, s.wk).owners == s.wk.owners;
    }
  }

  lemma OwnerStepLowers(c: Config, s: State, i: nat)
    requires LiveInv(c, s) && Enabled(c, s, OwnerActs(i))
    ensures |Apply(c, s, OwnerActs(i)).wk.owners| == |c.threads|
    ensures Measure(c, Apply(c, s, OwnerActs(i))) < Measure(c, s)
  {
    var o, ts := s.wk.owners[i], s.wk.threads[i];
    assert TaskOk(o, ts, s.co.final);
    OwnerLowers(o, ts, s.co.final, HowTo(c, s.co.final, o, i));
    AllLeftUpdate(s.wk.owners, c.threads, i, NextOwner(o, |ts|, HowTo(c, s.co.final, o, i)));
  }

  lemma OtherStepLowers(c: Config, s: State, a: Action)
    requires LiveInv(c, s) && FailureFree(a) && Enabled(c, s, a) && !a.CoordActs? && !a.OwnerActs?
    ensures |Apply(c, s, a).wk.owners| == |c.threads|
    ensures Measure(c, Apply(c, s, a)) < Measure(c, s)
  {
    match a
    case DestActs => DestLowers(c, s.de.pc);
    case Settle(d, p, f) => SettleLowers(c, s.co, |c.threads|, d, p, f);
    case _ =>
  }

  lemma DestLowers(c: Config, d: Dest)
    requires !d.DLive? && !d.DFailed?
    ensures 2 * (12 - DestPhase(NextDest(c, d))) + |DestSends(d)| < 2 * (12 - DestPhase(d))
  {}

  lemma SettleLowers(c: Config, co: Coordinator, n: nat, d: bool, p: bool, f: bool)
    requires co.pc.Finish?
    ensures CoordLeft(SettleWrites(c, co, d, p, f).pc, n) < CoordLeft(co.pc, n)
  {}

  lemma StepLowers(c: Config, s: State, a: Action)
    requires LiveInv(c, s) && FailureFree(a) && Enabled(c, s, a)
    ensures |Apply(c, s, a).wk.owners| == |c.threads|
    ensures Measure(c, Apply(c, s, a)) < Measure(c, s)
  {
    match a
    case CoordActs => CoordStepLowers(c, s);
    case OwnerActs(i) => OwnerStepLowers(c, s, i);
    case _ => OtherStepLowers(c, s, a);
  }

  lemma {:induction false} LiveRun(c: Config, states: seq<State>, actions: seq<Action>, k: nat)
    requires ValidConfig(c) && IsRun(c, states, actions) && k < |states|
    requires c.sourceStage == c.destStage
    requires forall m :: 0 <= m < |actions| ==> FailureFree(actions[m])
    ensures LiveInv(c, states[k]) && |states[0].wk.owners| == |c.threads|
    ensures Measure(c, states[k]) + k <= Measure(c, states[0])
  {
    if k == 0 {
      LiveInit(c, states[0]);
    } else {
      LiveRun(c, states, actions, k - 1);
      LiveStep(c, states[k - 1], actions[k - 1]);
      StepLowers(c, states[k - 1], actions[k - 1]);
    }
  }

  /** The migration is over: the destination executes and no source thread does. */
  ghost predicate MovedOver(s: State) {
    s.de.live && !SourceExecutes(s)
  }

  lemma CompleteMeansMoved(c: Config, s: State)
    requires LiveInv(c, s) && Complete(s)
    ensures MovedOver(s)
  {
    OneLiveCopy(c, s);
  }

  /** With matching `parent_stage` settings, a failure-free run is never longer than
      the initial measure, and one that cannot be extended has every owner past
      process_done and the coordinator returned, the destination executing and no source
      thread executing. */
  lemma FailureFreeRunsComplete(c: Config, states: seq<State>, actions: seq<Action>)
    requires ValidConfig(c) && IsRun(c, states, actions) && c.sourceStage == c.destStage
    requires forall m :: 0 <= m < |actions| ==> FailureFree(actions[m])
    ensures |states[0].wk.owners| == |c.threads| && |actions| <= Measure(c, states[0])
    ensures (Complete(states[|actions|]) && MovedOver(states[|actions|]))
         || exists a :: FailureFree(a) && Enabled(c, states[|actions|], a)
  {
    LiveRun(c, states, actions, |actions|);
    if Complete(states[|actions|]) {
      CompleteMeansMoved(c, states[|actions|]);
    } else {
      var a := NeverDeadlocks(c, states[|actions|]);
    }
  }

  lemma PathCons(c: Config, s: State, a: Action, states: seq<State>, actions: seq<Action>)
    requires IsPath(c, states, actions) && Enabled(c, s, a) && states[0] == Apply(c, s, a)
    ensures IsPath(c, [s] + states, [a] + actions)
  {}

  /** A path on from s at the end of which everything is complete. */
  lemma {:induction false} CompletionFrom(c: Config, s: State) returns (states: seq<State>, actions: seq<Action>)
    requires LiveInv(c, s)
    ensures IsPath(c, states, actions) && states[0] == s
    ensures Complete(states[|actions|]) && LiveInv(c, states[|actions|]) && MovedOver(states[|actions|])
    decreases Measure(c, s)
  {
    if Complete(s) {
      CompleteMeansMoved(c, s);
      states, actions := [s], [];
    } else {
      var a := NeverDeadlocks(c, s);
      LiveStep(c, s, a);
      StepLowers(c, s, a);
      var t, rest := CompletionFrom(c, Apply(c, s, a));
      PathCons(c, s, a, t, rest);
      states, actions := [s] + t, [a] + rest;
      assert states[|actions|] == t[|rest|];
    }
  }

  /** The two hosts can get past the freeze exactly when their `parent_stage`
      settings agree. */
  lemma LocksIffStagesMatch(c: Config, s: State)
    requires ValidConfig(c) && Init(c, s)
    ensures c.sourceStage == c.destStage <==>
      exists states: seq<State>, actions: seq<Action> ::
        IsRun(c, states, actions) && states[0] == s && states[|actions|].co.netLocked
  {
    if c.sourceStage == c.destStage {
      LiveInit(c, s);
      var states, actions := CompletionFrom(c, s);
      assert IsRun(c, states, actions) && states[|actions|].co.netLocked;
    } else {
      forall states: seq<State>, actions: seq<Action> | IsRun(c, states, actions) && states[0] == s
        ensures !states[|actions|].co.netLocked
      {
        MismatchNeverLocks(c, states, actions, |actions|);
      }
    }
  }
}
