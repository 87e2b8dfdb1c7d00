/** What has happened by a state of a run: the flags of both hosts are exactly the
    statements already executed, and the threads of the source what those made of them. */
module MigrationHistory {
  import opened Options
  import opened Migration
  import opened MigrationSafety

  /** The coordinator has executed the statement at p. */
  ghost predicate CoordDid(states: seq<State>, actions: seq<Action>, k: nat, p: Coord)
    requires k <= |actions| <= |states|
  {
    exists j :: 0 <= j < k && actions[j] == CoordActs && states[j].co.pc == p
  }

  ghost predicate DestDid(states: seq<State>, actions: seq<Action>, k: nat, p: Dest)
    requires k <= |actions| <= |states|
  {
    exists j :: 0 <= j < k && actions[j] == DestActs && states[j].de.pc == p
  }

  /** A final send failed after bytes had left. */
  ghost predicate Leaked(states: seq<State>, actions: seq<Action>, k: nat)
    requires k <= |actions| <= |states|
  {
    exists j :: 0 <= j < k && actions[j] == CoordFails(true) && states[j].co.pc == SendFinal
  }

  lemma CoordDidStep(states: seq<State>, actions: seq<Action>, k: nat, p: Coord)
    requires 0 < k <= |actions| <= |states|
    ensures CoordDid(states, actions, k, p) <==>
            CoordDid(states, actions, k - 1, p) || (actions[k - 1] == CoordActs && states[k - 1].co.pc == p)
  {}

  lemma DestDidStep(states: seq<State>, actions: seq<Action>, k: nat, p: Dest)
    requires 0 < k <= |actions| <= |states|
    ensures DestDid(states, actions, k, p) <==>
            DestDid(states, actions, k - 1, p) || (actions[k - 1] == DestActs && states[k - 1].de.pc == p)
  {}

  lemma LeakedStep(states: seq<State>, actions: seq<Action>, k: nat)
    requires 0 < k <= |actions| <= |states|
    ensures Leaked(states, actions, k) <==>
            Leaked(states, actions, k - 1) || (actions[k - 1] == CoordFails(true) && states[k - 1].co.pc == SendFinal)
  {}

  /** The flags of the source say exactly what the coordinator has done. */
  lemma {:induction false} SourceFlagsExact(c: Config, states: seq<State>, actions: seq<Action>, k: nat)
    requires IsRun(c, states, actions) && k < |states|
    ensures states[k].co.flushed <==> CoordDid(states, actions, k, FlushImages)
    ensures states[k].co.published <==> CoordDid(states, actions, k, PublishFinal)
    ensures states[k].co.netLocked <==> CoordDid(states, actions, k, LockNetwork)
    ensures states[k].co.multi <==> CoordDid(states, actions, k, DetachAll)
    ensures states[k].co.exposed <==> CoordDid(states, actions, k, SendFinal) || Leaked(states, actions, k)
  {
    if k > 0 {
      SourceFlagsExact(c, states, actions, k - 1);
      CoordDidStep(states, actions, k, FlushImages);
      CoordDidStep(states, actions, k, PublishFinal);
      CoordDidStep(states, actions, k, LockNetwork);
      CoordDidStep(states, actions, k, DetachAll);
      CoordDidStep(states, actions, k, SendFinal);
      LeakedStep(states, actions, k);
      SourceFlagsStep(c, states[k - 1], actions[k - 1]);
      ExposureStep(c, states[k - 1], actions[k - 1]);
    }
  }

  lemma SourceFlagsStep(c: Config, s: State, a: Action)
    requires Enabled(c, s, a)
    ensures var t, did := Apply(c, s, a).co, a.CoordActs?;
      && (t.flushed <==> s.co.flushed || (did && s.co.pc == FlushImages))
      && (t.published <==> s.co.published || (did && s.co.pc == PublishFinal))
      && (t.netLocked <==> s.co.netLocked || (did && s.co.pc == LockNetwork))
      && (t.multi <==> s.co.multi || (did && s.co.pc == DetachAll))
  {}

  lemma ExposureStep(c: Config, s: State, a: Action)
    requires Enabled(c, s, a)
    ensures Apply(c, s, a).co.exposed <==>
            s.co.exposed || ((a.CoordActs? || a == CoordFails(true)) && s.co.pc == SendFinal)
  {}

  /** The flags of the destination say exactly what it has done. */
  lemma {:induction false} DestFlagsExact(c: Config, states: seq<State>, actions: seq<Action>, k: nat)
    requires IsRun(c, states, actions) && k < |states|
    ensures states[k].de.setupDone <==> DestDid(states, actions, k, DSetup)
    ensures states[k].de.refreshApplied <==> DestDid(states, actions, k, DApply)
    ensures states[k].de.treeRead <==> DestDid(states, actions, k, DReadTree)
  {
    if k > 0 {
      DestFlagsExact(c, states, actions, k - 1);
      DestDidStep(states, actions, k, DSetup);
      DestDidStep(states, actions, k, DApply);
      DestDidStep(states, actions, k, DReadTree);
      DestFlagsStep(c, states[k - 1], actions[k - 1]);
    }
  }

  lemma DestFlagsStep(c: Config, s: State, a: Action)
    requires Enabled(c, s, a)
    ensures var t, did := Apply(c, s, a).de, a.DestActs?;
      && (t.setupDone <==> s.de.setupDone || (did && s.de.pc == DSetup))
      && (t.refreshApplied <==> s.de.refreshApplied || (did && s.de.pc == DApply))
      && (t.treeRead <==> s.de.treeRead || (did && s.de.pc == DReadTree))
  {}

  /** The handshake as history: before the source locks the network the destination has
      finished its setup, and with staging the source has published the refresh and the
      destination has applied it; before the destination reads the tree the source has
      flushed and published the final images. */
  lemma HandshakeHistory(c: Config, states: seq<State>, actions: seq<Action>, k: nat)
    requires ValidConfig(c) && IsRun(c, states, actions) && k < |states|
    ensures CoordDid(states, actions, k, LockNetwork) ==> DestDid(states, actions, k, DSetup)
    ensures CoordDid(states, actions, k, LockNetwork) && c.destStage ==>
              DestDid(states, actions, k, DApply) && CoordDid(states, actions, k, PublishRefresh)
    ensures DestDid(states, actions, k, DReadTree) ==>
              CoordDid(states, actions, k, FlushImages) && CoordDid(states, actions, k, PublishFinal)
  {
    SourceFlagsExact(c, states, actions, k);
    DestFlagsExact(c, states, actions, k);
    HandshakeOrder(c, states, actions, k);
    RefreshPublished(c, states, actions, k);
  }

  /** The refresh is on its way to the destination, or there. */
  predicate RefreshUnderWay(s: State) {
    || s.co.pc == NotifyRefresh || RefreshDone in s.toDst || RefreshDone in s.de.got
    || s.de.pc == DApply || s.de.refreshApplied
  }

  lemma RefreshStep(c: Config, s: State, a: Action)
    requires Enabled(c, s, a) && RefreshUnderWay(Apply(c, s, a))
    ensures RefreshUnderWay(s) || (a.CoordActs? && s.co.pc == PublishRefresh)
  {}

  lemma {:induction false} RefreshPublished(c: Config, states: seq<State>, actions: seq<Action>, k: nat)
    requires IsRun(c, states, actions) && k < |states|
    ensures RefreshUnderWay(states[k]) ==> CoordDid(states, actions, k, PublishRefresh)
  {
    if k > 0 && RefreshUnderWay(states[k]) {
      RefreshStep(c, states[k - 1], actions[k - 1]);
      RefreshPublished(c, states, actions, k - 1);
      CoordDidStep(states, actions, k, PublishRefresh);
    }
  }

  // ----- The threads -----

  ghost predicate Everyone(wk: Workers, t: Thread) {
    forall i :: 0 <= i < |wk.threads| ==> AllAre(wk.threads[i], t)
  }

  lemma FrozenStep(c: Config, s: State, a: Action)
    requires Inv(c, s) && Enabled(c, s, a) && (s.alive && s.co.pc.DetachAll? ==> Everyone(s.wk, Trapped))
    ensures var t := Apply(c, s, a); t.alive && t.co.pc.DetachAll? ==> Everyone(t.wk, Trapped)
  {}

  lemma {:induction false} FrozenRun(c: Config, states: seq<State>, actions: seq<Action>, k: nat)
    requires ValidConfig(c) && IsRun(c, states, actions) && k < |states|
    ensures states[k].alive && states[k].co.pc.DetachAll? ==> Everyone(states[k].wk, Trapped)
  {
    if k > 0 {
      FrozenRun(c, states, actions, k - 1);
      RunInv(c, states, actions, k - 1);
      FrozenStep(c, states[k - 1], actions[k - 1]);
    }
  }

  lemma RunningAtSpawn(c: Config, s: State)
    requires Inv(c, s) && s.alive && s.co.pc == Spawn(0)
    ensures Everyone(s.wk, Running)
  {
    forall i | 0 <= i < |s.wk.threads| ensures AllAre(s.wk.threads[i], Running) {
      assert s.wk.owners[i] == Unborn;
    }
  }

  /** When the tree has been collected every thread of every task is stopped under its
      trace, and when the coordinator has detached from it every thread runs. */
  lemma FrozenThenReleased(c: Config, states: seq<State>, actions: seq<Action>, k: nat)
    requires ValidConfig(c) && IsRun(c, states, actions) && k < |states| && states[k].alive
    ensures states[k].co.pc.DetachAll? ==> Everyone(states[k].wk, Trapped)
    ensures states[k].co.pc == Spawn(0) ==> Everyone(states[k].wk, Running)
  {
    FrozenRun(c, states, actions, k);
    RunInv(c, states, actions, k);
    if states[k].co.pc == Spawn(0) { RunningAtSpawn(c, states[k]); }
  }

  /** What the death of the controller makes of a task: an armed thread takes the whole
      task with it, an armed init its whole namespace; otherwise traced threads run on
      and no thread is touched that was not traced. */
  lemma DeathExactly(c: Config, tss: seq<seq<Thread>>, i: nat)
    requires c.root < |tss| && i < |tss|
    ensures Armed in tss[i] || (c.pidNamespace && Armed in tss[c.root]) ==> AllAre(OrphanAll(c, tss)[i], Killed)
    ensures !(Armed in tss[i] || (c.pidNamespace && Armed in tss[c.root])) ==>
              forall k :: 0 <= k < |tss[i]| ==>
                OrphanAll(c, tss)[i][k] == if tss[i][k] == Traced || tss[i][k] == Trapped then Running else tss[i][k]
  {}

  predicate Untraced(ts: seq<Thread>) {
    forall k :: 0 <= k < |ts| ==> ts[k] == Running || ts[k] == Halted || ts[k] == Killed
  }

  /** Once the controller is dead no thread is left traced: each runs, is stopped or is
      dead, and stays so. */
  lemma {:induction false} NoneLeftTraced(c: Config, states: seq<State>, actions: seq<Action>, k: nat, i: nat)
    requires ValidConfig(c) && IsRun(c, states, actions) && k < |states|
    requires !states[k].alive && i < |states[k].wk.threads|
    ensures Untraced(states[k].wk.threads[i])
  {
    if k > 0 {
      var s, a := states[k - 1], actions[k - 1];
      RunInv(c, states, actions, k - 1);
      if !s.alive {
        NoneLeftTraced(c, states, actions, k - 1, i);
      } else {
        var before := if a.OwnerAborts? then BeforeAbort(c, s.wk, a.owner) else s.wk.threads;
        DeathExactly(c, before, i);
      }
    }
  }

  /** A coordinator statement can fail on its own exactly if it neither waits, nor notifies
      the peer, nor only starts, opens or ends something. */
  lemma FallibleExactly(p: Coord)
    ensures CoordMayFail(p) <==>
      && CoordAwaits(p).None? && CoordSends(p) == []
      && !p.Spawn? && !p.AwaitMisc? && !p.AwaitDumps? && !p.AwaitDone?
      && !p.NotifyPages? && !p.Finish? && !p.Open? && !p.Returned?
  {}
}
