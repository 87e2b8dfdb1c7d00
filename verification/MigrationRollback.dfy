/** How a migration ends on the source when the controller lives to see it: the tasks are
    as the final state says, and a failure before exposure puts them back as they were. */
module MigrationRollback {
  import opened Options
  import opened Migration
  import opened MigrationSafety

  /** A task released alive runs again, or is stopped if it was stopped before. */
  predicate BackAsBefore(wasStopped: bool, o: Owner, ts: seq<Thread>) {
    match o
    case Releasing(resume, _) => resume == !wasStopped
    case Released => AllAre(ts, if wasStopped then Halted else Running)
    case Finished => AllAre(ts, if wasStopped then Halted else Running)
    case _ => true
  }

  ghost predicate Restoring(c: Config, wk: Workers, final: Option<Final>) {
    final == Some(Alive) ==>
      forall i :: 0 <= i < |wk.owners| && i < |wk.threads| && i < |c.wasStopped| ==>
        BackAsBefore(c.wasStopped[i], wk.owners[i], wk.threads[i])
  }

  /** One statement of an owner that has been told to let its task live. */
  lemma OwnTaskBack(o: Owner, ts: seq<Thread>, wasStopped: bool)
    requires TaskOk(o, ts, Some(Alive)) && BackAsBefore(wasStopped, o, ts) && |ts| > 0
    ensures var how := if o.Gathering? then DispositionOf(Alive, wasStopped) else Stop;
      !how.Kill? && BackAsBefore(wasStopped, NextOwner(o, |ts|, how), NextThreads(o, ts))
  {}

  lemma OwnerRestores(c: Config, s: State, i: nat)
    requires Inv(c, s) && Enabled(c, s, OwnerActs(i)) && Restoring(c, s.wk, s.co.final)
    ensures Restoring(c, OwnerWrites(c, s.wk, s.co.final, i), s.co.final)
  {
    if s.co.final == Some(Alive) {
      assert TaskOk(s.wk.owners[i], s.wk.threads[i], s.co.final);
      OwnTaskBack(s.wk.owners[i], s.wk.threads[i], c.wasStopped[i]);
    }
  }

  /** While the coordinator has not published a final state no owner releases. */
  lemma NoneReleasing(c: Config, s: State)
    requires Inv(c, s) && (s.co.pc.Finish? || s.co.final.None?)
    ensures forall i :: 0 <= i < |s.wk.owners| ==> Rank(s.wk.owners[i]) < 5
  {
    forall i | 0 <= i < |s.wk.owners| ensures Rank(s.wk.owners[i]) < 5 {
      assert s.co.go[i] == 0;
    }
  }

  lemma SettleRestores(c: Config, s: State, d: bool, p: bool, f: bool)
    requires Inv(c, s) && s.alive && s.co.pc.Finish?
    ensures Restoring(c, s.wk, Apply(c, s, Settle(d, p, f)).co.final)
  {
    NoneReleasing(c, s);
    forall i | 0 <= i < |s.wk.owners| && i < |s.wk.threads| && i < |c.wasStopped|
      ensures BackAsBefore(c.wasStopped[i], s.wk.owners[i], s.wk.threads[i])
    {
      assert Rank(s.wk.owners[i]) < 5;
    }
  }

  lemma CoordRestores(c: Config, s: State)
    requires Inv(c, s) && s.alive && CoordEnabled(s.co, s.wk) && Restoring(c, s.wk, s.co.final)
    ensures Restoring(c, CoordOnWorkers(s.co.pc, s.wk), s.co.final)
  {}

  lemma StepRestores(c: Config, s: State, a: Action)
    requires Inv(c, s) && Enabled(c, s, a) && (s.alive ==> Restoring(c, s.wk, s.co.final))
    ensures var t := Apply(c, s, a); t.alive ==> Restoring(c, t.wk, t.co.final)
  {
    match a
    case CoordActs => CoordRestores(c, s);
    case Settle(d, p, f) => SettleRestores(c, s, d, p, f);
    case OwnerActs(i) => OwnerRestores(c, s, i);
    case _ =>
  }

  lemma {:induction false} RunRestores(c: Config, states: seq<State>, actions: seq<Action>, k: nat)
    requires ValidConfig(c) && IsRun(c, states, actions) && k < |states|
    ensures states[k].alive ==> Restoring(c, states[k].wk, states[k].co.final)
  {
    if k > 0 {
      RunRestores(c, states, actions, k - 1);
      RunInv(c, states, actions, k - 1);
      StepRestores(c, states[k - 1], actions[k - 1]);
    }
  }

  /** What the published final state asks of a task. */
  predicate EndsAs(final: Final, wasStopped: bool, ts: seq<Thread>) {
    match final
    case Dead => AllAre(ts, Killed)
    case Stopped => AllAre(ts, Halted)
    case Alive => AllAre(ts, if wasStopped then Halted else Running)
  }

  /** In every run, when a living controller returns after the spawn, every task is
      exactly as the final state says. */
  lemma EndsAsPublished(c: Config, states: seq<State>, actions: seq<Action>, k: nat, i: nat)
    requires ValidConfig(c) && IsRun(c, states, actions) && k < |states| && i < |c.threads|
    requires states[k].alive && states[k].co.pc == Returned && states[k].co.multi
    ensures states[k].co.final.Some? && i < |states[k].wk.threads| && i < |c.wasStopped|
    ensures EndsAs(states[k].co.final.value, c.wasStopped[i], states[k].wk.threads[i])
  {
    RunInv(c, states, actions, k);
    RunRestores(c, states, actions, k);
    var s := states[k];
    assert Rank(s.wk.owners[i]) >= PAST_DONE;
    assert TaskOk(s.wk.owners[i], s.wk.threads[i], s.co.final);
  }

  // ----- After a failure of the coordinator -----

  /** The coordinator has failed: it is about to settle, or has settled for Alive, or for
      Stopped if the final catalogue was exposed. */
  predicate GaveUp(co: Coordinator) {
    || co.pc == Finish(true)
    || (co.pc.Returned? && !co.multi)
    || ((co.pc.Open? || co.pc.AwaitDone? || co.pc.Returned?)
        && co.final == Some(if co.exposed then Stopped else Alive))
  }

  lemma GaveUpActs(c: Config, co: Coordinator)
    requires GaveUp(co) && !co.pc.Finish? && !co.pc.Returned?
    ensures GaveUp(CoordWrites(c, co))
  {}

  lemma GaveUpSettles(c: Config, co: Coordinator, d: bool, p: bool, f: bool)
    requires co.pc == Finish(true)
    ensures GaveUp(SettleWrites(c, co, d, p, f))
  {}

  lemma GaveUpStays(c: Config, s: State, a: Action)
    requires Inv(c, s) && Enabled(c, s, a) && (GaveUp(s.co) || a.CoordFails?)
    ensures GaveUp(Apply(c, s, a).co)
  {
    match a
    case CoordActs => GaveUpActs(c, s.co);
    case Settle(d, p, f) => GaveUpSettles(c, s.co, d, p, f);
    case _ =>
  }

  lemma {:induction false} FailureSettles(c: Config, states: seq<State>, actions: seq<Action>, j: nat, k: nat)
    requires ValidConfig(c) && IsRun(c, states, actions) && j < k < |states| && actions[j].CoordFails?
    ensures GaveUp(states[k].co)
    decreases k
  {
    RunInv(c, states, actions, k - 1);
    if j < k - 1 { FailureSettles(c, states, actions, j, k - 1); }
    GaveUpStays(c, states[k - 1], actions[k - 1]);
  }

  /** The rollback: if the coordinator failed, nothing was exposed, and the controller
      lives to return, every thread of every task runs again, or is stopped again where
      the task was stopped before. */
  lemma RollbackRestores(c: Config, states: seq<State>, actions: seq<Action>, j: nat, k: nat, i: nat)
    requires ValidConfig(c) && IsRun(c, states, actions) && j < k < |states| && actions[j].CoordFails?
    requires states[k].alive && states[k].co.pc == Returned && states[k].co.multi && !states[k].co.exposed
    requires i < |c.threads|
    ensures i < |states[k].wk.threads| && i < |c.wasStopped|
    ensures AllAre(states[k].wk.threads[i], if c.wasStopped[i] then Halted else Running)
  {
    FailureSettles(c, states, actions, j, k);
    EndsAsPublished(c, states, actions, k, i);
  }

  // ----- What was asked for -----

  /** The final state that a coordinator settles for: what was requested if all went well,
      and where the source may not run again a stopped one instead. */
  function Expected(requested: Final, trouble: bool, exposed: bool): Final {
    match requested
    case Dead => if !trouble then Dead else if exposed then Stopped else Alive
    case Stopped => if !trouble || exposed then Stopped else Alive
    case Alive => if exposed then Stopped else Alive
  }

  /** The coordinator has settled and the word stays. */
  predicate SettledFor(co: Coordinator, final: Final) {
    (co.pc.Open? || co.pc.AwaitDone? || co.pc.Returned?) && co.final == Some(final)
  }

  lemma SettleDecides(c: Config, s: State, d: bool, p: bool, f: bool)
    requires Inv(c, s) && Enabled(c, s, Settle(d, p, f)) && s.co.multi
    ensures SettledFor(Apply(c, s, Settle(d, p, f)).co,
                       Expected(c.requested, s.co.pc.failed || d || p || f, s.co.exposed))
  {}

  lemma SettledStays(c: Config, s: State, a: Action, final: Final)
    requires SettledFor(s.co, final) && Enabled(c, s, a)
    ensures SettledFor(Apply(c, s, a).co, final)
  {}

  lemma {:induction false} SettledSince(c: Config, states: seq<State>, actions: seq<Action>, j: nat, k: nat)
    requires ValidConfig(c) && IsRun(c, states, actions) && j < k < |states|
    requires actions[j].Settle? && states[j].co.multi && states[j].co.pc.Finish?
    ensures var a, co := actions[j], states[j].co;
      SettledFor(states[k].co, Expected(c.requested,
        co.pc.failed || a.disconnectFails || a.scriptFails || a.finishFails, co.exposed))
    decreases k
  {
    var a, co := actions[j], states[j].co;
    var final := Expected(c.requested, co.pc.failed || a.disconnectFails || a.scriptFails || a.finishFails, co.exposed);
    if j == k - 1 {
      RunInv(c, states, actions, j);
      SettleDecides(c, states[j], a.disconnectFails, a.scriptFails, a.finishFails);
    } else {
      SettledSince(c, states, actions, j, k - 1);
      SettledStays(c, states[k - 1], actions[k - 1], final);
    }
  }

  /** For every run in which the coordinator settles after the spawn and the controller
      lives to return: what every thread of every task then is, from what was requested,
      whether anything had failed, and whether the catalogue was exposed. */
  lemma ThreadsEndAs(c: Config, states: seq<State>, actions: seq<Action>, j: nat, k: nat, i: nat)
    requires ValidConfig(c) && IsRun(c, states, actions) && j < k < |states| && i < |c.threads|
    requires actions[j].Settle? && states[j].co.multi && states[j].co.pc.Finish?
    requires states[k].alive && states[k].co.pc == Returned
    ensures i < |states[k].wk.threads| && i < |c.wasStopped|
    ensures var a, co := actions[j], states[j].co;
      EndsAs(Expected(c.requested, co.pc.failed || a.disconnectFails || a.scriptFails || a.finishFails, co.exposed),
             c.wasStopped[i], states[k].wk.threads[i])
  {
    SettledSince(c, states, actions, j, k);
    RunInv(c, states, actions, k);
    EndsAsPublished(c, states, actions, k, i);
  }

  /** A disconnect, a post-dump script or a finish that fails after a good dump leaves
      every thread stopped, whatever was requested. */
  lemma LateTroubleHalts(c: Config, states: seq<State>, actions: seq<Action>, j: nat, k: nat, i: nat)
    requires ValidConfig(c) && IsRun(c, states, actions) && j < k < |states| && i < |c.threads|
    requires actions[j].Settle? && states[j].co.pc == Finish(false)
    requires actions[j].disconnectFails || actions[j].scriptFails || actions[j].finishFails
    requires states[k].alive && states[k].co.pc == Returned
    ensures i < |states[k].wk.threads| && AllAre(states[k].wk.threads[i], Halted)
  {
    RunInv(c, states, actions, j);
    ThreadsEndAs(c, states, actions, j, k, i);
  }

  /** Nothing on the source fails. */
  predicate SourceWorks(a: Action) {
    match a
    case CoordFails(_) => false
    case Settle(d, p, f) => !d && !p && !f
    case OwnerAborts(_) => false
    case ControllerDies => false
    case _ => true
  }

  /** Without a failure the coordinator settles for what was requested, and never for a
      source that runs: by then the catalogue is exposed. */
  ghost predicate WorkedSoFar(c: Config, co: Coordinator) {
    && co.pc != Finish(true)
    && (co.pc.Returned? ==> co.final.Some?)
    && (co.final.Some? ==> co.final.value == if c.requested == Dead then Dead else Stopped)
  }

  lemma WorkingStep(c: Config, s: State, a: Action)
    requires Inv(c, s) && WorkedSoFar(c, s.co) && Enabled(c, s, a) && SourceWorks(a)
    ensures WorkedSoFar(c, Apply(c, s, a).co)
  {
    match a
    case CoordActs => WorkingActs(c, s.co);
    case Settle(d, p, f) => SettleDecides(c, s, d, p, f);
    case _ =>
  }

  lemma WorkingActs(c: Config, co: Coordinator)
    requires WordsOk(co) && WorkedSoFar(c, co) && !co.pc.Finish? && !co.pc.Returned?
    ensures WorkedSoFar(c, CoordWrites(c, co))
  {}

  lemma {:induction false} WorkingRun(c: Config, states: seq<State>, actions: seq<Action>, k: nat)
    requires ValidConfig(c) && IsRun(c, states, actions) && k < |states|
    requires forall m :: 0 <= m < k ==> SourceWorks(actions[m])
    ensures WorkedSoFar(c, states[k].co)
  {
    if k > 0 {
      WorkingRun(c, states, actions, k - 1);
      RunInv(c, states, actions, k - 1);
      WorkingStep(c, states[k - 1], actions[k - 1]);
    }
  }

  /** In every run without a failure on the source, whatever the destination does, a
      controller that returns leaves every thread killed if that was requested, and
      stopped if a stopped or a running source was. */
  lemma SuccessEndsAsRequested(c: Config, states: seq<State>, actions: seq<Action>, k: nat, i: nat)
    requires ValidConfig(c) && IsRun(c, states, actions) && k < |states| && i < |c.threads|
    requires forall m :: 0 <= m < k ==> SourceWorks(actions[m])
    requires states[k].alive && states[k].co.pc == Returned
    ensures i < |states[k].wk.threads|
    ensures AllAre(states[k].wk.threads[i], if c.requested == Dead then Killed else Halted)
  {
    WorkingRun(c, states, actions, k);
    RunInv(c, states, actions, k);
    EndsAsPublished(c, states, actions, k, i);
  }
}
