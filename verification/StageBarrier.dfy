/** The restore stages: one counter (`nr_in_progress`) and one stage word
    (`start`) shared by the coordinator, the root task and every other process
    and thread being restored, in runs that are not aborted.

    The counter and the word are two separate stores, and the coordinator's wait
    entered at FORKING is meant to return only at the end of RESTORE. Without
    namespaces to restore the root also takes the first two stages by itself, and the
    coordinator's first wait spans all four. */
module StageBarrier {

  // CR_STATE_* in order.
  const ROOT_TASK: nat := 0
  const PREPARE_NAMESPACES: nat := 1
  const FORKING: nat := 2
  const RESTORE: nat := 3
  const RESTORE_SIGCHLD: nat := 4
  const RESTORE_CREDS: nat := 5
  const COMPLETE: nat := 6

  /** The units that restore: unit 0 is the root task's main thread. A unit of birth
      stage FORKING is another process, forked by its parent; one of birth stage
      RESTORE is a further thread, cloned by its main thread. Zombies and helpers
      leave after RESTORE. `namespaces`: root_ns_mask is not 0. */
  datatype Config = Config(parent: seq<nat>, birth: seq<nat>, leaves: seq<bool>, namespaces: bool)

  /** The stages that the root ends by storing the next count and stage itself. */
  predicate RootSwitches(c: Config, stage: nat) {
    stage == FORKING || (stage < FORKING && !c.namespaces)
  }

  ghost predicate ValidConfig(c: Config) {
    && 0 < |c.parent| == |c.birth| == |c.leaves|
    && c.birth[0] == ROOT_TASK && !c.leaves[0]
    && forall i :: 0 < i < |c.parent| ==>
         && c.parent[i] < i
         && (c.birth[i] == FORKING || c.birth[i] == RESTORE)
         && (c.birth[i] == FORKING ==> c.birth[c.parent[i]] <= FORKING)
         && (c.birth[i] == RESTORE ==> c.birth[c.parent[i]] <= FORKING)
  }

  /** `At(s, true)` has decremented the counter for stage s and waits for the stage
      word to change. */
  datatype Unit = Unborn | At(stage: nat, done: bool) | Gone

  /** The coordinator waits for the counter of the stage it started, then stores the
      next count, then the next stage. */
  datatype Coord = Wait(stage: nat) | SetCount(stage: nat) | SetStage(stage: nat) | Finished

  datatype State = State(units: seq<Unit>, nr: int, start: nat, coord: Coord, rootReset: bool)

  /** Whether unit i is counted in a stage; `stage_participants` is the number of these. */
  predicate Counts(c: Config, i: nat, stage: nat)
    requires i < |c.birth| == |c.leaves|
  {
    c.birth[i] <= stage && (stage > RESTORE ==> !c.leaves[i])
  }

  function Participants(c: Config, stage: nat, n: nat): nat
    requires n <= |c.birth| == |c.leaves|
  {
    if n == 0 then 0
    else Participants(c, stage, n - 1) + (if Counts(c, n - 1, stage) then 1 else 0)
  }

  predicate Init(c: Config, s: State) {
    && |s.units| == |c.parent|
    && s.units == seq(|c.parent|, i => if i == 0 then At(ROOT_TASK, false) else Unborn)
    && s.nr == 1 && s.start == ROOT_TASK && !s.rootReset
    && s.coord == Wait(if c.namespaces then ROOT_TASK else FORKING)
  }

  /** The stage the coordinator starts after its wait for the given one. */
  function NextStage(stage: nat): nat {
    if stage == FORKING then RESTORE_SIGCHLD else stage + 1
  }

  datatype Action =
    | Born(unit: nat)       // fork or clone by the parent
    | Finish(unit: nat)     // futex_dec_and_wake in restore_finish_stage
    | Notice(unit: nat)     // futex_wait_while(start, stage) returns
    | RootReset             // nr := next count, at FORKING once restore_wait_other_tasks returns
    | RootSwitch            // start := next stage
    | CoordActs

  predicate AllBorn(c: Config, units: seq<Unit>, i: nat, stage: nat)
    requires |units| == |c.parent| == |c.birth|
  {
    forall j :: 0 <= j < |units| && c.parent[j] == i && j > 0 && c.birth[j] == stage ==> units[j] != Unborn
  }

  predicate Enabled(c: Config, s: State, a: Action)
    requires |s.units| == |c.parent| == |c.birth|
  {
    match a
    case Born(i) =>
      && 0 < i < |s.units| && s.units[i] == Unborn
      && c.parent[i] < |s.units| && s.units[c.parent[i]] == At(c.birth[i], false)
    case Finish(i) =>
      && i < |s.units| && s.units[i].At? && !s.units[i].done
      && !(i == 0 && RootSwitches(c, s.units[i].stage))
      && s.units[i].stage < COMPLETE
      && AllBorn(c, s.units, i, s.units[i].stage)
    case Notice(i) => i < |s.units| && s.units[i].At? && s.units[i].done && s.start != s.units[i].stage
    case RootReset =>
      && 0 < |s.units| && s.units[0].At? && !s.units[0].done && RootSwitches(c, s.units[0].stage) && !s.rootReset
      && AllBorn(c, s.units, 0, s.units[0].stage) && (s.units[0].stage == FORKING ==> s.nr <= 1)
    case RootSwitch => 0 < |s.units| && s.units[0].At? && s.rootReset
    case CoordActs => (s.coord.Wait? ==> s.nr <= 0) && !s.coord.Finished?
  }

  function Apply(c: Config, s: State, a: Action): State
    requires |s.units| == |c.parent| == |c.birth| == |c.leaves|
    requires Enabled(c, s, a)
  {
    match a
    case Born(i) => s.(units := s.units[i := At(c.birth[i], false)])
    case Finish(i) => s.(units := s.units[i := At(s.units[i].stage, true)], nr := s.nr - 1)
    case Notice(i) =>
      s.(units := s.units[i := if s.units[i].stage == RESTORE && c.leaves[i] then Gone
                               else At(s.units[i].stage + 1, false)])
    case RootReset => s.(nr := Participants(c, s.units[0].stage + 1, |c.birth|), rootReset := true)
    case RootSwitch =>
      var next := s.units[0].stage + 1;
      s.(start := next, units := s.units[0 := At(next, false)], rootReset := false)
    case CoordActs =>
      match s.coord
      case Wait(k) => s.(coord := SetCount(NextStage(k)))
      case SetCount(k) =>
        s.(coord := SetStage(k), nr := if k == COMPLETE then s.nr else Participants(c, k, |c.birth|))
      case SetStage(k) => s.(coord := if k == COMPLETE then Finished else Wait(k), start := k)
  }

  ghost predicate IsRun(c: Config, states: seq<State>, actions: seq<Action>) {
    && |c.parent| == |c.birth| == |c.leaves|
    && |states| == |actions| + 1 && Init(c, states[0])
    && forall k :: 0 <= k < |actions| ==>
         && |states[k].units| == |c.parent|
         && Enabled(c, states[k], actions[k]) && states[k + 1] == Apply(c, states[k], actions[k])
  }

  // ----- Counting -----

  /** Participants among the first n units that have not finished the stage. */
  function Pending(c: Config, us: seq<Unit>, stage: nat, n: nat): nat
    requires n <= |us| <= |c.birth| == |c.leaves|
  {
    if n == 0 then 0
    else Pending(c, us, stage, n - 1) + (if Counts(c, n - 1, stage) && us[n - 1] != At(stage, true) then 1 else 0)
  }

  predicate Owes(c: Config, us: seq<Unit>, stage: nat, i: nat)
    requires i < |us| <= |c.birth| == |c.leaves|
  {
    Counts(c, i, stage) && us[i] != At(stage, true)
  }

  lemma {:induction false} PendingUpdate(c: Config, us: seq<Unit>, stage: nat, n: nat, i: nat, u: Unit)
    requires i < |us| && n <= |us| <= |c.birth| == |c.leaves|
    ensures Pending(c, us[i := u], stage, n) + (if i < n && Owes(c, us, stage, i) then 1 else 0)
         == Pending(c, us, stage, n) + (if i < n && Owes(c, us[i := u], stage, i) then 1 else 0)
  {
    if n > 0 { PendingUpdate(c, us, stage, n - 1, i, u); }
  }

  lemma {:induction false} PendingNone(c: Config, us: seq<Unit>, stage: nat, n: nat)
    requires n <= |us| <= |c.birth| == |c.leaves|
    ensures Pending(c, us, stage, n) == 0 <==> forall i :: 0 <= i < n ==> !Owes(c, us, stage, i)
  {
    if n > 0 {
      PendingNone(c, us, stage, n - 1);
      assert Pending(c, us, stage, n) ==
             Pending(c, us, stage, n - 1) + (if Owes(c, us, stage, n - 1) then 1 else 0);
    }
  }

  /** With one debtor known, a count of one leaves no other. */
  lemma {:induction false} PendingOne(c: Config, us: seq<Unit>, stage: nat, n: nat, i: nat)
    requires i < n <= |us| <= |c.birth| == |c.leaves|
    requires Owes(c, us, stage, i)
    ensures Pending(c, us, stage, n) >= 1
    ensures Pending(c, us, stage, n) == 1 ==> forall j :: 0 <= j < n && j != i ==> !Owes(c, us, stage, j)
  {
    if i == n - 1 {
      PendingNone(c, us, stage, n - 1);
    } else {
      PendingOne(c, us, stage, n - 1, i);
    }
  }

  lemma {:induction false} PendingAll(c: Config, us: seq<Unit>, stage: nat, n: nat)
    requires n <= |us| <= |c.birth| == |c.leaves|
    requires forall i :: 0 <= i < n ==> us[i] != At(stage, true)
    ensures Pending(c, us, stage, n) == Participants(c, stage, n)
  {
    if n > 0 { PendingAll(c, us, stage, n - 1); }
  }

  // ----- The invariant -----

  /** No unit is ahead of the stage word, and one that is behind has finished. */
  predicate UnitOk(c: Config, i: nat, u: Unit, start: nat)
    requires i < |c.birth| == |c.leaves|
  {
    match u
    case Unborn => i > 0 && start <= c.birth[i]
    case At(s, done) =>
      && c.birth[i] <= s
      && (s == start || (done && (s + 1 == start || (c.leaves[i] && s == RESTORE < start))))
      && (c.leaves[i] ==> s <= RESTORE)
      && (done ==> s < COMPLETE)
    case Gone => c.leaves[i] && start > RESTORE
  }

  /** A child still to be born holds its parent in the stage. */
  predicate ParentOk(c: Config, us: seq<Unit>, i: nat)
    requires i < |us| == |c.parent| == |c.birth|
  {
    i > 0 && us[i] == Unborn && c.parent[i] < |us| ==>
      var p := us[c.parent[i]];
      p == Unborn || (p.At? && (p.stage < c.birth[i] || p == At(c.birth[i], false)))
  }

  ghost predicate AllDone(c: Config, us: seq<Unit>, stage: nat)
    requires |us| <= |c.birth| == |c.leaves|
  {
    forall i :: 0 <= i < |us| ==> !Owes(c, us, stage, i)
  }

  /** The counter already holds the next count while the root's stage is still on. */
  ghost predicate RootInReset(c: Config, s: State)
    requires |s.units| == |c.parent| == |c.birth| == |c.leaves|
  {
    && RootSwitches(c, s.start) && 0 < |s.units| && s.units[0] == At(s.start, false)
    && s.nr == Participants(c, s.start + 1, |c.birth|)
    && forall i :: 0 < i < |s.units| ==> !Owes(c, s.units, s.start, i)
  }

  ghost predicate CoordOk(c: Config, s: State)
    requires |s.units| == |c.parent| == |c.birth| == |c.leaves|
  {
    match s.coord
    case Wait(k) =>
      && k < COMPLETE && k != RESTORE
      && (s.start == k || (k == FORKING && (s.start == RESTORE || RootSwitches(c, s.start))))
      && (k < FORKING ==> c.namespaces)
      && (!s.rootReset ==> s.nr == Pending(c, s.units, s.start, |s.units|))
      && (s.rootReset ==> RootInReset(c, s))
    case SetCount(k) => BetweenStages(c, s, k) && s.nr == 0
    case SetStage(k) => BetweenStages(c, s, k) && s.nr == (if k < COMPLETE then Participants(c, k, |c.birth|) else 0)
    case Finished => s.start == COMPLETE && s.nr == 0 && !s.rootReset
  }

  ghost predicate BetweenStages(c: Config, s: State, k: nat)
    requires |s.units| == |c.parent| == |c.birth| == |c.leaves|
  {
    && s.start + 1 == k && k <= COMPLETE && k != RESTORE && !s.rootReset
    && (k <= FORKING ==> c.namespaces)
    && AllDone(c, s.units, s.start)
  }

  ghost predicate Inv(c: Config, s: State) {
    && ValidConfig(c) && |s.units| == |c.parent|
    && s.start <= COMPLETE
    && (forall i :: 0 <= i < |s.units| ==> UnitOk(c, i, s.units[i], s.start))
    && (forall i :: 0 <= i < |s.units| ==> ParentOk(c, s.units, i))
    && (RootSwitches(c, s.start) && s.coord.Wait? ==> s.units[0] != At(s.start, true))
    && CoordOk(c, s)
  }

  lemma InitInv(c: Config, s: State)
    requires ValidConfig(c) && Init(c, s)
    ensures Inv(c, s)
  {
    PendingOne(c, s.units, ROOT_TASK, |s.units|, 0);
    OnlyRootCounts(c, s.units, |s.units|);
  }

  lemma {:induction false} OnlyRootCounts(c: Config, us: seq<Unit>, n: nat)
    requires ValidConfig(c) && |us| == |c.birth| && us[0] == At(ROOT_TASK, false) && 0 < n <= |us|
    ensures Pending(c, us, ROOT_TASK, n) == 1
  {
    if n > 1 { OnlyRootCounts(c, us, n - 1); } else { assert Pending(c, us, ROOT_TASK, 0) == 0; }
  }

  /** The root always owes a stage that it ends itself, so the coordinator's wait cannot
      return there. */
  lemma RootOwes(c: Config, s: State)
    requires Inv(c, s) && s.coord.Wait? && RootSwitches(c, s.start)
    ensures s.nr >= 1
  {
    if s.rootReset {
      RootParticipates(c, s.start + 1, |c.birth|);
    } else {
      PendingOne(c, s.units, s.start, |s.units|, 0);
    }
  }

  lemma {:induction false} RootParticipates(c: Config, stage: nat, n: nat)
    requires ValidConfig(c) && 0 < n <= |c.birth|
    ensures Participants(c, stage, n) >= 1
  {
    if n > 1 { RootParticipates(c, stage, n - 1); } else { assert Participants(c, stage, 0) == 0; }
  }

  lemma UnitPreserves(c: Config, s: State, a: Action)
    requires Inv(c, s) && (a.Born? || a.Finish? || a.Notice?) && Enabled(c, s, a)
    ensures Inv(c, Apply(c, s, a))
  {
    var t := Apply(c, s, a);
    PendingUpdate(c, s.units, s.start, |s.units|, a.unit, t.units[a.unit]);
    assert UnitOk(c, a.unit, s.units[a.unit], s.start);
    assert ParentOk(c, s.units, a.unit);
    if a.Born? { assert UnitOk(c, c.parent[a.unit], s.units[c.parent[a.unit]], s.start); }
    if !s.coord.Wait? && !s.coord.Finished? {
      // between stages only a zombie or helper that has left can move
      assert !Owes(c, s.units, s.start, a.unit);
      assert a.Notice? && c.leaves[a.unit];
      forall i | 0 <= i < |t.units| ensures !Owes(c, t.units, s.start, i) {
        assert !Owes(c, s.units, s.start, i);
      }
    }
    forall i | 0 <= i < |t.units| ensures ParentOk(c, t.units, i) && UnitOk(c, i, t.units[i], t.start) {
      assert ParentOk(c, s.units, i) && UnitOk(c, i, s.units[i], s.start);
    }
  }

  lemma RootPreserves(c: Config, s: State, a: Action)
    requires Inv(c, s) && (a.RootReset? || a.RootSwitch?) && Enabled(c, s, a)
    ensures Inv(c, Apply(c, s, a))
  {
    assert UnitOk(c, 0, s.units[0], s.start);
    if a.RootReset? {
      PendingOne(c, s.units, s.start, |s.units|, 0);
    } else {
      var t := Apply(c, s, a);
      forall i | 0 <= i < |t.units| ensures ParentOk(c, t.units, i) && UnitOk(c, i, t.units[i], t.start) {
        assert ParentOk(c, s.units, i) && UnitOk(c, i, s.units[i], s.start);
        assert i > 0 ==> !Owes(c, s.units, s.start, i);
      }
      PendingAll(c, t.units, t.start, |t.units|);
    }
  }

  lemma CoordPreserves(c: Config, s: State)
    requires Inv(c, s) && Enabled(c, s, CoordActs)
    ensures Inv(c, Apply(c, s, CoordActs))
  {
    var t := Apply(c, s, CoordActs);
    match s.coord
    case Wait(k) =>
      if RootSwitches(c, s.start) { RootOwes(c, s); }
      PendingNone(c, s.units, s.start, |s.units|);
    case SetCount(k) =>
    case SetStage(k) =>
      forall i | 0 <= i < |t.units| ensures UnitOk(c, i, t.units[i], t.start) {
        assert UnitOk(c, i, s.units[i], s.start) && !Owes(c, s.units, s.start, i);
      }
      if k < COMPLETE { PendingAll(c, t.units, k, |t.units|); }
  }

  lemma StepPreserves(c: Config, s: State, a: Action)
    requires Inv(c, s) && Enabled(c, s, a)
    ensures Inv(c, Apply(c, s, a))
  {
    match a
    case CoordActs => CoordPreserves(c, s);
    case RootReset => RootPreserves(c, s, a);
    case RootSwitch => RootPreserves(c, s, a);
    case _ => UnitPreserves(c, s, a);
  }

  lemma {:induction false} RunInv(c: Config, states: seq<State>, actions: seq<Action>, k: nat)
    requires ValidConfig(c) && IsRun(c, states, actions) && k < |states|
    ensures Inv(c, states[k])
  {
    if k == 0 {
      InitInv(c, states[0]);
    } else {
      RunInv(c, states, actions, k - 1);
      StepPreserves(c, states[k - 1], actions[k - 1]);
    }
  }

  // ----- The theorems, over every run -----

  /** The coordinator's one wait entered at FORKING returns only when every unit,
      born meanwhile or not, has finished RESTORE. */
  lemma WaitSpansBothStages(c: Config, states: seq<State>, actions: seq<Action>, k: nat)
    requires ValidConfig(c) && IsRun(c, states, actions) && k < |actions|
    requires states[k].coord == Wait(FORKING) && actions[k] == CoordActs
    ensures states[k].start == RESTORE
    ensures forall i :: 0 <= i < |states[k].units| ==> states[k].units[i] == At(RESTORE, true)
  {
    RunInv(c, states, actions, k);
    var s := states[k];
    if RootSwitches(c, s.start) { RootOwes(c, s); }
    PendingNone(c, s.units, RESTORE, |s.units|);
    forall i | 0 <= i < |s.units| ensures s.units[i] == At(RESTORE, true) {
      assert !Owes(c, s.units, RESTORE, i);
      assert c.birth[i] <= RESTORE;
    }
  }

  /** Lockstep: while some unit works in a stage, every unit that takes part in an
      earlier one is born and has finished it, and none is ahead. */
  lemma Lockstep(c: Config, states: seq<State>, actions: seq<Action>, k: nat, i: nat, j: nat)
    requires ValidConfig(c) && IsRun(c, states, actions) && k < |states|
    requires |states[k].units| == |c.parent| && i < |c.parent| && j < |c.parent|
    requires states[k].units[i].At? && !states[k].units[i].done
    ensures var stage, u := states[k].units[i].stage, states[k].units[j];
      && stage == states[k].start
      && (u == Unborn ==> c.birth[j] >= stage)
      && (u.At? && !u.done ==> u.stage == stage)
      && (u.At? && u.done ==> u.stage == stage || u.stage + 1 == stage || c.leaves[j])
  {
    RunInv(c, states, actions, k);
    assert UnitOk(c, i, states[k].units[i], states[k].start);
    assert UnitOk(c, j, states[k].units[j], states[k].start);
  }

  /** Outside the root's two stores the counter is the number of participants that
      still owe the current stage; it is never negative. */
  lemma CounterExact(c: Config, states: seq<State>, actions: seq<Action>, k: nat)
    requires ValidConfig(c) && IsRun(c, states, actions) && k < |states|
    ensures states[k].nr >= 0
    ensures |states[k].units| == |c.birth|
    ensures states[k].coord.Wait? && !states[k].rootReset ==>
              states[k].nr == Pending(c, states[k].units, states[k].start, |c.birth|)
  {
    RunInv(c, states, actions, k);
  }

  // ----- Progress -----

  predicate Complete(c: Config, s: State)
    requires |s.units| <= |c.leaves|
  {
    && s.coord == Finished
    && forall i :: 0 <= i < |s.units| ==> s.units[i] == if c.leaves[i] then Gone else At(COMPLETE, false)
  }

  lemma {:induction false} OnlyOneOwes(c: Config, us: seq<Unit>, stage: nat, n: nat)
    requires 0 < n <= |us| <= |c.birth| == |c.leaves|
    requires forall j :: 0 < j < n ==> !Owes(c, us, stage, j)
    ensures Pending(c, us, stage, n) <= 1
  {
    if n > 1 {
      OnlyOneOwes(c, us, stage, n - 1);
      assert !Owes(c, us, stage, n - 1);
    } else {
      assert Pending(c, us, stage, 0) == 0;
    }
  }

  /** A unit that owes the stage can move, or the ancestor that it waits for can. */
  lemma {:induction false} DebtorMoves(c: Config, s: State, i: nat) returns (a: Action)
    requires Inv(c, s) && i < |s.units| && Owes(c, s.units, s.start, i) && s.start < COMPLETE
    requires i == 0 ==> !RootSwitches(c, s.start) || s.units[0] != At(s.start, false)
    ensures Enabled(c, s, a)
    decreases i
  {
    assert UnitOk(c, i, s.units[i], s.start) && ParentOk(c, s.units, i);
    match s.units[i]
    case Unborn =>
      var p := c.parent[i];
      assert UnitOk(c, p, s.units[p], s.start);
      if s.units[p] == Unborn {
        a := DebtorMoves(c, s, p);
      } else if s.units[p] == At(c.birth[i], false) {
        a := Born(i);
      } else {
        a := Notice(p);
      }
    case At(stage, done) =>
      if done {
        a := Notice(i);
      } else if AllBorn(c, s.units, i, stage) {
        a := Finish(i);
      } else {
        var j :| 0 < j < |s.units| && c.parent[j] == i && c.birth[j] == stage && s.units[j] == Unborn;
        a := Born(j);
      }
  }

  lemma RootMoves(c: Config, s: State) returns (a: Action)
    requires Inv(c, s) && s.coord.Wait? && !s.rootReset
    requires RootSwitches(c, s.start) && s.units[0] == At(s.start, false)
    requires forall j :: 0 < j < |s.units| ==> !Owes(c, s.units, s.start, j)
    ensures Enabled(c, s, a)
  {
    OnlyOneOwes(c, s.units, s.start, |s.units|);
    forall j | 0 < j < |s.units| && c.birth[j] == s.start ensures s.units[j] != Unborn {
      assert !Owes(c, s.units, s.start, j);
    }
    a := RootReset;
  }

  /** No reachable state but the complete one is stuck. */
  lemma NeverStuck(c: Config, s: State) returns (a: Action)
    requires Inv(c, s) && !Complete(c, s)
    ensures Enabled(c, s, a)
  {
    if s.rootReset {
      a := RootSwitch;
    } else if s.coord.Finished? {
      var i :| 0 <= i < |s.units| && s.units[i] != if c.leaves[i] then Gone else At(COMPLETE, false);
      assert UnitOk(c, i, s.units[i], s.start);
      a := Notice(i);
    } else if !s.coord.Wait? || s.nr <= 0 {
      a := CoordActs;
    } else {
      PendingNone(c, s.units, s.start, |s.units|);
      if j :| 0 < j < |s.units| && Owes(c, s.units, s.start, j) {
        a := DebtorMoves(c, s, j);
      } else if RootSwitches(c, s.start) && s.units[0] == At(s.start, false) {
        a := RootMoves(c, s);
      } else {
        a := DebtorMoves(c, s, 0);
      }
    }
  }

  function UnitLeft(u: Unit): nat {
    match u
    case Unborn => 2 * COMPLETE
    case At(stage, done) => if stage > COMPLETE then 0 else 2 * (COMPLETE - stage) + (if done then 0 else 1)
    case Gone => 0
  }

  function AllLeft(us: seq<Unit>): nat {
    if us == [] then 0 else UnitLeft(us[0]) + AllLeft(us[1..])
  }

  lemma {:induction false} AllLeftUpdate(us: seq<Unit>, i: nat, u: Unit)
    requires i < |us|
    ensures AllLeft(us[i := u]) + UnitLeft(us[i]) == AllLeft(us) + UnitLeft(u)
  {
    if i == 0 {
      assert us[i := u][1..] == us[1..];
    } else {
      AllLeftUpdate(us[1..], i - 1, u);
      assert us[i := u][1..] == us[1..][i - 1 := u];
    }
  }

  function CoordLeft(p: Coord): nat {
    match p
    case Wait(k) => if k > COMPLETE then 0 else 3 * (COMPLETE + 1 - k)
    case SetCount(k) => if k > COMPLETE then 0 else 3 * (COMPLETE + 1 - k) + 2
    case SetStage(k) => if k > COMPLETE then 0 else 3 * (COMPLETE + 1 - k) + 1
    case Finished => 0
  }

  function Measure(s: State): nat {
    AllLeft(s.units) + CoordLeft(s.coord) + (if s.start < RESTORE && !s.rootReset then 1 else 0)
  }

  lemma StepLowers(c: Config, s: State, a: Action)
    requires Inv(c, s) && Enabled(c, s, a)
    ensures Measure(Apply(c, s, a)) < Measure(s)
  {
    match a
    case CoordActs => CoordLowers(c, s);
    case RootReset => assert UnitOk(c, 0, s.units[0], s.start);
    case RootSwitch => AllLeftUpdate(s.units, 0, At(s.start + 1, false));
    case _ => UnitLowers(c, s, a);
  }

  lemma CoordLowers(c: Config, s: State)
    requires Inv(c, s) && Enabled(c, s, CoordActs)
    ensures Measure(Apply(c, s, CoordActs)) < Measure(s)
  {
    if s.coord.Wait? && RootSwitches(c, s.start) { RootOwes(c, s); }
  }

  lemma UnitLowers(c: Config, s: State, a: Action)
    requires Inv(c, s) && (a.Born? || a.Finish? || a.Notice?) && Enabled(c, s, a)
    ensures Measure(Apply(c, s, a)) < Measure(s)
  {
    var t := Apply(c, s, a);
    assert UnitOk(c, a.unit, s.units[a.unit], s.start);
    AllLeftUpdate(s.units, a.unit, t.units[a.unit]);
  }

  lemma {:induction false} RunLowers(c: Config, states: seq<State>, actions: seq<Action>, k: nat)
    requires ValidConfig(c) && IsRun(c, states, actions) && k < |states|
    ensures Measure(states[k]) + k <= Measure(states[0])
  {
    if k > 0 {
      RunLowers(c, states, actions, k - 1);
      RunInv(c, states, actions, k - 1);
      StepLowers(c, states[k - 1], actions[k - 1]);
    }
  }

  /** Every abort-free run is finite, and one that cannot go on has every task at
      COMPLETE and every zombie and helper gone. */
  lemma RestoreCompletes(c: Config, states: seq<State>, actions: seq<Action>)
    requires ValidConfig(c) && IsRun(c, states, actions)
    ensures |actions| <= Measure(states[0])
    ensures |states[|actions|].units| == |c.parent|
    ensures Complete(c, states[|actions|]) || exists a :: Enabled(c, states[|actions|], a)
  {
    RunLowers(c, states, actions, |actions|);
    RunInv(c, states, actions, |actions|);
    if !Complete(c, states[|actions|]) {
      var a := NeverStuck(c, states[|actions|]);
    }
  }
}
