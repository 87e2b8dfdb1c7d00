/** The kernel-mode (K) migration of a container, as a step machine.

    Three kinds of actor take steps in any order: the source coordinator
    (`cr_dump_tasks` followed by `cr_dump_finish`), one owner thread per source
    task (`thread_dump_one_task`, then the barrier tail of `dump_one_task`), and
    the destination (`cr_restore_tasks`). Any actor may fail wherever its code
    can, and the source controller may die between any two steps.

    An event sent over the sync socket is one step here; SyncChannel proves that
    the byte transport delivers exactly the sequence of events that was sent. */
module Migration {
  import opened Options

  datatype Event =
    | NamespaceDone | StartProcessDump | EndProcessDump
    | RefreshRequest | RefreshDone | RefreshApplied

  /** `opts.final_state`, and the word `sbk_source_final_state` once published. */
  datatype Final = Dead | Stopped | Alive

  /** One source thread. `Traced` is seized but not yet interrupted, so it still
      executes; `Trapped` is stopped under ptrace; `Armed` is trapped with
      PTRACE_O_EXITKILL set; `Halted` is group-stopped and detached. */
  datatype Thread = Running | Traced | Trapped | Armed | Halted | Killed

  predicate Executes(t: Thread) { t.Running? || t.Traced? }

  /** enum sbk_source_disposition */
  datatype Disposition = Resume | Stop | Kill

  /** Program point of one owner thread. `Seizing(k, phase)` has armed the first
      k threads of its task; `Releasing(resume, k)` has detached the first k. */
  datatype Owner =
    | Unborn
    | Seizing(k: nat, phase: nat)
    | Infecting
    | Saving
    | Parked
    | Unprotected
    | Curing
    | CuredLocked
    | Unlocked
    | Gathering
    | Releasing(resume: bool, done: nat)
    | Released
    | Finished

  function Rank(o: Owner): nat {
    match o
    case Unborn => 0
    case Seizing(_, _) => 1
    case Infecting => 2
    case Saving => 3
    case Parked => 4
    case Unprotected => 5
    case Curing => 6
    case CuredLocked => 7
    case Unlocked => 8
    case Gathering => 9
    case Releasing(_, _) => 10
    case Released => 11
    case Finished => 12
  }

  // Ranks an owner has once it has incremented each counter.
  const PAST_MISC: nat := 3
  const PAST_DUMP: nat := 4
  const PAST_CURE: nat := 9
  const PAST_DONE: nat := 12

  /** Program point of the source coordinator. */
  datatype Coord =
    | PublishNamespaces | NotifyNamespaces
    | AwaitRequest | PublishRefresh | NotifyRefresh | AwaitApplied
    | AwaitStart | LockNetwork | CollectTree | DetachAll
    | Spawn(next: nat) | AwaitMisc | CheckPids | AwaitDumps
    | WriteTree | FlushImages | PublishFinal | SendFinal | NotifyPeer | NotifyPages
    | Finish(failed: bool)
    | Open(next: nat) | AwaitDone | Returned

  function Phase(p: Coord): nat {
    match p
    case PublishNamespaces => 0
    case NotifyNamespaces => 1
    case AwaitRequest => 2
    case PublishRefresh => 3
    case NotifyRefresh => 4
    case AwaitApplied => 5
    case AwaitStart => 6
    case LockNetwork => 7
    case CollectTree => 8
    case DetachAll => 9
    case Spawn(_) => 10
    case AwaitMisc => 11
    case CheckPids => 12
    case AwaitDumps => 13
    case WriteTree => 14
    case FlushImages => 15
    case PublishFinal => 16
    case SendFinal => 17
    case NotifyPeer => 18
    case NotifyPages => 19
    case Finish(_) => 20
    case Open(_) => 21
    case AwaitDone => 22
    case Returned => 23
  }

  /** Program point of the destination. */
  datatype Dest =
    | DAwaitNamespaces | DSetup
    | DRequest | DAwaitRefresh | DApply | DNotifyApplied
    | DStart | DAwaitEnd | DValidate | DReadTree | DRestoring | DLive | DFailed

  function DestPhase(d: Dest): nat {
    match d
    case DAwaitNamespaces => 0
    case DSetup => 1
    case DRequest => 2
    case DAwaitRefresh => 3
    case DApply => 4
    case DNotifyApplied => 5
    case DStart => 6
    case DAwaitEnd => 7
    case DValidate => 8
    case DReadTree => 9
    case DRestoring => 10
    case DLive => 11
    case DFailed => 12
  }

  /** What the two invocations were started with, and the tree that was found. */
  datatype Config = Config(
    threads: seq<nat>,        // item->nr_threads for each task
    wasStopped: seq<bool>,    // item->pid->state == TASK_STOPPED
    root: nat,                // index of the root task
    pidNamespace: bool,       // the root task is init of its own PID namespace
    sourceStage: bool,        // opts.sb_parent_stage on the source
    destStage: bool,          // opts.sb_parent_stage on the destination
    requested: Final)         // opts.final_state

  ghost predicate ValidConfig(c: Config) {
    && c.root < |c.threads| == |c.wasStopped|
    && forall i :: 0 <= i < |c.threads| ==> c.threads[i] > 0
  }

  /** The coordinator's program point and the words that it alone writes. */
  datatype Coordinator = Coordinator(
    pc: Coord,
    go: seq<nat>,             // barriers->processes
    final: Option<Final>,     // sbk_source_final_state
    multi: bool,              // enter_multi_process
    exposed: bool,            // source_final_exposed
    flushed: bool, published: bool, netLocked: bool,
    got: set<Event>)          // events received on the sync socket

  /** The owner threads, the source threads they hold, and their counters. */
  datatype Workers = Workers(
    owners: seq<Owner>,
    threads: seq<seq<Thread>>,
    numMisc: nat, numProcess: nat, cured: nat, processDone: nat,
    mutex1: Option<nat>)

  datatype Destination = Destination(
    pc: Dest, got: set<Event>,
    setupDone: bool, refreshApplied: bool, treeRead: bool,
    live: bool)               // restored tasks execute application code

  datatype State = State(
    alive: bool,              // the source controller process exists
    co: Coordinator, wk: Workers, de: Destination,
    toDst: seq<Event>, toSrc: seq<Event>)

  ghost predicate Init(c: Config, s: State) {
    && s.alive
    && s.co == Coordinator(PublishNamespaces, seq(|c.threads|, _ => 0), None, false, false, false, false, false, {})
    && s.wk == Workers(seq(|c.threads|, _ => Unborn),
                       seq(|c.threads|, i requires 0 <= i < |c.threads| => Uniform(c.threads[i], Running)),
                       0, 0, 0, 0, None)
    && s.de == Destination(DAwaitNamespaces, {}, false, false, false, false)
    && s.toDst == [] && s.toSrc == []
  }

  predicate AllAre(ts: seq<Thread>, t: Thread) {
    forall k :: 0 <= k < |ts| ==> ts[k] == t
  }

  function Uniform(n: nat, t: Thread): (ts: seq<Thread>)
    ensures |ts| == n && AllAre(ts, t)
  {
    seq(n, _ => t)
  }

  /** Puts every thread of every task in state t. */
  function Everywhere(tss: seq<seq<Thread>>, t: Thread): (r: seq<seq<Thread>>)
    ensures |r| == |tss|
    ensures forall i :: 0 <= i < |r| ==> |r[i]| == |tss[i]| && AllAre(r[i], t)
  {
    seq(|tss|, i requires 0 <= i < |tss| => Uniform(|tss[i]|, t))
  }

  /** SIGKILL to one task; the death of a PID namespace's init takes the
      whole namespace with it. */
  function KillTask(c: Config, tss: seq<seq<Thread>>, i: nat): (r: seq<seq<Thread>>)
    requires i < |tss|
    ensures |r| == |tss| && forall j :: 0 <= j < |r| ==> |r[j]| == |tss[j]|
    ensures AllAre(r[i], Killed)
    ensures forall j :: 0 <= j < |r| ==> r[j] == tss[j] || AllAre(r[j], Killed)
    ensures forall j :: 0 <= j < |r| && j != i && !(c.pidNamespace && i == c.root) ==> r[j] == tss[j]
    ensures forall j :: 0 <= j < |r| && c.pidNamespace && i == c.root ==> AllAre(r[j], Killed)
  {
    if c.pidNamespace && i == c.root then Everywhere(tss, Killed)
    else tss[i := Uniform(|tss[i]|, Killed)]
  }

  /** What the kernel does to one task when its tracer exits: EXITKILL on any
      thread kills the thread group, otherwise ptrace is dropped. */
  function OrphanTask(ts: seq<Thread>): (r: seq<Thread>)
    ensures |r| == |ts|
  {
    if Armed in ts then Uniform(|ts|, Killed)
    else seq(|ts|, k requires 0 <= k < |ts| =>
           if ts[k].Traced? || ts[k].Trapped? then Running else ts[k])
  }

  function OrphanAll(c: Config, tss: seq<seq<Thread>>): (r: seq<seq<Thread>>)
    requires c.root < |tss|
    ensures |r| == |tss| && forall j :: 0 <= j < |r| ==> |r[j]| == |tss[j]|
  {
    if c.pidNamespace && Armed in tss[c.root] then Everywhere(tss, Killed)
    else seq(|tss|, i requires 0 <= i < |tss| => OrphanTask(tss[i]))
  }

  /** The decision of `cr_dump_finish`: trouble asks for the source to continue,
      but an exposed final catalogue turns that into a stopped source. */
  function DecideFinal(trouble: bool, requested: Final, exposed: bool): Final {
    var wanted := if trouble then Alive else requested;
    if exposed && wanted == Alive then Stopped else wanted
  }

  function DispositionOf(final: Final, wasStopped: bool): Disposition {
    match final
    case Dead => Kill
    case Stopped => Stop
    case Alive => if wasStopped then Stop else Resume
  }

  /** The event a coordinator or destination waits for, if it is in `wait_state`. */
  function CoordAwaits(p: Coord): Option<Event> {
    match p
    case AwaitRequest => Some(RefreshRequest)
    case AwaitApplied => Some(RefreshApplied)
    case AwaitStart => Some(StartProcessDump)
    case _ => None
  }

  function DestAwaits(p: Dest): Option<Event> {
    match p
    case DAwaitNamespaces => Some(NamespaceDone)
    case DAwaitRefresh => Some(RefreshDone)
    case DAwaitEnd => Some(EndProcessDump)
    case _ => None
  }

  datatype Action =
    | CoordActs                     // the coordinator's next statement succeeds
    | CoordFails(leaked: bool)      // it fails; a failing final send may have leaked bytes
    | CoordReceives                 // wait_state reads one event that it was not waiting for, or was
    | Settle(disconnectFails: bool, scriptFails: bool, finishFails: bool)
    | OwnerActs(owner: nat)
    | OwnerAborts(owner: nat)       // _exit(1) in an owner thread
    | ControllerDies
    | DestActs
    | DestReceives
    | DestFails(leftRunning: bool)

  predicate CoordEnabled(co: Coordinator, wk: Workers) {
    var n := |wk.owners|;
    match co.pc
    case AwaitMisc => wk.numMisc == n
    case AwaitDumps => wk.numProcess == n
    case AwaitDone => wk.processDone == n
    case Spawn(i) => i < n
    case Open(i) => i < |co.go|
    case Finish(_) => false
    case Returned => false
    case _ => CoordAwaits(co.pc).Some? ==> CoordAwaits(co.pc).value in co.got
  }

  predicate CoordMayFail(p: Coord) {
    match p
    case PublishNamespaces => true
    case PublishRefresh => true
    case LockNetwork => true
    case CollectTree => true
    case DetachAll => true
    case CheckPids => true
    case WriteTree => true
    case FlushImages => true
    case PublishFinal => true
    case SendFinal => true
    case _ => false
  }

  predicate OwnerEnabled(wk: Workers, co: Coordinator, i: nat) {
    && i < |wk.owners| == |wk.threads| == |co.go|
    && match wk.owners[i]
       case Unborn => false
       case Seizing(k, phase) => k < |wk.threads[i]| && phase < 3
       case Parked => co.go[i] != 0
       case Unprotected => wk.mutex1 == None
       // compel_stop_daemon and compel_cure fail on a task that has been killed
       case Curing => AllAre(wk.threads[i], Armed)
       case Gathering => wk.cured == |wk.owners| && co.final.Some?
       case Releasing(_, k) => k < |wk.threads[i]| && wk.threads[i][k] == Armed
       case Finished => false
       case _ => true
  }

  predicate DestEnabled(de: Destination) {
    && !de.pc.DLive? && !de.pc.DFailed?
    && (DestAwaits(de.pc).Some? ==> DestAwaits(de.pc).value in de.got)
  }

  predicate Enabled(c: Config, s: State, a: Action) {
    match a
    case CoordActs => s.alive && CoordEnabled(s.co, s.wk)
    case CoordFails(_) => s.alive && CoordMayFail(s.co.pc)
    case CoordReceives =>
      && s.alive && CoordAwaits(s.co.pc).Some? && CoordAwaits(s.co.pc).value !in s.co.got
      && s.toSrc != []
    case Settle(_, _, _) => s.alive && s.co.pc.Finish?
    case OwnerActs(i) => s.alive && i < |c.wasStopped| && OwnerEnabled(s.wk, s.co, i)
    case OwnerAborts(i) =>
      s.alive && c.root < |s.wk.threads| && i < |s.wk.owners| == |s.wk.threads| && !s.wk.owners[i].Unborn?
    case ControllerDies => s.alive && c.root < |s.wk.threads|
    case DestActs => DestEnabled(s.de)
    case DestReceives =>
      && DestAwaits(s.de.pc).Some? && DestAwaits(s.de.pc).value !in s.de.got
      && s.toDst != []
    case DestFails(_) => !s.de.pc.DLive? && !s.de.pc.DFailed?
  }

  /** The next program point of a coordinator over n tasks. */
  function NextCoord(c: Config, pc: Coord, n: nat): Coord {
    match pc
    case PublishNamespaces => NotifyNamespaces
    case NotifyNamespaces => if c.sourceStage then AwaitRequest else AwaitStart
    case AwaitRequest => PublishRefresh
    case PublishRefresh => NotifyRefresh
    case NotifyRefresh => AwaitApplied
    case AwaitApplied => AwaitStart
    case AwaitStart => LockNetwork
    case LockNetwork => CollectTree
    case CollectTree => DetachAll
    case DetachAll => Spawn(0)
    case Spawn(i) => if i + 1 == n then AwaitMisc else Spawn(i + 1)
    case AwaitMisc => CheckPids
    case CheckPids => AwaitDumps
    case AwaitDumps => WriteTree
    case WriteTree => FlushImages
    case FlushImages => PublishFinal
    case PublishFinal => SendFinal
    case SendFinal => NotifyPeer
    case NotifyPeer => NotifyPages
    case NotifyPages => Finish(false)
    case Finish(f) => Finish(f)
    case Open(i) => if i + 1 == n then AwaitDone else Open(i + 1)
    case AwaitDone => Returned
    case Returned => Returned
  }

  function CoordSends(pc: Coord): seq<Event> {
    match pc
    case NotifyNamespaces => [NamespaceDone]
    case NotifyRefresh => [RefreshDone]
    case NotifyPeer => [EndProcessDump]
    case _ => []
  }

  function CoordWrites(c: Config, co: Coordinator): Coordinator {
    Coordinator(
      NextCoord(c, co.pc, |co.go|),
      if co.pc.Open? && co.pc.next < |co.go| then co.go[co.pc.next := co.go[co.pc.next] + 1] else co.go,
      co.final,
      co.multi || co.pc.DetachAll?,
      co.exposed || co.pc.SendFinal?,
      co.flushed || co.pc.FlushImages?,
      co.published || co.pc.PublishFinal?,
      co.netLocked || co.pc.LockNetwork?,
      co.got)
  }

  function CoordOnWorkers(pc: Coord, wk: Workers): Workers {
    match pc
    case CollectTree => wk.(threads := Everywhere(wk.threads, Trapped))
    case DetachAll => wk.(threads := Everywhere(wk.threads, Running))
    case Spawn(i) => if i < |wk.owners| then wk.(owners := wk.owners[i := Seizing(0, 0)]) else wk
    case _ => wk
  }

  /** `cr_dump_finish` down to the store of the final-state word. */
  function SettleWrites(
    c: Config, co: Coordinator, disconnectFails: bool, scriptFails: bool, finishFails: bool): Coordinator
    requires co.pc.Finish?
  {
    var failed := co.pc.failed || disconnectFails;
    var script := !failed && scriptFails;
    if failed && !co.multi then co.(pc := Returned)
    else
      var trouble := failed || finishFails || script;
      co.(pc := Open(0), final := Some(DecideFinal(trouble, c.requested, co.exposed)))
  }

  /** Where an owner's next statement leads; `how` is read only at the release. */
  function NextOwner(o: Owner, n: nat, how: Disposition): Owner {
    match o
    case Unborn => Unborn
    case Seizing(k, 0) => Seizing(k, 1)
    case Seizing(k, 1) => Seizing(k, 2)
    case Seizing(k, _) => if k + 1 == n then Infecting else Seizing(k + 1, 0)
    case Infecting => Saving
    case Saving => Parked
    case Parked => Unprotected
    case Unprotected => Curing
    case Curing => CuredLocked
    case CuredLocked => Unlocked
    case Unlocked => Gathering
    case Gathering => if how.Kill? then Released else Releasing(how.Resume?, 0)
    case Releasing(resume, k) => if k + 1 == n then Released else Releasing(resume, k + 1)
    case Released => Finished
    case Finished => Finished
  }

  /** What that statement does to the threads of the owner's task, the kill aside. */
  function NextThreads(o: Owner, ts: seq<Thread>): (r: seq<Thread>)
    ensures |r| == |ts|
  {
    match o
    case Seizing(k, phase) =>
      if k < |ts| then ts[k := if phase == 0 then Traced else if phase == 1 then Trapped else Armed] else ts
    case Releasing(resume, k) =>
      if k < |ts| then ts[k := if resume then Running else Halted] else ts
    case _ => ts
  }

  /** The disposition owner i reads when every owner has cured its task. */
  function HowTo(c: Config, final: Option<Final>, o: Owner, i: nat): Disposition
    requires i < |c.wasStopped|
  {
    if o.Gathering? && final.Some? then DispositionOf(final.value, c.wasStopped[i]) else Stop
  }

  function OwnerWrites(c: Config, wk: Workers, final: Option<Final>, i: nat): Workers
    requires i < |wk.owners| == |wk.threads| && i < |c.wasStopped|
  {
    var o := wk.owners[i];
    var how := HowTo(c, final, o, i);
    Workers(
      wk.owners[i := NextOwner(o, |wk.threads[i]|, how)],
      if how.Kill? then KillTask(c, wk.threads, i) else wk.threads[i := NextThreads(o, wk.threads[i])],
      if o.Infecting? then wk.numMisc + 1 else wk.numMisc,
      if o.Saving? then wk.numProcess + 1 else wk.numProcess,
      if o.Unlocked? then wk.cured + 1 else wk.cured,
      if o.Released? then wk.processDone + 1 else wk.processDone,
      if o.Unprotected? then Some(i) else if o.CuredLocked? then None else wk.mutex1)
  }

  /** A failed release kills its own thread group before the controller exits. */
  function BeforeAbort(c: Config, wk: Workers, i: nat): seq<seq<Thread>>
    requires i < |wk.owners| == |wk.threads|
  {
    if wk.owners[i].Gathering? || wk.owners[i].Releasing? then KillTask(c, wk.threads, i) else wk.threads
  }

  function NextDest(c: Config, d: Dest): Dest {
    match d
    case DAwaitNamespaces => DSetup
    case DSetup => if c.destStage then DRequest else DStart
    case DRequest => DAwaitRefresh
    case DAwaitRefresh => DApply
    case DApply => DNotifyApplied
    case DNotifyApplied => DStart
    case DStart => DAwaitEnd
    case DAwaitEnd => DValidate
    case DValidate => DReadTree
    case DReadTree => DRestoring
    case DRestoring => DLive
    case DLive => DLive
    case DFailed => DFailed
  }

  function DestSends(d: Dest): seq<Event> {
    match d
    case DRequest => [RefreshRequest]
    case DNotifyApplied => [RefreshApplied]
    case DStart => [StartProcessDump]
    case _ => []
  }

  function DestWrites(c: Config, de: Destination): Destination {
    Destination(NextDest(c, de.pc), de.got,
                de.setupDone || de.pc.DSetup?, de.refreshApplied || de.pc.DApply?,
                de.treeRead || de.pc.DReadTree?, de.live || de.pc.DRestoring?)
  }

  function Apply(c: Config, s: State, a: Action): State
    requires Enabled(c, s, a)
  {
    match a
    case CoordActs =>
      s.(co := CoordWrites(c, s.co), wk := CoordOnWorkers(s.co.pc, s.wk), toDst := s.toDst + CoordSends(s.co.pc))
    case CoordFails(leaked) =>
      s.(co := s.co.(pc := Finish(true), exposed := s.co.exposed || (leaked && s.co.pc.SendFinal?)))
    case CoordReceives => s.(co := s.co.(got := s.co.got + {s.toSrc[0]}), toSrc := s.toSrc[1..])
    case Settle(d, p, f) => s.(co := SettleWrites(c, s.co, d, p, f))
    case OwnerActs(i) => s.(wk := OwnerWrites(c, s.wk, s.co.final, i))
    case OwnerAborts(i) =>
      s.(alive := false, wk := s.wk.(threads := OrphanAll(c, BeforeAbort(c, s.wk, i))))
    case ControllerDies => s.(alive := false, wk := s.wk.(threads := OrphanAll(c, s.wk.threads)))
    case DestActs => s.(de := DestWrites(c, s.de), toSrc := s.toSrc + DestSends(s.de.pc))
    case DestReceives => s.(de := s.de.(got := s.de.got + {s.toDst[0]}), toDst := s.toDst[1..])
    case DestFails(leftRunning) => s.(de := s.de.(pc := DFailed, live := s.de.pc.DRestoring? && leftRunning))
  }

  /** A sequence of enabled actions and the states between them. */
  ghost predicate IsPath(c: Config, states: seq<State>, actions: seq<Action>) {
    && |states| == |actions| + 1
    && forall k :: 0 <= k < |actions| ==>
         Enabled(c, states[k], actions[k]) && states[k + 1] == Apply(c, states[k], actions[k])
  }

  ghost predicate IsRun(c: Config, states: seq<State>, actions: seq<Action>) {
    IsPath(c, states, actions) && Init(c, states[0])
  }

  ghost predicate SourceExecutes(s: State) {
    exists i, k :: 0 <= i < |s.wk.threads| && 0 <= k < |s.wk.threads[i]| && Executes(s.wk.threads[i][k])
  }

  /** A thread that the fence still holds: armed under a living controller,
      stopped for good, or dead. */
  predicate Held(t: Thread, alive: bool) {
    t.Halted? || t.Killed? || (t.Armed? && alive)
  }

  ghost predicate AllHeld(tss: seq<seq<Thread>>, alive: bool) {
    forall i, k :: 0 <= i < |tss| && 0 <= k < |tss[i]| ==> Held(tss[i][k], alive)
  }

  /** Every thread held, and no owner on its way to resume one. */
  ghost predicate Fenced(wk: Workers, alive: bool) {
    && AllHeld(wk.threads, alive)
    && forall i :: 0 <= i < |wk.owners| && wk.owners[i].Releasing? ==> !wk.owners[i].resume
  }

  /** How many owners have reached rank r. */
  function AtLeast(os: seq<Owner>, r: nat): nat {
    if os == [] then 0 else (if Rank(os[0]) >= r then 1 else 0) + AtLeast(os[1..], r)
  }
}
