/** The events of the migration protocol as the phase numbers of the event channel. */
module PhaseNumbers {
  import Migration
  import SyncChannel
  import SyncRuns

  /** enum STATE in `cr-sync.h`. */
  function NumberOf(e: Migration.Event): SyncChannel.Event {
    match e
    case NamespaceDone => 1
    case StartProcessDump => 2
    case EndProcessDump => 3
    case RefreshRequest => 7
    case RefreshDone => 8
    case RefreshApplied => 9
  }

  function Numbers(es: seq<Migration.Event>): (ns: seq<SyncChannel.Event>)
    ensures |ns| == |es| && forall i :: 0 <= i < |es| ==> ns[i] == NumberOf(es[i])
  {
    seq(|es|, i requires 0 <= i < |es| => NumberOf(es[i]))
  }

  /** Different events have different numbers, and every number is a phase that can be
      waited for and that survives the wire. */
  lemma NumbersAreTold(d: Migration.Event, e: Migration.Event)
    ensures NumberOf(d) == NumberOf(e) <==> d == e
    ensures SyncChannel.Valid(NumberOf(e))
    ensures SyncChannel.Decode(SyncChannel.Encode(NumberOf(e))) == NumberOf(e)
  {
    SyncChannel.DecodeEncode(NumberOf(e));
  }

  /** Whatever protocol events a line was given, a wait for any of them can begin, and
      once begun it is brought to its return by sends and receives. */
  lemma EveryPhaseArrives(
    lines: nat, states: seq<seq<SyncRuns.Line>>, steps: seq<SyncRuns.Step>, k: nat, d: nat,
    es: seq<Migration.Event>, i: nat)
    returns (more: seq<SyncRuns.Action>, t: SyncRuns.Line)
    requires SyncRuns.IsRun(lines, states, steps) && k < |states| && d < lines && |states[k]| == lines
    requires states[k][d].tx.sent == Numbers(es) && !states[k][d].tx.gone && !states[k][d].rx.exited
    requires i < |es| && states[k][d].rx.waiting.Idle?
    ensures var l := states[k][d]; var wait := SyncRuns.Wait(NumberOf(es[i]));
      && SyncRuns.Enabled(l, wait)
      && SyncRuns.Leads(SyncRuns.Apply(l, wait), more, t) && SyncRuns.Enabled(t, SyncRuns.Return)
  {
    var l := states[k][d];
    NumbersAreTold(es[i], es[i]);
    SyncRuns.RunInv(lines, states, steps, k, d);
    var w := SyncRuns.Apply(l, SyncRuns.Wait(NumberOf(es[i])));
    SyncRuns.StepKeeps(l, SyncRuns.Wait(NumberOf(es[i])));
    forall j | 0 <= j <= i ensures SyncChannel.Valid(w.tx.sent[j]) { NumbersAreTold(es[j], es[j]); }
    more, t := SyncRuns.Arrives(w, i);
  }
}
