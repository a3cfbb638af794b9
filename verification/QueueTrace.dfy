/** The step machine of the workers and the program of one claim are two views of the same
    code: in every run, what the store recorded for a claim is what the program calls when it
    meets the lookups and signals that the claim met in the run. */
module QueueTrace {
  import opened Results
  import opened QueueWorkers
  import opened QueueBackend

  /** What a claim has met so far. A call counts as accepted until a refusal is received. */
  datatype Met = Met(lookups: seq<Lookup>, events: seq<QueueBackend.Event>)

  const NOTHING_MET := Met([], [])

  function AddSignal(met: Met, signal: Signal): Met
  {
    met.(events := met.events + [Event(signal, true)])
  }

  function Refuse(met: Met): Met
  {
    if met.events == [] then met
    else
      var last := |met.events| - 1;
      met.(events := met.events[..last] + [met.events[last].(accepted := false)])
  }

  /** What claim `c` has met after the step. */
  function MetAfter(s: System, step: Step, c: nat, met: Met): Met
    requires Enabled(s, step)
  {
    match step
    case ProcessorFound(d) => if d == c then met.(lookups := met.lookups + [Found]) else met
    case NoProcessorAtShutdown(d) => if d == c then met.(lookups := met.lookups + [Missing(false)]) else met
    case LookupFails(d) => if d == c then met.(lookups := met.lookups + [Poisoned]) else met
    case ProcessorReturns(d, ok) => if d == c then AddSignal(met, Returned(ok)) else met
    case TimesOut(d) => if d == c then AddSignal(met, TimedOut) else met
    case HeartbeatTicks(d) => if d == c then AddSignal(met, Tick) else met
    case Notified(d) => if d == c then AddSignal(met, Notification(s.running)) else met
    case Reply(d, lost) => if d == c && (lost || !s.claims[c].phase.accepted) then Refuse(met) else met
    case _ => met
  }

  function MetIn(s: System, steps: seq<Step>, c: nat, met: Met): Met
    requires IsRun(s, steps)
    decreases |steps|
  {
    if steps == [] then met else MetIn(Apply(s, steps[0]), steps[1..], c, MetAfter(s, steps[0], c, met))
  }

  /** The calls that the store recorded for the claim, in order. */
  function RecordedCalls(records: seq<Record>, c: nat): seq<Call>
  {
    if records == [] then []
    else
      var last := records[|records| - 1];
      RecordedCalls(records[..|records| - 1], c) + if last.claim == c then [last.call] else []
  }

  /** The calls that the program makes for what the claim has met. */
  function MadeCalls(met: Met): seq<Call>
  {
    ProgramCalls(met.lookups, met.events)
  }

  /** How far the claim's records are behind its calls, phase by phase. */
  ghost predicate InStep(s: System, c: nat, met: Met)
  {
    var recorded := RecordedCalls(s.records, c);
    if c !in s.claims then recorded == [] && met == NOTHING_MET
    else
      match s.claims[c].phase
      case AwaitingProcessor => recorded == [] && met == NOTHING_MET
      case Processing => met.lookups == [Found] && AllGoOn(met.events) && recorded == MadeCalls(met)
      case Calling(call) => CallUnderWay(met, call) && recorded + [call] == MadeCalls(met)
      case Answered(call, _) => CallUnderWay(met, call) && recorded == MadeCalls(met)
      case Ended => recorded == MadeCalls(met) || exists call :: recorded + [call] == MadeCalls(met)
  }

  /** The last thing that the claim met leads to the call. */
  ghost predicate CallUnderWay(met: Met, call: Call)
  {
    || (met.lookups == [Missing(false)] && met.events == [] && call == Release)
    || (&& met.lookups == [Found] && met.events != []
        && AllGoOn(met.events[..|met.events| - 1])
        && CallFor(met.events[|met.events| - 1].signal) == Some(call)
        && met.events[|met.events| - 1].accepted)
  }

  // ----- Adding an event

  lemma {:induction false} OneMoreEvent(events: seq<QueueBackend.Event>, e: QueueBackend.Event)
    requires AllGoOn(events)
    ensures EventCalls(events + [e])
         == EventCalls(events) + if CallFor(e.signal) == None then [] else [CallFor(e.signal).value]
  {
    var all := events + [e];
    if events == [] {
      assert all[1..] == [];
    } else {
      assert GoesOn(events[0]);
      assert all[1..] == events[1..] + [e];
      OneMoreEvent(events[1..], e);
    }
  }

  /** Whether the last call was accepted does not change which calls were made. */
  lemma RefusedLast(met: Met)
    requires met.lookups == [Found] && met.events != [] && AllGoOn(met.events[..|met.events| - 1])
    ensures MadeCalls(Refuse(met)) == MadeCalls(met)
  {
    var last := |met.events| - 1;
    var e := met.events[last];
    assert met.events == met.events[..last] + [e];
    OneMoreEvent(met.events[..last], e);
    OneMoreEvent(met.events[..last], e.(accepted := false));
  }

  lemma RecordedOne(records: seq<Record>, r: Record, c: nat)
    ensures RecordedCalls(records + [r], c) == RecordedCalls(records, c) + if r.claim == c then [r.call] else []
  {
    assert (records + [r])[..|records|] == records;
  }

  lemma SignalMet(met: Met, signal: Signal)
    requires met.lookups == [Found] && AllGoOn(met.events)
    ensures
      var call := CallFor(signal);
      var met' := AddSignal(met, signal);
      && MadeCalls(met') == MadeCalls(met) + (if call == None then [] else [call.value])
      && (call == None ==> AllGoOn(met'.events))
      && (call.Some? ==> CallUnderWay(met', call.value))
  {
    OneMoreEvent(met.events, Event(signal, true));
    assert AddSignal(met, signal).events[..|met.events|] == met.events;
  }

  // ----- Every step

  /** A step of another claim, or of no claim, changes nothing here. */
  lemma OthersStep(s: System, step: Step, c: nat, met: Met)
    requires TokensOk(s) && Enabled(s, step) && InStep(s, c, met)
    requires step.ClaimNext? || step.Wait? || step.Start? || step.Shutdown? || step.Enqueue? || step.Clear?
             || step.RemoveFinished? || step.Sweep? || step.c != c
    ensures InStep(Apply(s, step), c, MetAfter(s, step, c, met))
  {
    hide AllGoOn, CallUnderWay, ProgramCalls, RecordedCalls;
    if step.StoreActs? {
      var claim := s.claims[step.c];
      var s' := Apply(s, step);
      RecordedOne(s.records, s'.records[|s.records|], c);
      assert RecordedCalls(s.records, c) + [] == RecordedCalls(s.records, c);
    }
  }

  predicate IsSignal(step: Step)
  {
    step.ProcessorReturns? || step.TimesOut? || step.HeartbeatTicks? || step.Notified?
  }

  function SignalOf(s: System, step: Step): Signal
    requires IsSignal(step)
  {
    match step
    case ProcessorReturns(_, ok) => Returned(ok)
    case TimesOut(_) => TimedOut
    case HeartbeatTicks(_) => Tick
    case Notified(_) => Notification(s.running)
  }

  lemma SignalEffect(s: System, step: Step, met: Met)
    requires Enabled(s, step) && IsSignal(step)
    ensures step.c in s.claims && s.claims[step.c].phase == Processing
    ensures Apply(s, step).records == s.records && step.c in Apply(s, step).claims
    ensures MetAfter(s, step, step.c, met) == AddSignal(met, SignalOf(s, step))
    ensures
      var call := CallFor(SignalOf(s, step));
      Apply(s, step).claims[step.c].phase == if call == None then Processing else Calling(call.value)
  {
  }

  lemma SignalStep(s: System, step: Step, c: nat, met: Met)
    requires Enabled(s, step) && InStep(s, c, met) && IsSignal(step) && step.c == c
    ensures InStep(Apply(s, step), c, MetAfter(s, step, c, met))
  {
    SignalEffect(s, step, met);
    hide AllGoOn, CallUnderWay, ProgramCalls, RecordedCalls, Apply, Enabled, MetAfter, IsSignal, SignalOf, AddSignal;
    SignalMet(met, SignalOf(s, step));
    assert MadeCalls(met) + [] == MadeCalls(met);
  }

  lemma LookupStep(s: System, step: Step, c: nat, met: Met)
    requires TokensOk(s) && Enabled(s, step) && InStep(s, c, met)
    requires step.ProcessorFound? || step.NoProcessorAtShutdown? || step.LookupFails?
    requires step.c == c
    ensures InStep(Apply(s, step), c, MetAfter(s, step, c, met))
  {
    assert [] + [Found] == [Found] && [] + [Missing(false)] == [Missing(false)] && [] + [Poisoned] == [Poisoned];
  }

  lemma StoreStep(s: System, step: Step, c: nat, met: Met)
    requires TokensOk(s) && Enabled(s, step) && InStep(s, c, met)
    requires step.StoreActs? && step.c == c
    ensures InStep(Apply(s, step), c, MetAfter(s, step, c, met))
  {
    hide AllGoOn, CallUnderWay, ProgramCalls, RecordedCalls;
    RecordedOne(s.records, Apply(s, step).records[|s.records|], c);
  }

  lemma ReplyStep(s: System, step: Step, c: nat, met: Met)
    requires TokensOk(s) && Enabled(s, step) && InStep(s, c, met)
    requires step.Reply? && step.c == c
    ensures InStep(Apply(s, step), c, MetAfter(s, step, c, met))
  {
    hide ProgramCalls, RecordedCalls;
    if met.lookups == [Found] {
      RefusedLast(met);
      var last := |met.events| - 1;
      assert met.events == met.events[..last] + [met.events[last]];
    }
  }

  lemma CrashStep(s: System, step: Step, c: nat, met: Met)
    requires TokensOk(s) && Enabled(s, step) && InStep(s, c, met)
    requires step.Crash? && step.c == c
    ensures InStep(Apply(s, step), c, MetAfter(s, step, c, met))
  {
    hide AllGoOn, CallUnderWay, RecordedCalls;
  }

  lemma StepStaysInStep(s: System, step: Step, c: nat, met: Met)
    requires TokensOk(s) && Enabled(s, step) && InStep(s, c, met)
    ensures InStep(Apply(s, step), c, MetAfter(s, step, c, met))
  {
    hide TokensOk, Enabled, InStep, Apply;
    match step
    case ProcessorReturns(d, _) => if d == c { SignalStep(s, step, c, met); } else { OthersStep(s, step, c, met); }
    case TimesOut(d) => if d == c { SignalStep(s, step, c, met); } else { OthersStep(s, step, c, met); }
    case HeartbeatTicks(d) => if d == c { SignalStep(s, step, c, met); } else { OthersStep(s, step, c, met); }
    case Notified(d) => if d == c { SignalStep(s, step, c, met); } else { OthersStep(s, step, c, met); }
    case ProcessorFound(d) => if d == c { LookupStep(s, step, c, met); } else { OthersStep(s, step, c, met); }
    case NoProcessorAtShutdown(d) => if d == c { LookupStep(s, step, c, met); } else { OthersStep(s, step, c, met); }
    case LookupFails(d) => if d == c { LookupStep(s, step, c, met); } else { OthersStep(s, step, c, met); }
    case StoreActs(d, _) => if d == c { StoreStep(s, step, c, met); } else { OthersStep(s, step, c, met); }
    case Reply(d, _) => if d == c { ReplyStep(s, step, c, met); } else { OthersStep(s, step, c, met); }
    case Crash(d) => if d == c { CrashStep(s, step, c, met); } else { OthersStep(s, step, c, met); }
    case _ => OthersStep(s, step, c, met);
  }

  lemma {:induction false} RunStaysInStep(s: System, steps: seq<Step>, c: nat, met: Met)
    requires Inv(s) && IsRun(s, steps) && InStep(s, c, met)
    ensures InStep(RunAll(s, steps), c, MetIn(s, steps, c, met))
    decreases |steps|
  {
    hide Inv, InStep, Apply, Enabled, MetAfter;
    if steps != [] {
      InvTokens(s);
      StepKeeps(s, steps[0]);
      StepStaysInStep(s, steps[0], c, met);
      RunStaysInStep(Apply(s, steps[0]), steps[1..], c, MetAfter(s, steps[0], c, met));
    }
  }

  /** In every run, the calls recorded for a claim are, in order, those that the worker's
      program makes when it meets what the claim met; at most its last call has not reached
      the store. */
  lemma RecordsAreProgramCalls(lease: nat, steps: seq<Step>, c: nat)
    requires IsRun(Initial(lease), steps)
    ensures
      var recorded := RecordedCalls(RunAll(Initial(lease), steps).records, c);
      var made := MadeCalls(MetIn(Initial(lease), steps, c, NOTHING_MET));
      recorded <= made && |made| <= |recorded| + 1
  {
    hide RunAll, MetIn, IsRun;
    RunStaysInStep(Initial(lease), steps, c, NOTHING_MET);
  }
}
