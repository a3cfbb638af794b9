/** The in-process queue backend as an object: its processors, worker handles and running
    mark, and the program that one worker runs for one claimed job. */
module QueueBackend {
  import opened Results
  import opened Text
  import opened LeaseStore
  import opened QueueWorkers

  type ModuleRef = nat
  type Processor = nat

  datatype QueueOptions = QueueOptions(workers: nat, pollInterval: nat, leaseDuration: nat)

  predicate ValidQueueOptions(o: QueueOptions)
  {
    o.workers > 0 && o.pollInterval > 0 && o.leaseDuration > 0
  }

  /** Options are refused when a number in them is zero. */
  lemma ZeroOptionsAreInvalid(o: QueueOptions)
    ensures !ValidQueueOptions(o) <==> o.workers == 0 || o.pollInterval == 0 || o.leaseDuration == 0
  {
  }

  /** A spawned worker, by its number and the container it hands to processors. */
  datatype Worker = Worker(number: nat, moduleRef: ModuleRef)

  ghost predicate AllWorkers(handles: seq<Worker>, count: nat, moduleRef: ModuleRef)
  {
    |handles| == count && forall i :: 0 <= i < count ==> handles[i] == Worker(i + 1, moduleRef)
  }

  class InProcessQueueBackend {
    const options: QueueOptions
    var processors: map<string, Processor>
    var running: Option<ModuleRef>
    var handles: seq<Worker>

    /** A started queue has its full set of workers, a stopped one has none. */
    ghost function Snapshot(): QueueState
      reads this
    {
      QueueState(running, handles)
    }

    ghost predicate Valid()
      reads this
    {
      && (running.Some? ==> ValidQueueOptions(options) && AllWorkers(handles, options.workers, running.value))
      && (running.None? ==> handles == [])
      && forall name :: name in processors ==> !IsBlank(name)
    }

    constructor (options: QueueOptions)
      ensures Valid() && this.options == options && running == None && processors == map[]
    {
      this.options, processors, running, handles := options, map[], None, [];
    }

    /** A name keeps the processor that was registered for it first. */
    method Process(name: string, processor: Processor) returns (r: Result<()>)
      requires Valid()
      modifies this`processors
      ensures Valid()
      ensures r.Ok? <==> !IsBlank(name) && Trim(name) !in old(processors)
      ensures processors == if r.Ok? then old(processors)[Trim(name) := processor] else old(processors)
    {
      var trimmed := Trim(name);
      if trimmed == "" {
        return Err(Internal("queue job name cannot be empty"));
      }
      if trimmed in processors {
        return Err(Internal("queue processor is already registered"));
      }
      TrimTwice(name);
      processors := processors[trimmed := processor];
      return Ok(());
    }

    method Start(moduleRef: ModuleRef, runtimeUp: bool) returns (r: Result<()>)
      requires Valid()
      modifies this`running, this`handles
      ensures Valid()
      ensures r.Ok? <==> ValidQueueOptions(options) && runtimeUp
      ensures running == if r.Ok? && old(running).None? then Some(moduleRef) else old(running)
      ensures r.Err? || old(running).Some? ==> handles == old(handles)
      ensures Snapshot() == ApplyCommand(options, old(Snapshot()), StartQueue(moduleRef, runtimeUp))
    {
      if !ValidQueueOptions(options) {
        return Err(Internal("invalid queue options"));
      }
      if !runtimeUp {
        return Err(Internal("queue requires a running runtime"));
      }
      if running.Some? {
        return Ok(());
      }
      running := Some(moduleRef);
      for index := 0 to options.workers
        invariant AllWorkers(handles, index, moduleRef) && running == Some(moduleRef)
      {
        handles := handles + [Worker(index + 1, moduleRef)];
      }
      assert handles == old(handles) + Workers(options.workers, moduleRef);
      return Ok(());
    }

    method Shutdown() returns (stopped: seq<Worker>)
      requires Valid()
      modifies this`running, this`handles
      ensures Valid() && running == None && stopped == old(handles)
      ensures Snapshot() == ApplyCommand(options, old(Snapshot()), ShutdownQueue)
    {
      running := None;
      stopped := handles;
      handles := [];
    }
  }

  // ----- Overlapping starts and shutdowns

  datatype QueueState = QueueState(running: Option<ModuleRef>, handles: seq<Worker>)

  datatype QueueCommand = StartQueue(moduleRef: ModuleRef, runtimeUp: bool) | ShutdownQueue

  function Workers(count: nat, moduleRef: ModuleRef): (workers: seq<Worker>)
    ensures AllWorkers(workers, count, moduleRef)
  {
    seq(count, i requires 0 <= i < count => Worker(i + 1, moduleRef))
  }

  /** Whole calls, as the object makes them. */
  function ApplyCommand(o: QueueOptions, s: QueueState, c: QueueCommand): QueueState
  {
    match c
    case StartQueue(moduleRef, runtimeUp) =>
      if !ValidQueueOptions(o) || !runtimeUp || s.running.Some? then s
      else QueueState(Some(moduleRef), s.handles + Workers(o.workers, moduleRef))
    case ShutdownQueue => QueueState(None, [])
  }

  function ApplyCommands(o: QueueOptions, s: QueueState, commands: seq<QueueCommand>): QueueState
    decreases |commands|
  {
    if commands == [] then s else ApplyCommands(o, ApplyCommand(o, s, commands[0]), commands[1..])
  }

  /** A start that finds the queue stopped: it sets the mark in one lock section and adds the
      handles in another, with other calls in between. */
  function InterruptedStart(o: QueueOptions, s: QueueState, moduleRef: ModuleRef, gap: seq<QueueCommand>): QueueState
  {
    var t := ApplyCommands(o, s.(running := Some(moduleRef)), gap);
    t.(handles := t.handles + Workers(o.workers, moduleRef))
  }

  /** A started queue has its full set of workers, a stopped one has none. */
  ghost predicate Staffed(o: QueueOptions, s: QueueState)
  {
    match s.running
    case Some(moduleRef) => AllWorkers(s.handles, o.workers, moduleRef)
    case None => s.handles == []
  }

  /** Without interruption the two sections make up one call. */
  lemma SectionsMakeUpStart(o: QueueOptions, s: QueueState, moduleRef: ModuleRef)
    requires ValidQueueOptions(o) && s.running.None?
    ensures InterruptedStart(o, s, moduleRef, []) == ApplyCommand(o, s, StartQueue(moduleRef, true))
  {
  }

  /** The exact condition, for every other call in between: the start leaves the queue with
      its full set of workers if and only if, when it adds its own, there are none and the
      mark is still for its container. */
  lemma InterruptedStartIsStaffedIff(o: QueueOptions, s: QueueState, moduleRef: ModuleRef, gap: seq<QueueCommand>)
    requires ValidQueueOptions(o)
    ensures
      var t := ApplyCommands(o, s.(running := Some(moduleRef)), gap);
      Staffed(o, InterruptedStart(o, s, moduleRef, gap)) <==> t.handles == [] && t.running == Some(moduleRef)
  {
    hide ApplyCommands;
    var t := ApplyCommands(o, s.(running := Some(moduleRef)), gap);
    var result := InterruptedStart(o, s, moduleRef, gap);
    assert t.handles == [] ==> result.handles == Workers(o.workers, moduleRef);
    if t.handles == [] && t.running.Some? {
      assert result.handles[0] == Worker(1, moduleRef);
    }
  }

  /** A shutdown and another start in between leave a running queue with twice its workers. */
  lemma RestartInsideStartDoublesWorkers(o: QueueOptions, s: QueueState, a: ModuleRef, b: ModuleRef)
    requires ValidQueueOptions(o) && s == QueueState(None, [])
    ensures
      var result := InterruptedStart(o, s, a, [ShutdownQueue, StartQueue(b, true)]);
      result.running == Some(b) && |result.handles| == 2 * o.workers && !Staffed(o, result)
  {
    var gap, again := [ShutdownQueue, StartQueue(b, true)], [StartQueue(b, true)];
    assert gap[1..] == again && again[1..] == [];
    var stopped := QueueState(None, []);
    var restarted := ApplyCommand(o, stopped, StartQueue(b, true));
    assert ApplyCommands(o, stopped, again) == ApplyCommands(o, restarted, []) == restarted;
    assert ApplyCommands(o, s.(running := Some(a)), gap) == restarted;
  }

  // ----- The worker program for one claimed job

  /** What a look for the job's processor finds, and whether the queue is running then. */
  datatype Lookup = Found | Missing(running: bool) | Poisoned

  /** What the worker wakes up for while the processor runs. */
  datatype Signal = Returned(ok: bool) | TimedOut | Tick | Notification(running: bool)

  /** A signal, and whether the store accepts the call that it leads to, if any. */
  datatype Event = Event(signal: Signal, accepted: bool)

  datatype Outcome =
    | Finished
    | StoreRefused
    | NotProcessed(released: bool)
    | LookupError
    | StillWaiting
    | StillProcessing

  datatype Made = Made(call: Call, job: JobId, token: nat)

  function CallFor(signal: Signal): Option<Call>
  {
    match signal
    case Returned(ok) => Some(if ok then Complete else Fail)
    case TimedOut => Some(Fail)
    case Tick => Some(RenewLease)
    case Notification(running) => if running then None else Some(Release)
  }

  /** A job is completed only for a processor that returned well, failed only for one that
      did not or took too long, and released only at shutdown. */
  predicate Justified(call: Call, signal: Signal)
  {
    match call
    case Complete => signal == Returned(true)
    case Fail => signal == Returned(false) || signal == TimedOut
    case Release => signal == Notification(false)
    case RenewLease => signal == Tick
  }

  /** The program goes through its events until event `k` makes it call for the last time. */
  ghost predicate EndsAt(events: seq<Event>, k: nat, call: Call)
  {
    && k < |events| && Justified(call, events[k].signal) && !GoesOn(events[k])
    && forall j :: 0 <= j < k ==> GoesOn(events[j])
  }

  /** The signals before the first that ends the program: a refused call, or any call but a
      renewal. */
  ghost predicate GoesOn(e: Event)
  {
    CallFor(e.signal) == None || (CallFor(e.signal) == Some(RenewLease) && e.accepted)
  }

  /** The calls made for the events, in order, up to the first that ends the program. */
  function EventCalls(events: seq<Event>): seq<Call>
  {
    if events == [] then []
    else
      var call := CallFor(events[0].signal);
      if call == None then EventCalls(events[1..])
      else if call == Some(RenewLease) && events[0].accepted then [RenewLease] + EventCalls(events[1..])
      else [call.value]
  }

  /** The calls of the whole program: nothing before the look that decides, one release when
      it finds the queue stopped, and the calls of processing when it finds the processor. */
  function ProgramCalls(lookups: seq<Lookup>, events: seq<Event>): seq<Call>
  {
    if lookups == [] then []
    else
      match lookups[0]
      case Found => EventCalls(events)
      case Missing(running) => if running then ProgramCalls(lookups[1..], events) else [Release]
      case Poisoned => []
  }

  function Calls(made: seq<Made>): (calls: seq<Call>)
    ensures |calls| == |made|
    ensures forall i :: 0 <= i < |made| ==> calls[i] == made[i].call
  {
    seq(|made|, i requires 0 <= i < |made| => made[i].call)
  }

  /** The calls, made by the claim with its own job and token. */
  function Stamped(calls: seq<Call>, id: JobId, token: nat): (made: seq<Made>)
    ensures |made| == |calls|
    ensures forall i :: 0 <= i < |calls| ==> made[i] == Made(calls[i], id, token)
  {
    seq(|calls|, i requires 0 <= i < |calls| => Made(calls[i], id, token))
  }

  lemma OwnCallsAreStamped(made: seq<Made>, id: JobId, token: nat)
    requires Disciplined(made, id, token)
    ensures made == Stamped(Calls(made), id, token)
  {
    assert forall i :: 0 <= i < |made| ==> made[i] == Made(made[i].call, id, token);
  }

  /** Every call is the claim's own, and all but the last are renewals: at most one
      complete, fail or release, and nothing after it. */
  ghost predicate Disciplined(made: seq<Made>, id: JobId, token: nat)
  {
    && (forall i :: 0 <= i < |made| ==> made[i].job == id && made[i].token == token)
    && (forall i :: 0 <= i < |made| - 1 ==> made[i].call == RenewLease)
  }

  function Last(made: seq<Made>): Option<Call>
  {
    if made == [] then None else Some(made[|made| - 1].call)
  }

  method WaitForProcessor(lookups: seq<Lookup>) returns (found: Result<bool>, waiting: bool)
    ensures waiting <==> forall i :: 0 <= i < |lookups| ==> lookups[i] == Missing(true)
    ensures !waiting ==>
              exists i :: 0 <= i < |lookups| && lookups[i] != Missing(true)
                && (forall j :: 0 <= j < i ==> lookups[j] == Missing(true))
                && (found == Ok(true) <==> lookups[i].Found?) && (found == Ok(false) <==> lookups[i].Missing?)
                && (found.Err? <==> lookups[i].Poisoned?)
  {
    found, waiting := Ok(false), true;
    for i := 0 to |lookups|
      invariant forall j :: 0 <= j < i ==> lookups[j] == Missing(true)
    {
      match lookups[i]
      case Found => return Ok(true), false;
      case Missing(running) =>
        if !running {
          return Ok(false), false;
        }
      case Poisoned => return Err(Internal("queue processor registry lock is poisoned")), false;
    }
  }

  /** No event ends the program. */
  ghost predicate AllGoOn(events: seq<Event>)
  {
    forall e :: e in events ==> GoesOn(e)
  }

  ghost predicate Renewals(made: seq<Made>, id: JobId, token: nat)
  {
    forall i :: 0 <= i < |made| ==> made[i] == Made(RenewLease, id, token)
  }

  lemma OneMoreCall(made: seq<Made>, call: Call, id: JobId, token: nat)
    requires Renewals(made, id, token)
    ensures Disciplined(made, id, token) && Disciplined(made + [Made(call, id, token)], id, token)
    ensures Last(made + [Made(call, id, token)]) == Some(call)
    ensures call == RenewLease ==> Renewals(made + [Made(call, id, token)], id, token)
  {
  }

  /** Run the processor: the calls are those of a claim that goes through its events until
      one ends it. */
  method RunProcessor(id: JobId, token: nat, events: seq<Event>) returns (made: seq<Made>, outcome: Outcome)
    ensures made == Stamped(EventCalls(events), id, token)
    ensures Disciplined(made, id, token)
    ensures outcome == Finished || outcome == StoreRefused || outcome == StillProcessing
    ensures outcome == StillProcessing ==> Renewals(made, id, token)
    ensures outcome == StillProcessing <==> AllGoOn(events)
    ensures outcome == Finished ==> Last(made) != Some(RenewLease)
    ensures outcome != StillProcessing ==>
              Last(made).Some? && (exists k: nat :: EndsAt(events, k, Last(made).value))
  {
    hide EventCalls, Renewals, Disciplined, Calls, Stamped, Last;
    made := [];
    NothingYet(id, token, events);
    for i := 0 to |events|
      invariant Renewals(made, id, token)
      invariant forall k :: 0 <= k < i ==> GoesOn(events[k])
      invariant EventCalls(events) == Calls(made) + EventCalls(events[i..])
    {
      FirstEvent(events, i);
      var call := CallFor(events[i].signal);
      if call.Some? {
        CallsGrow(made, Made(call.value, id, token), EventCalls(events[i + 1..]));
        OneMoreCall(made, call.value, id, token);
        made := made + [Made(call.value, id, token)];
        assert !GoesOn(events[i]) ==> EndsAt(events, i, call.value);
        OwnCallsAreStamped(made, id, token);
        if !events[i].accepted {
          return made, StoreRefused;
        }
        if call.value != RenewLease {
          return made, Finished;
        }
      }
    }
    NoEvents();
    OneMoreCall(made, RenewLease, id, token);
    OwnCallsAreStamped(made, id, token);
    assert events[|events|..] == [] && Calls(made) + [] == Calls(made);
    return made, StillProcessing;
  }

  lemma NothingYet(id: JobId, token: nat, events: seq<Event>)
    ensures Renewals([], id, token) && events[0..] == events
    ensures EventCalls(events) == Calls([]) + EventCalls(events)
  {
  }

  /** The program of one claim: find the processor, and then run it; or release the job when
      the queue is stopped first. */
  method ProcessClaimedJob(id: JobId, token: nat, lookups: seq<Lookup>, releaseAccepted: bool, events: seq<Event>)
    returns (made: seq<Made>, outcome: Outcome)
    ensures made == Stamped(ProgramCalls(lookups, events), id, token)
    ensures Disciplined(made, id, token)
    ensures outcome == Finished || outcome == StoreRefused ==>
              Last(made).Some? && exists k: nat :: EndsAt(events, k, Last(made).value)
    ensures outcome == Finished ==> Last(made) != Some(RenewLease)
    ensures outcome.NotProcessed? ==> Missing(false) in lookups && made == [Made(Release, id, token)]
    ensures outcome == LookupError ==> Poisoned in lookups && made == []
    ensures outcome == StillWaiting ==> made == [] && forall l :: l in lookups ==> l == Missing(true)
    ensures outcome == StillProcessing ==>
              Renewals(made, id, token) && AllGoOn(events)
  {
    hide ProgramCalls, EventCalls, EndsAt, GoesOn;
    made := [];
    var found, waiting := WaitForProcessor(lookups);
    if waiting {
      StillMissing(lookups, events);
      return made, StillWaiting;
    }
    ghost var look :| 0 <= look < |lookups| && lookups[look] != Missing(true)
                      && (forall j :: 0 <= j < look ==> lookups[j] == Missing(true))
                      && (found == Ok(true) <==> lookups[look].Found?)
                      && (found == Ok(false) <==> lookups[look].Missing?)
                      && (found.Err? <==> lookups[look].Poisoned?);
    LookDecides(lookups, look, events);
    if found.Err? {
      return made, LookupError;
    }
    if !found.value {
      made := [Made(Release, id, token)];
      return made, NotProcessed(releaseAccepted);
    }
    made, outcome := RunProcessor(id, token, events);
  }

  lemma CallsGrow(made: seq<Made>, m: Made, rest: seq<Call>)
    ensures Calls(made + [m]) == Calls(made) + [m.call]
    ensures Calls(made) + ([m.call] + rest) == Calls(made + [m]) + rest
  {
  }

  lemma NoEvents()
    ensures EventCalls([]) == []
  {
  }

  lemma FirstEvent(events: seq<Event>, i: nat)
    requires i < |events|
    ensures
      var call := CallFor(events[i].signal);
      EventCalls(events[i..])
      == if call == None then EventCalls(events[i + 1..])
         else [call.value] + if GoesOn(events[i]) then EventCalls(events[i + 1..]) else []
  {
    assert events[i..][0] == events[i] && events[i..][1..] == events[i + 1..];
  }

  lemma {:induction false} StillMissing(lookups: seq<Lookup>, events: seq<Event>)
    requires forall i :: 0 <= i < |lookups| ==> lookups[i] == Missing(true)
    ensures ProgramCalls(lookups, events) == []
  {
    if lookups != [] {
      StillMissing(lookups[1..], events);
    }
  }

  lemma {:induction false} LookDecides(lookups: seq<Lookup>, i: nat, events: seq<Event>)
    requires i < |lookups| && lookups[i] != Missing(true)
    requires forall j :: 0 <= j < i ==> lookups[j] == Missing(true)
    ensures ProgramCalls(lookups, events)
         == match lookups[i] case Found => EventCalls(events) case Missing(_) => [Release] case Poisoned => []
  {
    hide EventCalls;
    if i > 0 {
      assert lookups[0] == Missing(true);
      LookDecides(lookups[1..], i - 1, events);
    }
  }
}
