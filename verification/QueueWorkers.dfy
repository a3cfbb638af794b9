/** Queue workers, the clock, processor outcomes and shutdown as one step machine over a
    token-fencing store. Every claim runs the worker program: wait for a processor, then
    process with heartbeats until it completes, fails, times out or is released. */
module QueueWorkers {
  import opened LeaseStore

  datatype Call = Complete | Fail | Release | RenewLease

  /** Where a claim is in the worker program. `Calling` has a store call under way;
      `Answered` knows the store has acted but not yet what it replied. */
  datatype Phase =
    | AwaitingProcessor
    | Processing
    | Calling(call: Call)
    | Answered(call: Call, accepted: bool)
    | Ended

  datatype Claimed = Claimed(job: JobId, token: nat, phase: Phase)

  /** One store call as the store saw it. */
  datatype Effect = Refused | Applied(after: Job)

  datatype Record = Record(claim: nat, call: Call, job: JobId, token: nat, effect: Effect)

  /** Claims are numbered by the tokens handed out. */
  datatype System = System(
    now: nat, running: bool, lease: nat, store: Store,
    claims: map<nat, Claimed>, nextToken: nat, records: seq<Record>)

  /** What a call that the store accepts comes with: when its caller read the clock, whether
      a failed job is tried again, and whether a job that is over is deleted at once instead
      of kept. */
  datatype Terms = Terms(readAt: nat, retry: bool, discard: bool)

  datatype Step =
    | Wait(duration: nat)
    | Start
    | Shutdown
    | Enqueue(id: JobId)
    | Clear
    | RemoveFinished(id: JobId)
    | Sweep(id: JobId, readAt: nat, giveUp: bool)
    | ClaimNext(id: JobId, readAt: nat)
    | ProcessorFound(c: nat)
    | NoProcessorAtShutdown(c: nat)
    | LookupFails(c: nat)
    | ProcessorReturns(c: nat, ok: bool)
    | TimesOut(c: nat)
    | HeartbeatTicks(c: nat)
    | Notified(c: nat)
    | StoreActs(c: nat, terms: Terms)
    | Reply(c: nat, lost: bool)
    | Crash(c: nat)

  predicate InPhase(s: System, c: nat, p: Phase)
  {
    c in s.claims && s.claims[c].phase == p
  }

  function WithPhase(s: System, c: nat, p: Phase): System
  {
    if c in s.claims then s.(claims := s.claims[c := s.claims[c].(phase := p)]) else s
  }

  predicate Enabled(s: System, step: Step)
  {
    match step
    case Wait(_) => true
    case Start => true
    case Shutdown => true
    case Enqueue(id) => id !in s.store
    case Clear => true
    case RemoveFinished(id) => id in s.store && IsOver(s.store[id])
    case Sweep(id, readAt, _) => readAt <= s.now && Expired(s.store, id, readAt)
    case ClaimNext(id, readAt) => readAt <= s.now && id in s.store && s.store[id].Pending?
    case ProcessorFound(c) => InPhase(s, c, AwaitingProcessor)
    case NoProcessorAtShutdown(c) => InPhase(s, c, AwaitingProcessor) && !s.running
    case LookupFails(c) => InPhase(s, c, AwaitingProcessor)
    case ProcessorReturns(c, _) => InPhase(s, c, Processing)
    case TimesOut(c) => InPhase(s, c, Processing)
    case HeartbeatTicks(c) => InPhase(s, c, Processing)
    case Notified(c) => InPhase(s, c, Processing)
    case StoreActs(c, terms) => terms.readAt <= s.now && c in s.claims && s.claims[c].phase.Calling?
    case Reply(c, _) => c in s.claims && s.claims[c].phase.Answered?
    case Crash(c) => c in s.claims
  }

  /** The job state that an accepted call leads to; a lease runs from the time read. */
  function After(s: System, c: nat, call: Call, terms: Terms): Job
  {
    match call
    case Complete => Completed
    case Fail => if terms.retry then Pending else Failed
    case Release => Pending
    case RenewLease => Active(c, terms.readAt + s.lease)
  }

  function StoreAfter(s: System, c: nat, call: Call, terms: Terms): Store
    requires c in s.claims
  {
    var claim := s.claims[c];
    if call.RenewLease? then Renew(s.store, claim.job, claim.token, terms.readAt + s.lease)
    else Finish(s.store, claim.job, claim.token, After(s, c, call, terms), terms.discard)
  }

  function Apply(s: System, step: Step): System
    requires Enabled(s, step)
  {
    match step
    case Wait(duration) => s.(now := s.now + duration)
    case Start => s.(running := true)
    case Shutdown => s.(running := false)
    case Enqueue(id) => s.(store := s.store[id := Pending])
    case Clear => s.(store := map[])
    case RemoveFinished(id) => s.(store := s.store - {id})
    case Sweep(id, readAt, giveUp) => s.(store := Recover(s.store, id, readAt, giveUp))
    case ClaimNext(id, readAt) =>
      s.(store := Claim(s.store, id, s.nextToken, readAt + s.lease),
         claims := s.claims[s.nextToken := Claimed(id, s.nextToken, AwaitingProcessor)],
         nextToken := s.nextToken + 1)
    case ProcessorFound(c) => WithPhase(s, c, Processing)
    case NoProcessorAtShutdown(c) => WithPhase(s, c, Calling(Release))
    case LookupFails(c) => WithPhase(s, c, Ended)
    case ProcessorReturns(c, ok) => WithPhase(s, c, Calling(if ok then Complete else Fail))
    case TimesOut(c) => WithPhase(s, c, Calling(Fail))
    case HeartbeatTicks(c) => WithPhase(s, c, Calling(RenewLease))
    case Notified(c) => if s.running then s else WithPhase(s, c, Calling(Release))
    case StoreActs(c, terms) =>
      var claim := s.claims[c];
      var call := claim.phase.call;
      var held := Holds(s.store, claim.job, claim.token);
      var effect := if held then Applied(After(s, c, call, terms)) else Refused;
      WithPhase(s.(store := StoreAfter(s, c, call, terms),
                   records := s.records + [Record(c, call, claim.job, claim.token, effect)]),
                c, Answered(call, held))
    case Reply(c, lost) =>
      var phase := s.claims[c].phase;
      WithPhase(s, c, if phase.call.RenewLease? && phase.accepted && !lost then Processing else Ended)
    case Crash(c) => WithPhase(s, c, Ended)
  }

  ghost predicate IsRun(s: System, steps: seq<Step>)
    decreases |steps|
  {
    steps == [] || (Enabled(s, steps[0]) && IsRun(Apply(s, steps[0]), steps[1..]))
  }

  function RunAll(s: System, steps: seq<Step>): System
    requires IsRun(s, steps)
    decreases |steps|
  {
    if steps == [] then s else RunAll(Apply(s, steps[0]), steps[1..])
  }

  function Initial(lease: nat): System
  {
    System(0, false, lease, map[], map[], 0, [])
  }

  // ----- The invariant

  predicate IsTerminal(call: Call)
  {
    !call.RenewLease?
  }

  /** Tokens are handed out once, and an active job is leased to the claim that took it. */
  ghost predicate TokensOk(s: System)
  {
    && (forall c :: c in s.claims ==> c < s.nextToken && s.claims[c].token == c)
    && (forall id :: id in s.store && s.store[id].Active? ==>
          s.store[id].token in s.claims && s.claims[s.store[id].token].job == id)
  }

  /** Every call was made with the claim's own job and token. */
  ghost predicate RecordsOwn(s: System)
  {
    forall i :: 0 <= i < |s.records| ==>
      && s.records[i].claim in s.claims
      && s.records[i].token == s.claims[s.records[i].claim].token
      && s.records[i].job == s.claims[s.records[i].claim].job
  }

  ghost predicate PastTerminal(p: Phase)
  {
    p.Ended? || (p.Answered? && IsTerminal(p.call))
  }

  /** After a complete, fail or release the claim makes no further call of any kind. */
  ghost predicate NothingAfterTerminal(s: System)
  {
    && (forall i :: 0 <= i < |s.records| && IsTerminal(s.records[i].call) && s.records[i].claim in s.claims ==>
          PastTerminal(s.claims[s.records[i].claim].phase))
    && (forall i, j :: 0 <= i < j < |s.records| && IsTerminal(s.records[i].call) ==>
          s.records[j].claim != s.records[i].claim)
  }

  ghost predicate EndsJob(r: Record)
  {
    r.effect.Applied? && IsOver(r.effect.after)
  }

  ghost predicate Inv(s: System)
  {
    TokensOk(s) && RecordsOwn(s) && NothingAfterTerminal(s)
  }

  lemma StoreActsKeeps(s: System, c: nat, terms: Terms)
    requires Inv(s) && Enabled(s, StoreActs(c, terms))
    ensures Inv(Apply(s, StoreActs(c, terms)))
  {
    StoreActsKeepsTokens(s, c, terms);
    StoreActsKeepsRecords(s, c, terms);
  }

  lemma StoreActsKeepsTokens(s: System, c: nat, terms: Terms)
    requires TokensOk(s) && Enabled(s, StoreActs(c, terms))
    ensures TokensOk(Apply(s, StoreActs(c, terms)))
  {
  }

  lemma StoreActsKeepsRecords(s: System, c: nat, terms: Terms)
    requires TokensOk(s) && RecordsOwn(s) && NothingAfterTerminal(s) && Enabled(s, StoreActs(c, terms))
    ensures RecordsOwn(Apply(s, StoreActs(c, terms))) && NothingAfterTerminal(Apply(s, StoreActs(c, terms)))
  {
    var s' := Apply(s, StoreActs(c, terms));
    assert forall i :: 0 <= i < |s.records| ==> s'.records[i] == s.records[i];
  }

  lemma StepKeepsTokens(s: System, step: Step)
    requires TokensOk(s) && Enabled(s, step) && !step.StoreActs?
    ensures TokensOk(Apply(s, step))
  {
  }

  lemma StepKeepsRecords(s: System, step: Step)
    requires TokensOk(s) && RecordsOwn(s) && NothingAfterTerminal(s) && Enabled(s, step) && !step.StoreActs?
    ensures RecordsOwn(Apply(s, step)) && NothingAfterTerminal(Apply(s, step))
  {
    assert Apply(s, step).records == s.records;
  }

  lemma StepKeeps(s: System, step: Step)
    requires Inv(s) && Enabled(s, step)
    ensures Inv(Apply(s, step))
  {
    hide Apply, Enabled, TokensOk, RecordsOwn, NothingAfterTerminal;
    if step.StoreActs? {
      StoreActsKeeps(s, step.c, step.terms);
    } else {
      StepKeepsTokens(s, step);
      StepKeepsRecords(s, step);
    }
  }

  lemma {:induction false} RunKeeps(s: System, steps: seq<Step>)
    requires Inv(s) && IsRun(s, steps)
    ensures Inv(RunAll(s, steps))
    decreases |steps|
  {
    if steps != [] {
      StepKeeps(s, steps[0]);
      RunKeeps(Apply(s, steps[0]), steps[1..]);
    }
  }

  // ----- The theorems

  /** In every interleaving of workers, clock, processor outcomes, lost replies, crashes
      and shutdown: a claim calls the store only with its own job and token; it makes at
      most one of complete, fail and release; and nothing follows that, no renewal either. */
  lemma EveryClaimIsDisciplined(lease: nat, steps: seq<Step>, i: nat, j: nat)
    requires IsRun(Initial(lease), steps)
    requires i < |RunAll(Initial(lease), steps).records|
    ensures
      var s := RunAll(Initial(lease), steps);
      var r := s.records[i];
      && r.claim in s.claims && r.token == r.claim && r.job == s.claims[r.claim].job
      && (i < j < |s.records| && s.records[j].claim == r.claim ==> r.call.RenewLease?)
  {
    RunKeeps(Initial(lease), steps);
  }

  /** The job is not waiting and not being worked on: it is over, or it is not stored. */
  ghost predicate AtRest(s: System, id: JobId)
  {
    id in s.store ==> IsOver(s.store[id])
  }

  /** The records made from the given one on leave the job alone. */
  ghost predicate LeavesAlone(s: System, from: nat, id: JobId)
  {
    forall i :: from <= i < |s.records| && s.records[i].job == id ==> s.records[i].effect.Refused?
  }

  lemma RestStep(s: System, step: Step, id: JobId)
    requires TokensOk(s) && Enabled(s, step) && AtRest(s, id) && step != Enqueue(id)
    ensures AtRest(Apply(s, step), id) && LeavesAlone(Apply(s, step), |s.records|, id)
  {
  }

  /** A job at rest stays at rest, and no call has any effect on it, until it is enqueued. */
  lemma {:induction false} RestLastsUntilEnqueued(s: System, steps: seq<Step>, id: JobId)
    requires Inv(s) && IsRun(s, steps) && AtRest(s, id) && Enqueue(id) !in steps
    ensures AtRest(RunAll(s, steps), id) && LeavesAlone(RunAll(s, steps), |s.records|, id)
    decreases |steps|
  {
    hide Inv, Apply, Enabled, AtRest;
    if steps != [] {
      var s1 := Apply(s, steps[0]);
      InvTokens(s);
      StepKeeps(s, steps[0]);
      RestStep(s, steps[0], id);
      StepRecordsGrow(s, steps[0]);
      RestLastsUntilEnqueued(s1, steps[1..], id);
      RecordsGrow(s1, steps[1..]);
    }
  }

  /** Once a job was completed or failed for good, no later call changes it, nor ends it a
      second time, until a job is enqueued under its id again. */
  lemma JobEndsAtMostOnce(lease: nat, before: seq<Step>, c: nat, terms: Terms, later: seq<Step>)
    requires IsRun(Initial(lease), before) && Enabled(RunAll(Initial(lease), before), StoreActs(c, terms))
    requires
      var s := RunAll(Initial(lease), before);
      var ended := Apply(s, StoreActs(c, terms));
      var r := ended.records[|s.records|];
      EndsJob(r) && IsRun(ended, later) && Enqueue(r.job) !in later
    ensures
      var s := RunAll(Initial(lease), before);
      var ended := Apply(s, StoreActs(c, terms));
      var id := ended.records[|s.records|].job;
      AtRest(RunAll(ended, later), id) && LeavesAlone(RunAll(ended, later), |s.records| + 1, id)
  {
    var s := RunAll(Initial(lease), before);
    RunKeeps(Initial(lease), before);
    StepKeeps(s, StoreActs(c, terms));
    RestLastsUntilEnqueued(Apply(s, StoreActs(c, terms)), later, s.claims[c].job);
  }

  /** The proviso is needed: whenever an id is free, a job can be enqueued under it and
      ended by a new claim, whatever happened to jobs of that id before. */
  lemma FreeIdCanEndAgain(s: System, id: JobId) returns (steps: seq<Step>)
    requires Inv(s) && id !in s.store
    ensures IsRun(s, steps) && Enqueue(id) in steps
    ensures
      var t := RunAll(s, steps);
      |t.records| == |s.records| + 1 && t.records[|s.records|].job == id && EndsJob(t.records[|s.records|])
  {
    hide Inv, IsRun, RunAll;
    var c := s.nextToken;
    var s1 := Apply(s, Enqueue(id));
    var s2 := Apply(s1, ClaimNext(id, s.now));
    assert InPhase(s2, c, AwaitingProcessor) && Holds(s2.store, id, c) && s2.claims[c].job == id;
    var rest := ProcessedWell(s2, c);
    steps := FirstStep(s1, ClaimNext(id, s.now), rest);
    steps := FirstStep(s, Enqueue(id), steps);
  }

  lemma ProcessedWell(s: System, c: nat) returns (steps: seq<Step>)
    requires InPhase(s, c, AwaitingProcessor) && Holds(s.store, s.claims[c].job, c) && s.claims[c].token == c
    ensures IsRun(s, steps)
    ensures
      var t := RunAll(s, steps);
      |t.records| == |s.records| + 1 && t.records[|s.records|].job == s.claims[c].job && EndsJob(t.records[|s.records|])
  {
    hide IsRun, RunAll;
    var found, returned, acts := ProcessorFound(c), ProcessorReturns(c, true), StoreActs(c, Terms(s.now, false, false));
    var s1 := Apply(s, found);
    var s2 := Apply(s1, returned);
    NoSteps(Apply(s2, acts));
    steps := FirstStep(s2, acts, []);
    steps := FirstStep(s1, returned, steps);
    steps := FirstStep(s, found, steps);
  }

  lemma NoSteps(s: System)
    ensures IsRun(s, []) && RunAll(s, []) == s
  {
  }

  lemma FirstStep(s: System, step: Step, steps: seq<Step>) returns (all: seq<Step>)
    requires Enabled(s, step) && IsRun(Apply(s, step), steps)
    ensures all == [step] + steps && IsRun(s, all) && RunAll(s, all) == RunAll(Apply(s, step), steps)
  {
    hide Enabled, Apply;
    all := [step] + steps;
    assert all[0] == step && all[1..] == steps;
  }

  /** The only ways in which a stored job changes or goes away, with fencing: clearing the
      queue; a claim of a pending job; a sweep of an expired lease; the removal of a job that
      is over; or a call by the very claim that holds the lease at that moment. */
  lemma OnlyTheHolderChangesJobs(lease: nat, steps: seq<Step>, step: Step, id: JobId)
    requires IsRun(Initial(lease), steps) && Enabled(RunAll(Initial(lease), steps), step)
    requires
      var s := RunAll(Initial(lease), steps);
      id in s.store && (id in Apply(s, step).store ==> Apply(s, step).store[id] != s.store[id])
    ensures
      var s := RunAll(Initial(lease), steps);
      || step == Clear
      || (step.ClaimNext? && step.id == id && s.store[id].Pending?)
      || (step == RemoveFinished(id) && IsOver(s.store[id]))
      || (step.Sweep? && step.id == id && s.store[id].Active? && s.store[id].expires <= s.now)
      || (&& step.StoreActs? && Holds(s.store, id, step.c)
          && s.claims[step.c].job == id && s.claims[step.c].phase.Calling?)
  {
    RunKeeps(Initial(lease), steps);
  }

  /** The claim exists and does not hold its job. */
  ghost predicate LostLease(s: System, c: nat)
  {
    c in s.claims && !Holds(s.store, s.claims[c].job, c)
  }

  /** The calls that the claim made from the given record on were refused. */
  ghost predicate RefusedFrom(s: System, from: nat, c: nat)
  {
    forall i :: from <= i < |s.records| && s.records[i].claim == c ==> s.records[i].effect.Refused?
  }

  lemma StaleStep(s: System, step: Step, c: nat)
    requires TokensOk(s) && Enabled(s, step) && LostLease(s, c)
    ensures LostLease(Apply(s, step), c) && RefusedFrom(Apply(s, step), |s.records|, c)
    ensures Apply(s, step).claims[c].job == s.claims[c].job
    ensures step.StoreActs? && step.c == c ==> Apply(s, step).store == s.store
  {
  }

  /** A claim that has lost its lease, by whatever way, never regains it: in every
      continuation all its further calls are refused. */
  lemma {:induction false} StaleClaimIsFencedOff(s: System, steps: seq<Step>, c: nat)
    requires Inv(s) && IsRun(s, steps) && LostLease(s, c)
    ensures LostLease(RunAll(s, steps), c) && RefusedFrom(RunAll(s, steps), |s.records|, c)
    decreases |steps|
  {
    hide Inv, Apply, Enabled, LostLease;
    if steps != [] {
      var s1 := Apply(s, steps[0]);
      InvTokens(s);
      StepKeeps(s, steps[0]);
      StaleStep(s, steps[0], c);
      StepRecordsGrow(s, steps[0]);
      StaleClaimIsFencedOff(s1, steps[1..], c);
      RecordsGrow(s1, steps[1..]);
    }
  }

  // ----- Heartbeats keep the lease

  /** The step in which claim `c` renews its lease. */
  predicate IsRenewal(s: System, step: Step, c: nat)
  {
    step.StoreActs? && step.c == c && c in s.claims && s.claims[c].phase == Calling(RenewLease)
  }

  /** Three heartbeats after the clock was read for a renewal, the next one is due. */
  function NextDue(s: System, step: Step, c: nat, due: nat): nat
  {
    if IsRenewal(s, step, c) then step.terms.readAt + 3 * HeartbeatInterval(s.lease) else due
  }

  /** No step happens at or after the due time of the claim's next renewal. The queue is not
      cleared meanwhile. */
  ghost predicate KeepsUp(s: System, steps: seq<Step>, c: nat, due: nat)
    requires IsRun(s, steps)
    decreases |steps|
  {
    steps == [] ||
    (&& s.now < due && steps[0] != Clear
     && KeepsUp(Apply(s, steps[0]), steps[1..], c,
                NextDue(s, steps[0], c, due)))
  }

  ghost predicate MadeTerminalCall(s: System, c: nat, from: nat)
  {
    exists i :: from <= i < |s.records| && s.records[i].claim == c && IsTerminal(s.records[i].call)
  }

  lemma RecordsGrow(s: System, steps: seq<Step>)
    requires IsRun(s, steps)
    ensures s.records <= RunAll(s, steps).records
    decreases |steps|
  {
    if steps != [] {
      RecordsGrow(Apply(s, steps[0]), steps[1..]);
    }
  }

  lemma TimelyStepKeepsLease(s: System, step: Step, c: nat, due: nat)
    requires TokensOk(s) && Enabled(s, step) && c in s.claims && s.lease >= 3
    requires Holds(s.store, s.claims[c].job, c) && s.now < due <= s.store[s.claims[c].job].expires && step != Clear
    ensures
      var s' := Apply(s, step);
      var due' := NextDue(s, step, c, due);
      && c in s'.claims && s'.claims[c].job == s.claims[c].job && s'.lease == s.lease
      && (|| MadeTerminalCall(s', c, |s.records|)
          || (Holds(s'.store, s'.claims[c].job, c) && due' <= s'.store[s'.claims[c].job].expires))
  {
    ThreeHeartbeatsPerLease(s.lease);
    if step.StoreActs? && step.c == c && !IsRenewal(s, step, c) {
      assert Apply(s, step).records[|s.records|].claim == c;
    }
  }

  /** A worker that enters processing with a live lease of at least 3 ns, gets its first
      renewal in before that lease expires and each later one less than three heartbeats
      after the clock was read for the one before, keeps its lease until it completes, fails or releases the job. */
  lemma {:induction false} TimelyHeartbeatsKeepLease(s: System, steps: seq<Step>, c: nat, due: nat)
    requires Inv(s) && IsRun(s, steps) && c in s.claims && s.lease >= 3
    requires Holds(s.store, s.claims[c].job, c) && due <= s.store[s.claims[c].job].expires
    requires KeepsUp(s, steps, c, due)
    ensures Holds(RunAll(s, steps).store, s.claims[c].job, c) || MadeTerminalCall(RunAll(s, steps), c, |s.records|)
    decreases |steps|
  {
    hide Inv, Apply, Enabled;
    if steps != [] {
      var s1 := Apply(s, steps[0]);
      InvTokens(s);
      StepKeeps(s, steps[0]);
      TimelyStepKeepsLease(s, steps[0], c, due);
      RecordsGrow(s1, steps[1..]);
      StepRecordsGrow(s, steps[0]);
      if !MadeTerminalCall(s1, c, |s.records|) {
        TimelyHeartbeatsKeepLease(s1, steps[1..], c,
          NextDue(s, steps[0], c, due));
      }
    }
  }

  /** A claim holds its job, alone, until the lease has run from the time its clock was read. */
  lemma ClaimGivesLease(s: System, id: JobId, readAt: nat)
    requires TokensOk(s) && Enabled(s, ClaimNext(id, readAt))
    ensures
      var t, c := Apply(s, ClaimNext(id, readAt)), s.nextToken;
      && c !in s.claims && t.claims == s.claims[c := Claimed(id, c, AwaitingProcessor)]
      && t.store == s.store[id := Active(c, readAt + s.lease)]
      && Holds(t.store, id, c) && t.lease == s.lease && t.records == s.records && t.now == s.now
  {
  }

  /** An accepted renewal lets the lease run anew from the time read for it. */
  lemma RenewalExtendsLease(s: System, c: nat, terms: Terms)
    requires TokensOk(s) && Enabled(s, StoreActs(c, terms)) && s.claims[c].phase == Calling(RenewLease)
    requires Holds(s.store, s.claims[c].job, c)
    ensures
      var t := Apply(s, StoreActs(c, terms));
      t.store == s.store[s.claims[c].job := Active(c, terms.readAt + s.lease)]
  {
  }

  /** What an accepted call makes of the job: a completed one is completed, a failed one is
      pending again when it is to be retried and otherwise failed, and a released one is
      pending; a completed or failed one may be deleted at once. */
  lemma AcceptedCallEffect(s: System, c: nat, terms: Terms)
    requires TokensOk(s) && Enabled(s, StoreActs(c, terms)) && Holds(s.store, s.claims[c].job, c)
    ensures
      var id, call, t := s.claims[c].job, s.claims[c].phase.call, Apply(s, StoreActs(c, terms)).store;
      && (call == Complete ==> t == if terms.discard then s.store - {id} else s.store[id := Completed])
      && (call == Fail && terms.retry ==> t == s.store[id := Pending])
      && (call == Fail && !terms.retry ==> t == if terms.discard then s.store - {id} else s.store[id := Failed])
      && (call == Release ==> t == s.store[id := Pending])
  {
  }

  /** A lease is not swept before it is over, and is swept when it is. */
  lemma SweptIffOver(s: System, id: JobId, readAt: nat, giveUp: bool)
    requires id in s.store && s.store[id].Active? && readAt <= s.now
    ensures Enabled(s, Sweep(id, readAt, giveUp)) <==> s.store[id].expires <= readAt
    ensures Enabled(s, Sweep(id, readAt, giveUp)) ==>
              Apply(s, Sweep(id, readAt, giveUp)).store == s.store[id := if giveUp then Failed else Pending]
  {
  }

  /** End to end: a worker whose first renewal lands less than three heartbeats after the
      clock was read for its claim, and each later one less than three after it was read for
      the one before, keeps its lease from the claim until it completes, fails or releases
      the job. */
  lemma ClaimWithTimelyHeartbeatsKeepsLease(s: System, id: JobId, readAt: nat, steps: seq<Step>)
    requires Inv(s) && Enabled(s, ClaimNext(id, readAt)) && s.lease >= 3
    requires IsRun(Apply(s, ClaimNext(id, readAt)), steps)
    requires
      KeepsUp(Apply(s, ClaimNext(id, readAt)), steps, s.nextToken, readAt + 3 * HeartbeatInterval(s.lease))
    ensures
      var t := RunAll(Apply(s, ClaimNext(id, readAt)), steps);
      Holds(t.store, id, s.nextToken) || MadeTerminalCall(t, s.nextToken, |s.records|)
  {
    hide Inv, Apply, Enabled;
    InvTokens(s);
    ClaimGivesLease(s, id, readAt);
    StepKeeps(s, ClaimNext(id, readAt));
    ThreeHeartbeatsPerLease(s.lease);
    TimelyHeartbeatsKeepLease(
      Apply(s, ClaimNext(id, readAt)), steps, s.nextToken, readAt + 3 * HeartbeatInterval(s.lease));
  }

  lemma InvTokens(s: System)
    requires Inv(s)
    ensures TokensOk(s)
  {
  }

  lemma StepRecordsGrow(s: System, step: Step)
    requires Enabled(s, step)
    ensures s.records <= Apply(s, step).records
  {
  }
}
