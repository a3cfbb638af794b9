/** The in-process scheduler: registered jobs, the handles of their running loops, and
    whether the scheduler is started. */
module Scheduler {
  import opened Results
  import opened Text

  /** `parses` stands for whether the cron library accepts the expression. */
  datatype Trigger = Timeout(delay: nat) | Interval(delay: nat) | Cron(expression: string, parses: bool)

  datatype Job = Job(name: string, trigger: Trigger)

  predicate ValidJob(job: Job)
  {
    && !IsBlank(job.name)
    && match job.trigger
       case Timeout(delay) => delay > 0
       case Interval(delay) => delay > 0
       case Cron(expression, parses) => !IsBlank(expression) && parses
  }

  type ModuleRef = nat

  /** A spawned loop: which job it runs and with which provider container. */
  datatype Handle = Handle(job: Job, moduleRef: ModuleRef)

  datatype State = State(jobs: map<string, Job>, handles: map<string, Handle>, running: Option<ModuleRef>)

  /** `runtimeUp` says whether the call is made inside a running async runtime. */
  datatype Command =
    | Schedule(job: Job, runtimeUp: bool)
    | Remove(name: string)
    | Clear
    | Start(moduleRef: ModuleRef, runtimeUp: bool)
    | Shutdown

  datatype Reply = Done | Removed(found: bool) | Refused(reason: string)

  function SpawnAll(jobs: map<string, Job>, handles: map<string, Handle>, moduleRef: ModuleRef): map<string, Handle>
  {
    map n | n in jobs.Keys + handles.Keys :: if n in handles then handles[n] else Handle(jobs[n], moduleRef)
  }

  function Apply(s: State, c: Command): (State, Reply)
  {
    match c
    case Schedule(job, runtimeUp) =>
      if !ValidJob(job) then (s, Refused("invalid job"))
      else if job.name in s.jobs then (s, Refused("scheduled job is already registered"))
      else if s.running.Some? && !runtimeUp then (s, Refused("no runtime"))
      else
        var jobs := s.jobs[job.name := job];
        if s.running.Some? && job.name !in s.handles then
          (s.(jobs := jobs, handles := s.handles[job.name := Handle(job, s.running.value)]), Done)
        else (s.(jobs := jobs), Done)
    case Remove(name) => (s.(jobs := s.jobs - {name}, handles := s.handles - {name}), Removed(name in s.jobs))
    case Clear => (s.(jobs := map[], handles := map[]), Done)
    case Start(moduleRef, runtimeUp) =>
      if !runtimeUp then (s, Refused("no runtime"))
      else if s.running.Some? then (s, Done)
      else (s.(running := Some(moduleRef), handles := SpawnAll(s.jobs, s.handles, moduleRef)), Done)
    case Shutdown => (s.(running := None, handles := map[]), Done)
  }

  function ApplyAll(s: State, commands: seq<Command>): State
    decreases |commands|
  {
    if commands == [] then s else ApplyAll(Apply(s, commands[0]).0, commands[1..])
  }

  const IDLE := State(map[], map[], None)

  /** A running scheduler has exactly one loop per registered job, running that very job
      with the container it was started with; a stopped one has none. Jobs are valid and
      stored under their names. */
  ghost predicate Consistent(s: State)
  {
    && (s.running.Some? ==>
          && s.handles.Keys == s.jobs.Keys
          && forall n :: n in s.jobs ==> s.handles[n] == Handle(s.jobs[n], s.running.value))
    && (s.running.None? ==> s.handles == map[])
    && (forall n :: n in s.jobs ==> s.jobs[n].name == n && ValidJob(s.jobs[n]))
  }

  lemma CommandKeeps(s: State, c: Command)
    requires Consistent(s)
    ensures Consistent(Apply(s, c).0)
  {
    hide ValidJob;
  }

  /** What a call to schedule a job answers and does: it is refused for an invalid job, for a
      name that is registered, and without a runtime while the scheduler runs, and then
      changes nothing; otherwise the job is registered and, while the scheduler runs, its loop
      is spawned. */
  lemma ScheduleReplies(s: State, job: Job, runtimeUp: bool)
    requires Consistent(s)
    ensures
      var (t, reply) := Apply(s, Schedule(job, runtimeUp));
      var fits := ValidJob(job) && job.name !in s.jobs && (s.running.None? || runtimeUp);
      && (reply == Done <==> fits) && (reply.Refused? <==> !fits)
      && (!fits ==> t == s)
      && (fits ==>
            && t.jobs == s.jobs[job.name := job] && t.running == s.running
            && t.handles == if s.running.Some? then s.handles[job.name := Handle(job, s.running.value)] else s.handles)
  {
  }

  /** The other calls: a removal says whether the job was registered, and takes it and its
      loop; a clearing takes all jobs and loops; a start is refused without a runtime and
      otherwise has the scheduler run, with a loop for every job; a shutdown stops it and
      takes all loops, but no job. */
  lemma OtherReplies(s: State, name: string, moduleRef: ModuleRef, runtimeUp: bool)
    requires Consistent(s)
    ensures Apply(s, Remove(name)) == (State(s.jobs - {name}, s.handles - {name}, s.running), Removed(name in s.jobs))
    ensures Apply(s, Clear) == (State(map[], map[], s.running), Done)
    ensures
      var (t, reply) := Apply(s, Start(moduleRef, runtimeUp));
      && (reply == Done <==> runtimeUp) && (reply.Refused? <==> !runtimeUp)
      && (!runtimeUp || s.running.Some? ==> t == s)
      && (runtimeUp && s.running.None? ==>
            && t.jobs == s.jobs && t.running == Some(moduleRef) && t.handles.Keys == s.jobs.Keys
            && forall n :: n in s.jobs ==> t.handles[n] == Handle(s.jobs[n], moduleRef))
    ensures Apply(s, Shutdown) == (State(s.jobs, map[], None), Done)
  {
  }

  /** Which jobs are valid: a name that is not blank, and a delay that is not zero or a cron
      expression that is not blank and that the cron library accepts. */
  lemma ValidJobs(name: string, delay: nat, expression: string, parses: bool)
    ensures ValidJob(Job(name, Timeout(delay))) <==> !IsBlank(name) && delay != 0
    ensures ValidJob(Job(name, Interval(delay))) <==> !IsBlank(name) && delay != 0
    ensures ValidJob(Job(name, Cron(expression, parses))) <==> !IsBlank(name) && !IsBlank(expression) && parses
  {
  }

  /** Every sequence of calls, whatever fails in it, leaves the scheduler consistent. */
  lemma {:induction false} AlwaysConsistent(s: State, commands: seq<Command>)
    requires Consistent(s)
    ensures Consistent(ApplyAll(s, commands))
    decreases |commands|
  {
    if commands != [] {
      CommandKeeps(s, commands[0]);
      AlwaysConsistent(Apply(s, commands[0]).0, commands[1..]);
    }
  }

  predicate Unregisters(c: Command, name: string)
  {
    c == Clear || c == Remove(name)
  }

  /** A registered job is never replaced: until it is removed or everything is cleared,
      its name keeps denoting the job that was scheduled first. */
  lemma {:induction false} JobIsNeverReplaced(s: State, commands: seq<Command>, name: string)
    requires name in s.jobs && forall c :: c in commands ==> !Unregisters(c, name)
    ensures name in ApplyAll(s, commands).jobs && ApplyAll(s, commands).jobs[name] == s.jobs[name]
    decreases |commands|
  {
    if commands != [] {
      assert !Unregisters(commands[0], name);
      JobIsNeverReplaced(Apply(s, commands[0]).0, commands[1..], name);
    }
  }

  /** Starting a started scheduler changes nothing, whatever container it is given. */
  lemma StartIsIdempotent(s: State, a: ModuleRef, b: ModuleRef, up: bool)
    requires Consistent(s)
    ensures Apply(Apply(s, Start(a, true)).0, Start(b, up)).0 == Apply(s, Start(a, true)).0
  {
  }

  /** The scheduler with its fields updated in place, one call at a time. */
  class InProcessScheduler {
    var jobs: map<string, Job>
    var handles: map<string, Handle>
    var running: Option<ModuleRef>

    constructor ()
      ensures Snapshot() == IDLE
    {
      jobs, handles, running := map[], map[], None;
    }

    ghost function Snapshot(): State
      reads this
    {
      State(jobs, handles, running)
    }

    method SpawnJob(job: Job, moduleRef: ModuleRef, runtimeUp: bool) returns (ok: bool)
      modifies this`handles
      ensures ok == runtimeUp
      ensures handles
           == if ok && job.name !in old(handles) then old(handles)[job.name := Handle(job, moduleRef)]
              else old(handles)
    {
      if !runtimeUp {
        return false;
      }
      if job.name in handles {
        return true;
      }
      handles := handles[job.name := Handle(job, moduleRef)];
      return true;
    }

    method Schedule(job: Job, runtimeUp: bool) returns (r: Reply)
      modifies this
      ensures (Snapshot(), r) == Apply(old(Snapshot()), Command.Schedule(job, runtimeUp))
    {
      if !ValidJob(job) {
        return Refused("invalid job");
      }
      if job.name in jobs {
        return Refused("scheduled job is already registered");
      }
      ghost var before := jobs;
      jobs := jobs[job.name := job];
      if running.Some? {
        var spawned := SpawnJob(job, running.value, runtimeUp);
        if !spawned {
          jobs := jobs - {job.name};
          assert jobs == before;
          return Refused("no runtime");
        }
      }
      return Done;
    }

    method Remove(name: string) returns (r: Reply)
      modifies this
      ensures (Snapshot(), r) == Apply(old(Snapshot()), Command.Remove(name))
    {
      r := Removed(name in jobs);
      jobs := jobs - {name};
      handles := handles - {name};
    }

    method Clear()
      modifies this
      ensures Snapshot() == Apply(old(Snapshot()), Command.Clear).0
    {
      jobs := map[];
      handles := map[];
    }

    /** Mark the scheduler as started, then spawn the jobs registered by then. */
    method Start(moduleRef: ModuleRef, runtimeUp: bool) returns (r: Reply)
      requires forall n :: n in jobs ==> jobs[n].name == n
      modifies this
      ensures (Snapshot(), r) == Apply(old(Snapshot()), Command.Start(moduleRef, runtimeUp))
    {
      if !runtimeUp {
        return Refused("no runtime");
      }
      if running.Some? {
        return Done;
      }
      running := Some(moduleRef);
      var todo := jobs.Keys;
      while todo != {}
        invariant todo <= jobs.Keys && jobs == old(jobs) && running == Some(moduleRef)
        invariant handles == SpawnAll(map n | n in jobs.Keys - todo :: jobs[n], old(handles), moduleRef)
        decreases todo
      {
        var name :| name in todo;
        var spawned := SpawnJob(jobs[name], moduleRef, true);
        todo := todo - {name};
      }
      assert (map n | n in jobs.Keys - todo :: jobs[n]) == jobs;
      return Done;
    }

    method Shutdown()
      modifies this
      ensures Snapshot() == Apply(old(Snapshot()), Command.Shutdown).0
    {
      running := None;
      handles := map[];
    }
  }

  // ----- Overlapping calls

  /** The critical sections of `schedule` for a valid, new job: insert it; read whether the
      scheduler is running; then, when it was, spawn the job or take it out again. */
  function InsertJob(s: State, job: Job): State
  {
    s.(jobs := s.jobs[job.name := job])
  }

  function SpawnIfAbsent(s: State, job: Job, seen: ModuleRef): State
  {
    if job.name in s.handles then s else s.(handles := s.handles[job.name := Handle(job, seen)])
  }

  function RollBack(s: State, job: Job): State
  {
    s.(jobs := s.jobs - {job.name})
  }

  /** The whole call, with other calls between the insertion and the reading, and between
      the reading and the last section. */
  function Interrupted(s: State, job: Job, early: seq<Command>, late: seq<Command>, runtimeUp: bool): State
  {
    var read := ApplyAll(InsertJob(s, job), early);
    var t := ApplyAll(read, late);
    match read.running
    case None => t
    case Some(seen) => if runtimeUp then SpawnIfAbsent(t, job, seen) else RollBack(t, job)
  }

  /** Without interruption the sections make up one call, roll-back included. */
  lemma SectionsMakeUpSchedule(s: State, job: Job, runtimeUp: bool)
    requires Consistent(s) && ValidJob(job) && job.name !in s.jobs
    ensures Interrupted(s, job, [], [], runtimeUp) == Apply(s, Schedule(job, runtimeUp)).0
  {
    assert InsertJob(s, job).jobs - {job.name} == s.jobs;
  }

  /** Consistent, except that the loop of one job may be missing. */
  ghost predicate ConsistentBut(s: State, name: string)
  {
    && (s.running.Some? ==>
          && s.handles.Keys <= s.jobs.Keys <= s.handles.Keys + {name}
          && forall n :: n in s.handles ==> s.handles[n] == Handle(s.jobs[n], s.running.value))
    && (s.running.None? ==> s.handles == map[])
    && (forall n :: n in s.jobs ==> s.jobs[n].name == n && ValidJob(s.jobs[n]))
  }

  lemma CommandKeepsBut(s: State, c: Command, name: string)
    requires ConsistentBut(s, name)
    ensures ConsistentBut(Apply(s, c).0, name)
  {
    hide ValidJob;
  }

  lemma {:induction false} CommandsKeepBut(s: State, commands: seq<Command>, name: string)
    requires ConsistentBut(s, name)
    ensures ConsistentBut(ApplyAll(s, commands), name)
    decreases |commands|
  {
    hide ConsistentBut, Apply;
    if commands != [] {
      CommandKeepsBut(s, commands[0], name);
      CommandsKeepBut(Apply(s, commands[0]).0, commands[1..], name);
    }
  }

  /** Whether the last section finds things as they have to be. */
  ghost predicate FitsIn(t: State, job: Job, seen: ModuleRef, runtimeUp: bool)
  {
    if runtimeUp then
      job.name in t.handles || (t.running == Some(seen) && job.name in t.jobs && t.jobs[job.name] == job)
    else job.name !in t.handles
  }

  lemma SpawnFitsIff(t: State, job: Job, seen: ModuleRef)
    requires ConsistentBut(t, job.name) && ValidJob(job)
    ensures Consistent(SpawnIfAbsent(t, job, seen)) <==> FitsIn(t, job, seen, true)
  {
    hide ValidJob;
    if job.name !in t.handles {
      assert SpawnIfAbsent(t, job, seen).handles[job.name] == Handle(job, seen);
    }
  }

  lemma RollBackFitsIff(t: State, job: Job)
    requires ConsistentBut(t, job.name)
    ensures Consistent(RollBack(t, job)) <==> job.name !in t.handles
  {
    hide ValidJob;
  }

  /** The exact condition, for every other call that comes in between: a schedule that
      finds the scheduler stopped leaves it consistent. One that finds it running does so
      exactly when, at its last section, the job has a loop already or is still registered
      and the scheduler runs with the same container; and, when it has to take the job out
      again, exactly when the job has got no loop meanwhile. */
  lemma InterruptedIsConsistentIff(s: State, job: Job, early: seq<Command>, late: seq<Command>, runtimeUp: bool)
    requires Consistent(s) && ValidJob(job) && job.name !in s.jobs
    ensures
      var read := ApplyAll(InsertJob(s, job), early);
      Consistent(Interrupted(s, job, early, late, runtimeUp))
      <==> read.running.None? || FitsIn(ApplyAll(read, late), job, read.running.value, runtimeUp)
  {
    hide ApplyAll, ValidJob;
    var read := ApplyAll(InsertJob(s, job), early);
    assert ConsistentBut(InsertJob(s, job), job.name);
    CommandsKeepBut(InsertJob(s, job), early, job.name);
    CommandsKeepBut(read, late, job.name);
    var t := ApplyAll(read, late);
    match read.running
    case None =>
      StoppedIsConsistent(read, job.name);
      AlwaysConsistent(read, late);
    case Some(seen) =>
      SpawnFitsIff(t, job, seen);
      RollBackFitsIff(t, job);
  }

  lemma StoppedIsConsistent(s: State, name: string)
    requires ConsistentBut(s, name) && s.running.None?
    ensures Consistent(s)
  {
  }

  /** So a shutdown in the gap leaves a loop behind in a stopped scheduler, and a removal
      leaves one without its job. */
  lemma InterruptionLeavesLoop(s: State, job: Job)
    requires Consistent(s) && s.running.Some? && ValidJob(job) && job.name !in s.jobs
    ensures
      var stopped := Interrupted(s, job, [], [Shutdown], true);
      var removed := Interrupted(s, job, [], [Remove(job.name)], true);
      && stopped.running.None? && job.name in stopped.handles
      && job.name !in removed.jobs && job.name in removed.handles
      && !Consistent(stopped) && !Consistent(removed)
  {
    hide ValidJob;
    OneCommand(InsertJob(s, job), Shutdown);
    OneCommand(InsertJob(s, job), Remove(job.name));
  }

  lemma OneCommand(s: State, c: Command)
    ensures ApplyAll(s, [c]) == Apply(s, c).0 && ApplyAll(s, []) == s
  {
    hide Apply;
    assert [c][1..] == [];
  }

  /** What the roll-back takes away is whatever job has the name by then: the jobs of the
      interrupted call are those before its last section, except that a roll-back removes
      its name. */
  lemma InterruptedKeepsJobsIff(
    s: State, job: Job, early: seq<Command>, late: seq<Command>, runtimeUp: bool, name: string)
    requires name in ApplyAll(ApplyAll(InsertJob(s, job), early), late).jobs
    ensures
      var read := ApplyAll(InsertJob(s, job), early);
      var t := ApplyAll(read, late);
      var jobs := Interrupted(s, job, early, late, runtimeUp).jobs;
      name in jobs && jobs[name] == t.jobs[name] <==> name != job.name || read.running.None? || runtimeUp
  {
    hide ApplyAll;
  }

  /** So a job of another caller can be lost, and the scheduler be consistent all the same. */
  lemma RollBackCanTakeAnother(s: State, job: Job, other: Job)
    requires Consistent(s) && s.running.Some? && job.name !in s.jobs
    requires ValidJob(job) && ValidJob(other) && other.name == job.name
    ensures
      var late := [Shutdown, Remove(job.name), Schedule(other, true)];
      && Consistent(Interrupted(s, job, [], late, false))
      && ApplyAll(InsertJob(s, job), late).jobs == s.jobs[job.name := other]
      && Interrupted(s, job, [], late, false).jobs == s.jobs
  {
    hide ValidJob;
    var s0 := InsertJob(s, job);
    var s1 := Apply(s0, Shutdown).0;
    var s2 := Apply(s1, Remove(job.name)).0;
    var s3 := Apply(s2, Schedule(other, true)).0;
    assert s2.jobs == s.jobs;
    assert s3 == State(s.jobs[job.name := other], map[], None);
    ThreeCommands(s0, Shutdown, Remove(job.name), Schedule(other, true));
    OneCommand(s0, Shutdown);
    assert s.jobs[job.name := other] - {job.name} == s.jobs;
  }

  lemma ThreeCommands(s: State, a: Command, b: Command, c: Command)
    ensures ApplyAll(s, [a, b, c]) == Apply(Apply(Apply(s, a).0, b).0, c).0
  {
    hide Apply;
    assert [a, b, c][1..] == [b, c] && [b, c][1..] == [c];
    OneCommand(Apply(Apply(s, a).0, b).0, c);
  }

  // ----- All calls by their sections

  /** The lock sections of all calls. */
  datatype Section =
    | Insert(job: Job)
    | Spawn(job: Job, seen: ModuleRef)
    | TakeOut(name: string)
    | DropJob(name: string)
    | DropHandle(name: string)
    | DropJobs
    | DropHandles
    | Mark(moduleRef: ModuleRef)
    | Unmark

  function ApplySection(s: State, section: Section): State
  {
    match section
    case Insert(job) => if job.name in s.jobs then s else InsertJob(s, job)
    case Spawn(job, seen) => SpawnIfAbsent(s, job, seen)
    case TakeOut(name) => s.(jobs := s.jobs - {name})
    case DropJob(name) => s.(jobs := s.jobs - {name})
    case DropHandle(name) => s.(handles := s.handles - {name})
    case DropJobs => s.(jobs := map[])
    case DropHandles => s.(handles := map[])
    case Mark(moduleRef) => if s.running.Some? then s else s.(running := Some(moduleRef))
    case Unmark => s.(running := None)
  }

  function ApplySections(s: State, sections: seq<Section>): State
    decreases |sections|
  {
    if sections == [] then s else ApplySections(ApplySection(s, sections[0]), sections[1..])
  }

  function Spawns(jobs: seq<Job>, seen: ModuleRef): seq<Section>
  {
    if jobs == [] then [] else [Spawn(jobs[0], seen)] + Spawns(jobs[1..], seen)
  }

  /** Without interruption, the sections of removing, clearing and shutting down make up one
      call each. */
  lemma SectionsMakeUpCalls(s: State, name: string)
    ensures ApplySections(s, [DropJob(name), DropHandle(name)]) == Apply(s, Remove(name)).0
    ensures ApplySections(s, [DropJobs, DropHandles]) == Apply(s, Clear).0
    ensures ApplySections(s, [Unmark, DropHandles]) == Apply(s, Shutdown).0
  {
    TwoSections(s, DropJob(name), DropHandle(name));
    TwoSections(s, DropJobs, DropHandles);
    TwoSections(s, Unmark, DropHandles);
  }

  lemma TwoSections(s: State, a: Section, b: Section)
    ensures ApplySections(s, [a, b]) == ApplySection(ApplySection(s, a), b)
  {
    hide ApplySection;
    assert [a, b][1..] == [b] && [b][1..] == [];
    var s1 := ApplySection(s, a);
    assert ApplySections(s1, [b]) == ApplySections(ApplySection(s1, b), []) == ApplySection(s1, b);
  }

  /** The loop of `start` over a list of the registered jobs. */
  lemma {:induction false} SpawnsAdd(s: State, jobs: seq<Job>, seen: ModuleRef)
    requires forall j :: j in jobs ==> j.name in s.jobs && s.jobs[j.name] == j
    ensures
      var t := ApplySections(s, Spawns(jobs, seen));
      && t.jobs == s.jobs && t.running == s.running
      && (forall n :: n in t.handles <==> n in s.handles || exists j :: j in jobs && j.name == n)
      && (forall n :: n in t.handles ==>
            t.handles[n] == if n in s.handles then s.handles[n] else Handle(s.jobs[n], seen))
    decreases |jobs|
  {
    if jobs != [] {
      var first, rest := jobs[0], jobs[1..];
      var s1 := SpawnIfAbsent(s, first, seen);
      assert Spawns(jobs, seen)[1..] == Spawns(rest, seen);
      assert forall j :: j in jobs <==> j == first || j in rest;
      SpawnsAdd(s1, rest, seen);
    }
  }

  /** Without interruption, marking the scheduler and spawning every registered job make up
      a start. */
  lemma SectionsMakeUpStart(s: State, jobs: seq<Job>, moduleRef: ModuleRef)
    requires s.running.None? && forall n :: n in s.jobs ==> s.jobs[n].name == n
    requires forall j :: j in jobs <==> j.name in s.jobs && s.jobs[j.name] == j
    ensures ApplySections(s, [Mark(moduleRef)] + Spawns(jobs, moduleRef)) == Apply(s, Start(moduleRef, true)).0
  {
    var marked := s.(running := Some(moduleRef));
    var sections := [Mark(moduleRef)] + Spawns(jobs, moduleRef);
    assert sections[1..] == Spawns(jobs, moduleRef);
    SpawnsAdd(marked, jobs, moduleRef);
    var t := ApplySections(marked, Spawns(jobs, moduleRef));
    forall n ensures n in t.handles <==> n in s.jobs.Keys + s.handles.Keys {
      if n in s.jobs {
        assert s.jobs[n] in jobs && s.jobs[n].name == n;
      }
    }
    assert t.handles == SpawnAll(s.jobs, s.handles, moduleRef);
  }

  predicate Unlists(section: Section, name: string)
  {
    section == TakeOut(name) || section == DropJob(name) || section == DropJobs
  }

  /** However the sections of whatever calls interleave, a registered job is never replaced:
      its name keeps denoting it until a removal, a clearing or a roll-back takes it out. */
  lemma {:induction false} JobSurvivesInterleaving(s: State, sections: seq<Section>, name: string)
    requires name in s.jobs && forall x :: x in sections ==> !Unlists(x, name)
    ensures name in ApplySections(s, sections).jobs && ApplySections(s, sections).jobs[name] == s.jobs[name]
    decreases |sections|
  {
    if sections != [] {
      assert !Unlists(sections[0], name);
      JobSurvivesInterleaving(ApplySection(s, sections[0]), sections[1..], name);
    }
  }

  /** A shutdown inside a start leaves a loop for each job that the start still spawns. */
  lemma ShutdownInsideStartLeavesLoop(s: State, job: Job, moduleRef: ModuleRef)
    requires Consistent(s) && s.running.None? && job.name in s.jobs && s.jobs[job.name] == job
    ensures
      var left := ApplySections(s, [Mark(moduleRef), Unmark, DropHandles, Spawn(job, moduleRef)]);
      left.running.None? && job.name in left.handles && !Consistent(left)
  {
    hide ValidJob;
    var sections := [Mark(moduleRef), Unmark, DropHandles, Spawn(job, moduleRef)];
    assert sections[1..] == [Unmark, DropHandles, Spawn(job, moduleRef)];
    assert sections[1..][1..] == [DropHandles, Spawn(job, moduleRef)];
    TwoSections(s.(running := None), DropHandles, Spawn(job, moduleRef));
  }
}
