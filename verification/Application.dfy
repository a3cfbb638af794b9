/** The application's hook loops and the managed handle, as objects that are updated in
    place. Every loop is proved to call exactly its schedule, up to the first failure. */
module Application {
  import opened Results
  import opened ModuleGraph
  import opened ModuleWalk
  import opened Lifecycle

  class BootApplication {
    /** Whether the k-th hook ever called succeeds. */
    const succeeds: nat -> bool
    const gateways: nat
    var modules: seq<Name>
    var log: seq<Event>

    constructor (succeeds: nat -> bool, gateways: nat)
      ensures this.succeeds == succeeds && this.gateways == gateways && modules == [] && log == []
    {
      this.succeeds := succeeds;
      this.gateways := gateways;
      modules, log := [], [];
    }

    method CallHook(e: Event) returns (ok: bool)
      modifies this`log
      ensures log == old(log) + [e] && ok == succeeds(|old(log)|)
    {
      ok := succeeds(|log|);
      log := log + [e];
    }

    /** The hooks of one module, in order, until one fails. */
    method CallBlock(hooks: seq<Hook>, name: Name) returns (ok: bool)
      modifies this`log
      ensures (log, ok) == Run(succeeds, old(log), Block(hooks, name))
    {
      ghost var events := Block(hooks, name);
      var i := 0;
      assert events[0..] == events;
      while i < |hooks|
        invariant 0 <= i <= |hooks|
        invariant Run(succeeds, old(log), events) == Run(succeeds, log, events[i..])
      {
        assert events[i..][0] == events[i] && events[i..][1..] == events[i + 1..];
        ok := CallHook(OfModule(hooks[i], name));
        if !ok {
          return;
        }
        i := i + 1;
      }
      return true;
    }

    /** A loop over modules in the given order. */
    method CallEach(hooks: seq<Hook>, names: seq<Name>) returns (ok: bool)
      modifies this`log
      ensures (log, ok) == Run(succeeds, old(log), PerModule(hooks, names))
    {
      var i := 0;
      assert names[0..] == names;
      while i < |names|
        invariant 0 <= i <= |names|
        invariant Run(succeeds, old(log), PerModule(hooks, names)) == Run(succeeds, log, PerModule(hooks, names[i..]))
      {
        assert names[i..][0] == names[i] && names[i..][1..] == names[i + 1..];
        RunConcat(succeeds, log, Block(hooks, names[i]), PerModule(hooks, names[i + 1..]));
        ok := CallBlock(hooks, names[i]);
        if !ok {
          return;
        }
        i := i + 1;
      }
      return true;
    }

    /** A loop over the modules in reverse registration order. */
    method CallEachReversed(hooks: seq<Hook>) returns (ok: bool)
      modifies this`log
      ensures (log, ok) == Run(succeeds, old(log), PerModule(hooks, Reverse(modules)))
    {
      ghost var names := Reverse(modules);
      var left := |modules|;
      assert names[0..] == names;
      while left > 0
        invariant 0 <= left <= |modules| && names == Reverse(modules)
        invariant Run(succeeds, old(log), PerModule(hooks, names))
          == Run(succeeds, log, PerModule(hooks, names[|names| - left..]))
      {
        left := left - 1;
        ghost var i := |names| - left - 1;
        assert names[i] == modules[left];
        assert names[i..][0] == names[i] && names[i..][1..] == names[i + 1..];
        RunConcat(succeeds, log, Block(hooks, names[i]), PerModule(hooks, names[i + 1..]));
        ok := CallBlock(hooks, modules[left]);
        if !ok {
          return;
        }
      }
      return true;
    }

    /** Validate all modules, start all singletons, then set the modules up one by one,
        publishing each as soon as it is complete. */
    method Finalize(pending: seq<Entry>) returns (r: Result<()>)
      requires modules == []
      modifies this
      ensures (log, r.Ok?) == Run(succeeds, old(log), FinalizeSchedule(PendingNames(pending)))
      ensures modules <= PendingNames(pending)
      ensures r.Ok? ==> modules == PendingNames(pending)
    {
      var names := PendingNames(pending);
      ghost var a, b, c := PerModule(VALIDATION, names), PerModule(SINGLETONS, names), PerModule(INITIALISATION, names);
      RunConcat(succeeds, log, a + b, c);
      RunConcat(succeeds, log, a, b);
      var ok := CallEach(VALIDATION, names);
      if !ok {
        return Err(HookFailed);
      }
      ok := CallEach(SINGLETONS, names);
      if !ok {
        return Err(HookFailed);
      }
      ghost var before := log;
      var i := 0;
      assert names[0..] == names;
      while i < |names|
        invariant 0 <= i <= |names| && modules == names[..i]
        invariant Run(succeeds, before, c) == Run(succeeds, log, PerModule(INITIALISATION, names[i..]))
      {
        assert names[i..][0] == names[i] && names[i..][1..] == names[i + 1..];
        RunConcat(succeeds, log, Block(INITIALISATION, names[i]), PerModule(INITIALISATION, names[i + 1..]));
        ok := CallBlock(INITIALISATION, names[i]);
        if !ok {
          return Err(HookFailed);
        }
        modules := modules + [names[i]];
        i := i + 1;
      }
      return Ok(());
    }

    method Bootstrap() returns (ok: bool)
      modifies this`log
      ensures (log, ok) == Run(succeeds, old(log), BootstrapSchedule(modules, gateways))
    {
      RunConcat(succeeds, log, PerModule(BOOTSTRAP, modules), Gateways(0, gateways));
      ok := CallEach(BOOTSTRAP, modules);
      if !ok {
        return;
      }
      ghost var before := log;
      var i := 0;
      while i < gateways
        invariant 0 <= i <= gateways
        invariant Run(succeeds, before, Gateways(0, gateways)) == Run(succeeds, log, Gateways(i, gateways))
      {
        assert Gateways(i, gateways)[1..] == Gateways(i + 1, gateways);
        ok := CallHook(GatewayInit(i));
        if !ok {
          return;
        }
        i := i + 1;
      }
      return true;
    }

    method Shutdown() returns (ok: bool)
      modifies this`log
      ensures (log, ok) == Run(succeeds, old(log), ShutdownSchedule(modules))
    {
      ghost var r := Reverse(modules);
      RunConcat(succeeds, log, PerModule(DESTRUCTION, r) + PerModule(BEFORE_SHUTDOWN, r), PerModule(SHUTDOWN, r));
      RunConcat(succeeds, log, PerModule(DESTRUCTION, r), PerModule(BEFORE_SHUTDOWN, r));
      ok := CallEachReversed(DESTRUCTION);
      if !ok {
        return;
      }
      ok := CallEachReversed(BEFORE_SHUTDOWN);
      if !ok {
        return;
      }
      ok := CallEachReversed(SHUTDOWN);
    }
  }

  /** A bootstrap or shutdown attempt of a handle, with its outcome. */
  datatype Attempt = Started(ok: bool) | Stopped(ok: bool)

  /** A handle is live after a successful start until a successful stop. */
  predicate Live(attempts: seq<Attempt>)
  {
    if attempts == [] then false
    else
      var last := attempts[|attempts| - 1];
      if last.Started? then last.ok else Live(attempts[..|attempts| - 1]) && !last.ok
  }

  /** A start that is not the latest attempt was followed by a stop; a failed start was
      always followed by one. */
  ghost predicate Disciplined(attempts: seq<Attempt>)
  {
    && (forall i :: 0 <= i < |attempts| - 1 && attempts[i].Started? ==> attempts[i + 1].Stopped?)
    && (attempts != [] ==> attempts[|attempts| - 1] != Started(false))
  }

  /** Between any two starts there was a stop attempt. */
  ghost predicate NeverStartsTwiceInARow(attempts: seq<Attempt>)
  {
    forall i, j :: 0 <= i < j < |attempts| && attempts[i].Started? && attempts[j].Started? ==>
      exists k :: i < k < j && attempts[k].Stopped?
  }

  lemma DisciplineSeparatesStarts(attempts: seq<Attempt>)
    requires Disciplined(attempts)
    ensures NeverStartsTwiceInARow(attempts)
  {
    forall i, j | 0 <= i < j < |attempts| && attempts[i].Started? && attempts[j].Started?
      ensures exists k :: i < k < j && attempts[k].Stopped?
    {
      assert attempts[i + 1].Stopped?;
    }
  }

  lemma LiveAfter(attempts: seq<Attempt>, a: Attempt)
    ensures Live(attempts + [a]) == if a.Started? then a.ok else Live(attempts) && !a.ok
  {
    assert (attempts + [a])[..|attempts|] == attempts;
  }

  /** How serving ended, for the callers of `listen`. */
  function ListenResult(serveOk: bool, closeOk: bool): Result<()>
  {
    if !serveOk then Err(Internal("serve"))
    else if !closeOk then Err(HookFailed)
    else Ok(())
  }

  class BootApplicationHandle {
    const app: BootApplication
    var initialized: bool
    ghost var attempts: seq<Attempt>

    constructor (app: BootApplication)
      ensures this.app == app && Valid() && !initialized && attempts == []
    {
      this.app := app;
      initialized := false;
      attempts := [];
    }

    ghost predicate Valid()
      reads this
    {
      initialized == Live(attempts) && Disciplined(attempts)
    }

    /** Bootstrap once; a failing bootstrap is followed by a shutdown attempt. */
    method Init() returns (r: Result<()>)
      requires Valid()
      modifies this, app`log
      ensures Valid() && initialized == r.Ok?
      ensures old(initialized) ==> r.Ok? && attempts == old(attempts) && app.log == old(app.log)
      ensures !old(initialized) ==>
        var (log, ok) := Run(app.succeeds, old(app.log), BootstrapSchedule(app.modules, app.gateways));
        var (log', ok') := Run(app.succeeds, log, ShutdownSchedule(app.modules));
        && r == (if ok then Ok(()) else Err(HookFailed))
        && app.log == (if ok then log else log')
        && attempts == old(attempts) + if ok then [Started(true)] else [Started(false), Stopped(ok')]
    {
      if initialized {
        return Ok(());
      }
      ghost var before := attempts;
      var ok := app.Bootstrap();
      attempts := attempts + [Started(ok)];
      LiveAfter(before, Started(ok));
      if !ok {
        var stopped := app.Shutdown();
        attempts := attempts + [Stopped(stopped)];
        LiveAfter(before + [Started(false)], Stopped(stopped));
        assert before + [Started(false)] + [Stopped(stopped)] == before + [Started(false), Stopped(stopped)];
        return Err(HookFailed);
      }
      initialized := true;
      return Ok(());
    }

    /** Shut down an initialised handle; after a failed attempt it can be closed again. */
    method Close() returns (r: Result<()>)
      requires Valid()
      modifies this, app`log
      ensures Valid() && initialized == (old(initialized) && r.Err?)
      ensures !old(initialized) ==> r.Ok? && attempts == old(attempts) && app.log == old(app.log)
      ensures old(initialized) ==>
        var (log, ok) := Run(app.succeeds, old(app.log), ShutdownSchedule(app.modules));
        && r == (if ok then Ok(()) else Err(HookFailed))
        && app.log == log && attempts == old(attempts) + [Stopped(ok)]
    {
      if !initialized {
        return Ok(());
      }
      var ok := app.Shutdown();
      LiveAfter(attempts, Stopped(ok));
      attempts := attempts + [Stopped(ok)];
      if !ok {
        return Err(HookFailed);
      }
      initialized := false;
      return Ok(());
    }

    /** Bootstrap, serve, and close whatever serving returned; a serving error wins
        over a closing error. */
    method ListenWith(serveOk: bool) returns (r: Result<()>)
      requires Valid()
      modifies this, app`log
      ensures Valid() && old(attempts) <= attempts
      ensures
        var (started, up) := if old(initialized) then (old(app.log), true)
          else Run(app.succeeds, old(app.log), BootstrapSchedule(app.modules, app.gateways));
        var (stopped, down) := Run(app.succeeds, started, ShutdownSchedule(app.modules));
        && app.log == stopped
        && r == (if up then ListenResult(serveOk, down) else Err(HookFailed))
        && initialized == (up && !down)
        && (up && !serveOk ==> r == Err(Internal("serve")))
        && (up && serveOk ==> (r.Ok? <==> down) && (r.Err? ==> r == Err(HookFailed)))
    {
      var started := Init();
      if started.Err? {
        return started;
      }
      var closed := Close();
      return ListenResult(serveOk, closed.Ok?);
    }
  }

  // ----- Every sequence of calls on a handle

  datatype HandleCall = CallInit | CallClose | CallListen(serveOk: bool)

  /** Whatever is called on a handle, in any order and with any hook failures: it never
      starts its application twice without an attempt to stop it in between, and counts as
      initialised exactly from a successful start until a successful stop. */
  method PerformCalls(handle: BootApplicationHandle, calls: seq<HandleCall>)
    requires handle.Valid()
    modifies handle, handle.app`log
    ensures handle.Valid() && old(handle.attempts) <= handle.attempts
    ensures NeverStartsTwiceInARow(handle.attempts) && handle.initialized == Live(handle.attempts)
  {
    for i := 0 to |calls|
      invariant handle.Valid() && old(handle.attempts) <= handle.attempts
    {
      match calls[i]
      case CallInit =>
        var _ := handle.Init();
      case CallClose =>
        var _ := handle.Close();
      case CallListen(serveOk) =>
        var _ := handle.ListenWith(serveOk);
    }
    DisciplineSeparatesStarts(handle.attempts);
  }
}
