/** Hook schedules: the order in which finalisation, bootstrap and shutdown call the
    hooks of the registered modules, and what a run that fails half-way has done. */
module Lifecycle {
  import opened ModuleGraph
  import opened ModuleWalk
  import opened WalkInvariant
  import opened Registration

  datatype Hook =
    | Validate | StartSingletons | InitProviders | ModuleInit | Wire
    | BootstrapProviders | ModuleBootstrap
    | ModuleDestroy | DestroyProviders
    | BeforeShutdown | BeforeShutdownProviders
    | ModuleShutdown | ShutdownProviders

  datatype Event = OfModule(hook: Hook, name: Name) | GatewayInit(index: nat)

  const VALIDATION := [Validate]
  const SINGLETONS := [StartSingletons]
  const INITIALISATION := [InitProviders, ModuleInit, Wire]
  const BOOTSTRAP := [BootstrapProviders, ModuleBootstrap]
  const DESTRUCTION := [ModuleDestroy, DestroyProviders]
  const BEFORE_SHUTDOWN := [BeforeShutdown, BeforeShutdownProviders]
  const SHUTDOWN := [ModuleShutdown, ShutdownProviders]

  function Block(hooks: seq<Hook>, name: Name): (events: seq<Event>)
    ensures |events| == |hooks|
    ensures forall i :: 0 <= i < |hooks| ==> events[i] == OfModule(hooks[i], name)
  {
    seq(|hooks|, i requires 0 <= i < |hooks| => OfModule(hooks[i], name))
  }

  /** All the hooks of the first module, then those of the second, and so on. */
  function PerModule(hooks: seq<Hook>, names: seq<Name>): seq<Event>
  {
    if names == [] then [] else Block(hooks, names[0]) + PerModule(hooks, names[1..])
  }

  function Gateways(from: nat, count: nat): seq<Event>
    requires from <= count
    decreases count - from
  {
    if from == count then [] else [GatewayInit(from)] + Gateways(from + 1, count)
  }

  function Reverse(names: seq<Name>): (r: seq<Name>)
    ensures |r| == |names|
    ensures forall i :: 0 <= i < |names| ==> r[i] == names[|names| - 1 - i]
  {
    if names == [] then [] else Reverse(names[1..]) + [names[0]]
  }

  function FinalizeSchedule(names: seq<Name>): seq<Event>
  {
    PerModule(VALIDATION, names) + PerModule(SINGLETONS, names) + PerModule(INITIALISATION, names)
  }

  function BootstrapSchedule(names: seq<Name>, gateways: nat): seq<Event>
  {
    PerModule(BOOTSTRAP, names) + Gateways(0, gateways)
  }

  function ShutdownSchedule(names: seq<Name>): seq<Event>
  {
    PerModule(DESTRUCTION, Reverse(names)) + PerModule(BEFORE_SHUTDOWN, Reverse(names)) +
      PerModule(SHUTDOWN, Reverse(names))
  }

  // ----- The schedules written out

  lemma {:induction false} OneHookEach(a: Hook, names: seq<Name>)
    ensures |PerModule([a], names)| == |names|
    ensures forall i :: 0 <= i < |names| ==> PerModule([a], names)[i] == OfModule(a, names[i])
  {
    if names != [] {
      OneHookEach(a, names[1..]);
    }
  }

  lemma {:induction false} PerModuleLength(hooks: seq<Hook>, names: seq<Name>)
    ensures |PerModule(hooks, names)| == |hooks| * |names|
  {
    if names != [] {
      PerModuleLength(hooks, names[1..]);
    }
  }

  lemma {:induction false} TwoHooksAt(a: Hook, b: Hook, names: seq<Name>, i: nat)
    requires i < |names|
    ensures |PerModule([a, b], names)| == 2 * |names|
    ensures PerModule([a, b], names)[2 * i] == OfModule(a, names[i])
    ensures PerModule([a, b], names)[2 * i + 1] == OfModule(b, names[i])
  {
    PerModuleLength([a, b], names);
    PerModuleLength([a, b], names[1..]);
    if i > 0 {
      TwoHooksAt(a, b, names[1..], i - 1);
    }
  }

  lemma {:induction false} ThreeHooksAt(a: Hook, b: Hook, c: Hook, names: seq<Name>, i: nat)
    requires i < |names|
    ensures |PerModule([a, b, c], names)| == 3 * |names|
    ensures PerModule([a, b, c], names)[3 * i] == OfModule(a, names[i])
    ensures PerModule([a, b, c], names)[3 * i + 1] == OfModule(b, names[i])
    ensures PerModule([a, b, c], names)[3 * i + 2] == OfModule(c, names[i])
  {
    PerModuleLength([a, b, c], names);
    PerModuleLength([a, b, c], names[1..]);
    if i > 0 {
      ThreeHooksAt(a, b, c, names[1..], i - 1);
    }
  }

  lemma {:induction false} GatewaysAre(from: nat, count: nat)
    requires from <= count
    ensures |Gateways(from, count)| == count - from
    ensures forall k :: from <= k < count ==> Gateways(from, count)[k - from] == GatewayInit(k)
    decreases count - from
  {
    if from < count {
      GatewaysAre(from + 1, count);
    }
  }

  /** Bootstrap calls, for each module in order, its provider hooks and then its own hook,
      and after all of them each gateway, in order; nothing else. */
  lemma BootstrapIs(names: seq<Name>, gateways: nat)
    ensures
      var s := BootstrapSchedule(names, gateways);
      && |s| == 2 * |names| + gateways
      && (forall i :: 0 <= i < |names| ==>
            s[2 * i] == OfModule(BootstrapProviders, names[i]) && s[2 * i + 1] == OfModule(ModuleBootstrap, names[i]))
      && s[2 * |names|..] == Gateways(0, gateways)
      && (forall k :: 0 <= k < gateways ==> Gateways(0, gateways)[k] == GatewayInit(k))
  {
    PerModuleLength(BOOTSTRAP, names);
    GatewaysAre(0, gateways);
    forall i | 0 <= i < |names|
      ensures BootstrapSchedule(names, gateways)[2 * i] == OfModule(BootstrapProviders, names[i])
      ensures BootstrapSchedule(names, gateways)[2 * i + 1] == OfModule(ModuleBootstrap, names[i])
    {
      TwoHooksAt(BootstrapProviders, ModuleBootstrap, names, i);
      hide PerModule;
    }
    forall k | 0 <= k < gateways ensures Gateways(0, gateways)[k] == GatewayInit(k) {
      assert Gateways(0, gateways)[k - 0] == GatewayInit(k);
    }
  }

  /** The places of the `i`-th module in a finalisation: validated in the first round, started
      in the second, and then its providers initialised, its init hook called and it wired up. */
  ghost predicate FinalizesAt(s: seq<Event>, names: seq<Name>, i: nat)
    requires i < |names| && |s| == 5 * |names|
  {
    var n := |names|;
    && s[i] == OfModule(Validate, names[i])
    && s[n + i] == OfModule(StartSingletons, names[i])
    && s[2 * n + 3 * i] == OfModule(InitProviders, names[i])
    && s[2 * n + 3 * i + 1] == OfModule(ModuleInit, names[i])
    && s[2 * n + 3 * i + 2] == OfModule(Wire, names[i])
  }

  /** Finalisation does that for every module, and nothing else. */
  lemma FinalizeIs(names: seq<Name>)
    ensures |FinalizeSchedule(names)| == 5 * |names|
    ensures forall i :: 0 <= i < |names| ==> FinalizesAt(FinalizeSchedule(names), names, i)
  {
    PerModuleLength([Validate], names);
    PerModuleLength([StartSingletons], names);
    PerModuleLength([InitProviders, ModuleInit, Wire], names);
    OneHookEach(Validate, names);
    OneHookEach(StartSingletons, names);
    hide PerModule;
    var a, b, c :=
      PerModule([Validate], names), PerModule([StartSingletons], names),
      PerModule([InitProviders, ModuleInit, Wire], names);
    var s, n := FinalizeSchedule(names), |names|;
    assert s == a + b + c;
    forall i | 0 <= i < n ensures FinalizesAt(s, names, i) {
      ThreeHooksAt(InitProviders, ModuleInit, Wire, names, i);
      assert s[i] == a[i] && s[n + i] == b[i];
      assert s[2 * n + 3 * i] == c[3 * i] && s[2 * n + 3 * i + 1] == c[3 * i + 1];
      assert s[2 * n + 3 * i + 2] == c[3 * i + 2];
    }
  }

  /** The places of the `i`-th module from the end in a shutdown: three rounds, and in each its
      own hook and then those of its providers; first to destroy, then before the shutdown,
      then for the shutdown. */
  ghost predicate ShutsDownAt(s: seq<Event>, names: seq<Name>, i: nat)
    requires i < |names| && |s| == 6 * |names|
  {
    var n, m := |names|, names[|names| - 1 - i];
    && s[2 * i] == OfModule(ModuleDestroy, m) && s[2 * i + 1] == OfModule(DestroyProviders, m)
    && s[2 * n + 2 * i] == OfModule(BeforeShutdown, m)
    && s[2 * n + 2 * i + 1] == OfModule(BeforeShutdownProviders, m)
    && s[4 * n + 2 * i] == OfModule(ModuleShutdown, m)
    && s[4 * n + 2 * i + 1] == OfModule(ShutdownProviders, m)
  }

  /** Shutdown does that for every module, and nothing else. */
  lemma ShutdownIs(names: seq<Name>)
    ensures |ShutdownSchedule(names)| == 6 * |names|
    ensures forall i :: 0 <= i < |names| ==> ShutsDownAt(ShutdownSchedule(names), names, i)
  {
    var r := Reverse(names);
    PerModuleLength([ModuleDestroy, DestroyProviders], r);
    PerModuleLength([BeforeShutdown, BeforeShutdownProviders], r);
    PerModuleLength([ModuleShutdown, ShutdownProviders], r);
    hide PerModule;
    var a, b, c :=
      PerModule([ModuleDestroy, DestroyProviders], r), PerModule([BeforeShutdown, BeforeShutdownProviders], r),
      PerModule([ModuleShutdown, ShutdownProviders], r);
    var s, n := ShutdownSchedule(names), |names|;
    assert s == a + b + c;
    forall i | 0 <= i < n ensures ShutsDownAt(s, names, i) {
      TwoHooksAt(ModuleDestroy, DestroyProviders, r, i);
      TwoHooksAt(BeforeShutdown, BeforeShutdownProviders, r, i);
      TwoHooksAt(ModuleShutdown, ShutdownProviders, r, i);
      assert r[i] == names[n - 1 - i];
      assert s[2 * i] == a[2 * i] && s[2 * i + 1] == a[2 * i + 1];
      assert s[2 * n + 2 * i] == b[2 * i] && s[2 * n + 2 * i + 1] == b[2 * i + 1];
      assert s[4 * n + 2 * i] == c[2 * i] && s[4 * n + 2 * i + 1] == c[2 * i + 1];
    }
  }

  /** Call the hooks of a schedule until one fails; `succeeds(k)` is the outcome of the
      k-th hook ever called. */
  function Run(succeeds: nat -> bool, log: seq<Event>, schedule: seq<Event>): (seq<Event>, bool)
    decreases |schedule|
  {
    if schedule == [] then (log, true)
    else if !succeeds(|log|) then (log + [schedule[0]], false)
    else Run(succeeds, log + [schedule[0]], schedule[1..])
  }

  /** `log'` continues `log` by a prefix of the schedule whose hooks all succeeded,
      except the last one of a failing run; a successful run went through all of it. */
  ghost predicate CalledPrefix(succeeds: nat -> bool, log: seq<Event>, schedule: seq<Event>, log': seq<Event>, ok: bool)
  {
    && log <= log' && log'[|log|..] <= schedule
    && (forall t: nat :: |log| <= t < |log'| - 1 ==> succeeds(t))
    && (ok ==> log' == log + schedule && (schedule != [] ==> succeeds(|log'| - 1)))
    && (!ok ==> |log| < |log'| && !succeeds(|log'| - 1))
  }

  /** A run calls a prefix of its schedule: all of it exactly when no hook failed, and
      otherwise up to and including the first failing hook. */
  lemma {:induction false} RunCallsPrefix(succeeds: nat -> bool, log: seq<Event>, schedule: seq<Event>)
    ensures
      var (log', ok) := Run(succeeds, log, schedule);
      CalledPrefix(succeeds, log, schedule, log', ok)
    decreases |schedule|
  {
    if schedule != [] && succeeds(|log|) {
      var log1 := log + [schedule[0]];
      RunCallsPrefix(succeeds, log1, schedule[1..]);
      var (log', ok) := Run(succeeds, log1, schedule[1..]);
      assert log'[|log|..] == [schedule[0]] + log'[|log1|..];
      assert schedule == [schedule[0]] + schedule[1..];
      assert log1 + schedule[1..] == log + schedule;
      assert log == log1[..|log|] == log'[..|log|];
    }
  }

  lemma {:induction false} RunConcat(succeeds: nat -> bool, log: seq<Event>, a: seq<Event>, b: seq<Event>)
    ensures
      var (log1, ok) := Run(succeeds, log, a);
      Run(succeeds, log, a + b) == if ok then Run(succeeds, log1, b) else (log1, false)
    decreases |a|
  {
    if a == [] {
      assert a + b == b;
    } else {
      assert (a + b)[0] == a[0] && (a + b)[1..] == a[1..] + b;
      if succeeds(|log|) {
        RunConcat(succeeds, log + [a[0]], a[1..], b);
      }
    }
  }

  /** Whenever `y` is called, `x` has been called before. */
  ghost predicate Precedes(run: seq<Event>, x: Event, y: Event)
  {
    forall j :: 0 <= j < |run| && run[j] == y ==> exists i :: 0 <= i < j && run[i] == x
  }

  lemma PrecedesInPrefix(run: seq<Event>, k: nat, x: Event, y: Event)
    requires Precedes(run, x, y) && k <= |run|
    ensures Precedes(run[..k], x, y)
  {
    forall j | 0 <= j < k && run[..k][j] == y ensures exists i :: 0 <= i < j && run[..k][i] == x {
      var i :| 0 <= i < j && run[i] == x;
      assert run[..k][i] == x;
    }
  }

  lemma PrecedesBefore(a: seq<Event>, b: seq<Event>, x: Event, y: Event)
    requires Precedes(a, x, y) && y !in b
    ensures Precedes(a + b, x, y)
  {
    forall j | 0 <= j < |a + b| && (a + b)[j] == y ensures exists i :: 0 <= i < j && (a + b)[i] == x {
      var i :| 0 <= i < j && a[i] == x;
      assert (a + b)[i] == x;
    }
  }

  lemma PrecedesAfter(a: seq<Event>, b: seq<Event>, x: Event, y: Event)
    requires Precedes(b, x, y) && y !in a
    ensures Precedes(a + b, x, y)
  {
    forall j | 0 <= j < |a + b| && (a + b)[j] == y ensures exists i :: 0 <= i < j && (a + b)[i] == x {
      assert b[j - |a|] == y;
      var i :| 0 <= i < j - |a| && b[i] == x;
      assert (a + b)[i + |a|] == x;
    }
  }

  lemma PrecedesAcross(a: seq<Event>, b: seq<Event>, x: Event, y: Event)
    requires x in a && y !in a
    ensures Precedes(a + b, x, y)
  {
    var i :| 0 <= i < |a| && a[i] == x;
    assert (a + b)[i] == x;
  }

  lemma {:induction false} PerModuleHolds(hooks: seq<Hook>, names: seq<Name>, e: Event)
    ensures e in PerModule(hooks, names) <==> e.OfModule? && e.hook in hooks && e.name in names
  {
    if names != [] {
      PerModuleHolds(hooks, names[1..], e);
      if e.OfModule? && e.hook in hooks && e.name == names[0] {
        var i :| 0 <= i < |hooks| && hooks[i] == e.hook;
        assert Block(hooks, names[0])[i] == e;
      }
    }
  }

  lemma {:induction false} GatewaysHold(from: nat, count: nat, e: Event)
    requires from <= count && e in Gateways(from, count)
    ensures e.GatewayInit?
    decreases count - from
  {
    if e != GatewayInit(from) {
      GatewaysHold(from + 1, count, e);
    }
  }

  ghost predicate ComesBefore(names: seq<Name>, first: Name, second: Name)
  {
    && (forall i, j :: 0 <= i < j < |names| ==> names[i] != names[j])
    && exists i, j :: 0 <= i < j < |names| && names[i] == first && names[j] == second
  }

  /** In a per-module schedule every hook of the earlier module precedes every hook of
      the later one. */
  lemma {:induction false} PerModuleOrder(
    hooks: seq<Hook>, names: seq<Name>, x: Hook, first: Name, y: Hook, second: Name)
    requires ComesBefore(names, first, second) && x in hooks && y in hooks
    ensures Precedes(PerModule(hooks, names), OfModule(x, first), OfModule(y, second))
  {
    var i, j :| 0 <= i < j < |names| && names[i] == first && names[j] == second;
    var head, tail := Block(hooks, names[0]), PerModule(hooks, names[1..]);
    assert OfModule(y, second) !in head;
    if i == 0 {
      var k :| 0 <= k < |hooks| && hooks[k] == x;
      assert head[k] == OfModule(x, first);
      PrecedesAcross(head, tail, OfModule(x, first), OfModule(y, second));
    } else {
      assert names[1..][i - 1] == first && names[1..][j - 1] == second;
      PerModuleOrder(hooks, names[1..], x, first, y, second);
      PrecedesAfter(head, tail, OfModule(x, first), OfModule(y, second));
    }
  }

  lemma ReverseOrder(names: seq<Name>, first: Name, second: Name)
    requires ComesBefore(names, first, second)
    ensures ComesBefore(Reverse(names), second, first)
  {
    var i, j :| 0 <= i < j < |names| && names[i] == first && names[j] == second;
    var n, r := |names|, Reverse(names);
    assert r[n - 1 - j] == second && r[n - 1 - i] == first;
  }

  /** Finalisation: set-up of the earlier module precedes that of the later one, and
      every module is validated and started before any module is initialised. */
  lemma FinalizeOrder(names: seq<Name>, first: Name, second: Name, x: Hook, y: Hook)
    requires x in INITIALISATION && y in INITIALISATION
    ensures ComesBefore(names, first, second) ==>
      Precedes(FinalizeSchedule(names), OfModule(x, first), OfModule(y, second))
    ensures first in names ==>
      && Precedes(FinalizeSchedule(names), OfModule(Validate, first), OfModule(y, second))
      && Precedes(FinalizeSchedule(names), OfModule(StartSingletons, first), OfModule(y, second))
  {
    var a, b, c := PerModule(VALIDATION, names), PerModule(SINGLETONS, names), PerModule(INITIALISATION, names);
    PerModuleHolds(VALIDATION, names, OfModule(y, second));
    PerModuleHolds(SINGLETONS, names, OfModule(y, second));
    PerModuleHolds(VALIDATION, names, OfModule(Validate, first));
    PerModuleHolds(SINGLETONS, names, OfModule(StartSingletons, first));
    if ComesBefore(names, first, second) {
      PerModuleOrder(INITIALISATION, names, x, first, y, second);
      PrecedesAfter(a + b, c, OfModule(x, first), OfModule(y, second));
    }
    if first in names {
      PrecedesAcross(a + b, c, OfModule(Validate, first), OfModule(y, second));
      PrecedesAcross(a + b, c, OfModule(StartSingletons, first), OfModule(y, second));
    }
  }

  lemma BootstrapOrder(names: seq<Name>, gateways: nat, first: Name, second: Name, x: Hook, y: Hook)
    requires ComesBefore(names, first, second) && x in BOOTSTRAP && y in BOOTSTRAP
    ensures Precedes(BootstrapSchedule(names, gateways), OfModule(x, first), OfModule(y, second))
  {
    PerModuleOrder(BOOTSTRAP, names, x, first, y, second);
    if OfModule(y, second) in Gateways(0, gateways) {
      GatewaysHold(0, gateways, OfModule(y, second));
    }
    PrecedesBefore(PerModule(BOOTSTRAP, names), Gateways(0, gateways), OfModule(x, first), OfModule(y, second));
  }

  /** The hooks of the three shutdown phases, by phase number. */
  function Phase(p: nat): seq<Hook>
    requires p < 3
  {
    if p == 0 then DESTRUCTION else if p == 1 then BEFORE_SHUTDOWN else SHUTDOWN
  }

  /** Shutdown: in each phase the later module's hooks precede the earlier module's,
      and a phase starts only after all modules have gone through the one before. */
  lemma ShutdownOrder(names: seq<Name>, first: Name, second: Name, p: nat, q: nat, x: Hook, y: Hook)
    requires p <= q < 3 && x in Phase(p) && y in Phase(q)
    requires if p == q then ComesBefore(names, first, second) else second in names
    ensures Precedes(ShutdownSchedule(names), OfModule(x, second), OfModule(y, first))
  {
    hide Precedes, PerModule, Reverse, ComesBefore;
    var r := Reverse(names);
    var ex, ey := OfModule(x, second), OfModule(y, first);
    var a, b, c := PerModule(DESTRUCTION, r), PerModule(BEFORE_SHUTDOWN, r), PerModule(SHUTDOWN, r);
    PerModuleHolds(DESTRUCTION, r, ey);
    PerModuleHolds(BEFORE_SHUTDOWN, r, ey);
    PerModuleHolds(SHUTDOWN, r, ey);
    PerModuleHolds(DESTRUCTION, r, ex);
    PerModuleHolds(BEFORE_SHUTDOWN, r, ex);
    ReverseHolds(names, second);
    if p == q {
      ReverseOrder(names, first, second);
      PerModuleOrder(Phase(p), r, x, second, y, first);
      if p == 0 {
        PrecedesBefore(a, b, ex, ey);
        PrecedesBefore(a + b, c, ex, ey);
      } else if p == 1 {
        PrecedesAfter(a, b, ex, ey);
        PrecedesBefore(a + b, c, ex, ey);
      } else {
        PrecedesAfter(a + b, c, ex, ey);
      }
    } else if q == 1 {
      PrecedesAcross(a, b, ex, ey);
      PrecedesBefore(a + b, c, ex, ey);
    } else {
      PrecedesAcross(a + b, c, ex, ey);
    }
  }

  lemma ReverseHolds(names: seq<Name>, n: Name)
    ensures n in Reverse(names) <==> n in names
  {
    var r := Reverse(names);
    if n in names {
      var i :| 0 <= i < |names| && names[i] == n;
      assert r[|names| - 1 - i] == n;
    }
    if n in r {
      var i :| 0 <= i < |r| && r[i] == n;
      assert names[|names| - 1 - i] == n;
    }
  }

  function PendingNames(pending: seq<Entry>): (names: seq<Name>)
    ensures |names| == |pending|
    ensures forall i :: 0 <= i < |pending| ==> names[i] == pending[i].handle.name
  {
    seq(|pending|, i requires 0 <= i < |pending| => pending[i].handle.name)
  }

  lemma SortedComesBefore(w: World, s: Walk, a: Name, b: Name)
    requires TopologicallySorted(w, s.pending) && Before(s.pending, |s.pending|, a) && HasImport(w, a, b)
    ensures ComesBefore(PendingNames(s.pending), b, a)
  {
    var names := PendingNames(s.pending);
    var i :| 0 <= i < |s.pending| && s.pending[i].handle.name == a;
    assert Before(s.pending, i, b);
    var j :| 0 <= j < i && s.pending[j].handle.name == b;
    assert names[j] == b && names[i] == a;
  }

  /** In a built application an imported module stands before its importer. */
  lemma ImportComesBefore(w: World, roots: seq<Name>, a: Name, b: Name)
    requires RootsExist(w, roots) && RegisterAll(w, EMPTY_WALK, roots).1.Ok?
    requires ReachableFrom(w, roots, a) && HasImport(w, a, b)
    ensures ComesBefore(PendingNames(RegisterAll(w, EMPTY_WALK, roots).0.pending), b, a)
  {
    hide RegisterAll, ReachableFrom, TopologicallySorted, ComesBefore;
    RegistrationIsTopological(w, roots);
    SortedComesBefore(w, RegisterAll(w, EMPTY_WALK, roots).0, a, b);
  }

  /** The part of a log that a run added. */
  function Called(succeeds: nat -> bool, log: seq<Event>, schedule: seq<Event>): (run: seq<Event>)
    ensures Run(succeeds, log, schedule).0 == log + run
    ensures run <= schedule
  {
    RunCallsPrefix(succeeds, log, schedule);
    var log' := Run(succeeds, log, schedule).0;
    log'[|log|..]
  }

  lemma CalledKeepsOrder(succeeds: nat -> bool, log: seq<Event>, schedule: seq<Event>, x: Event, y: Event)
    requires Precedes(schedule, x, y)
    ensures Precedes(Called(succeeds, log, schedule), x, y)
  {
    var run := Called(succeeds, log, schedule);
    PrecedesInPrefix(schedule, |run|, x, y);
    assert schedule[..|run|] == run;
  }

  /** End to end: for every ordinary import of `b` by `a` in a built application, and for
      every run of finalisation, bootstrap or shutdown, complete or failing: b's
      initialisation and bootstrap hooks run before a's, and in each shutdown phase a's
      hooks run before b's. */
  lemma ImportsOrderHooks(w: World, roots: seq<Name>, a: Name, b: Name,
                          succeeds: nat -> bool, log: seq<Event>, gateways: nat, p: nat, x: Hook, y: Hook)
    requires RootsExist(w, roots) && RegisterAll(w, EMPTY_WALK, roots).1.Ok?
    requires ReachableFrom(w, roots, a) && HasImport(w, a, b) && p < 3
    ensures
      var names := PendingNames(RegisterAll(w, EMPTY_WALK, roots).0.pending);
      && (x in INITIALISATION && y in INITIALISATION ==>
            Precedes(Called(succeeds, log, FinalizeSchedule(names)), OfModule(x, b), OfModule(y, a)))
      && (x in BOOTSTRAP && y in BOOTSTRAP ==>
            Precedes(Called(succeeds, log, BootstrapSchedule(names, gateways)), OfModule(x, b), OfModule(y, a)))
      && (x in Phase(p) && y in Phase(p) ==>
            Precedes(Called(succeeds, log, ShutdownSchedule(names)), OfModule(x, a), OfModule(y, b)))
  {
    hide RegisterAll, Called, FinalizeSchedule, BootstrapSchedule, ShutdownSchedule, Precedes, ReachableFrom;
    ImportComesBefore(w, roots, a, b);
    var names := PendingNames(RegisterAll(w, EMPTY_WALK, roots).0.pending);
    if x in INITIALISATION && y in INITIALISATION {
      FinalizeOrder(names, b, a, x, y);
      CalledKeepsOrder(succeeds, log, FinalizeSchedule(names), OfModule(x, b), OfModule(y, a));
    }
    if x in BOOTSTRAP && y in BOOTSTRAP {
      BootstrapOrder(names, gateways, b, a, x, y);
      CalledKeepsOrder(succeeds, log, BootstrapSchedule(names, gateways), OfModule(x, b), OfModule(y, a));
    }
    if x in Phase(p) && y in Phase(p) {
      ShutdownOrder(names, b, a, p, p, x, y);
      CalledKeepsOrder(succeeds, log, ShutdownSchedule(names), OfModule(x, a), OfModule(y, b));
    }
  }

  /** No module is initialised, in a complete or failing run, before every module of the
      application has been validated and has started its singletons. */
  lemma NothingInitialisesEarly(names: seq<Name>, n: Name, m: Name, succeeds: nat -> bool, log: seq<Event>, y: Hook)
    requires n in names && y in INITIALISATION
    ensures Precedes(Called(succeeds, log, FinalizeSchedule(names)), OfModule(Validate, n), OfModule(y, m))
    ensures Precedes(Called(succeeds, log, FinalizeSchedule(names)), OfModule(StartSingletons, n), OfModule(y, m))
  {
    FinalizeOrder(names, n, m, y, y);
    CalledKeepsOrder(succeeds, log, FinalizeSchedule(names), OfModule(Validate, n), OfModule(y, m));
    CalledKeepsOrder(succeeds, log, FinalizeSchedule(names), OfModule(StartSingletons, n), OfModule(y, m));
  }
}
