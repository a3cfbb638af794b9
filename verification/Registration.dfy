/** Eager registration of the root modules: what a successful run has registered
    and in which order, why a run fails, and when it must. */
module Registration {
  import opened Results
  import opened Text
  import opened Paths
  import opened Prefixes
  import opened ModuleGraph
  import opened ModuleWalk
  import opened WalkInvariant

  ghost predicate RootsExist(w: World, roots: seq<Name>)
  {
    WellFormed(w) && forall root :: root in roots ==> root in w.defs
  }

  /** Register the roots one after the other, stopping at the first failure. */
  function RegisterAll(w: World, s: Walk, roots: seq<Name>): (r: (Walk, Result<()>))
    requires RootsExist(w, roots) && StackOk(w, s)
    ensures r.0.visiting == s.visiting && r.0.active == s.active
    decreases |roots|
  {
    if roots == [] then (s, Ok(()))
    else
      var (s1, first) := Visit(w, Eager, s, roots[0], "", false);
      match first
      case Err(e) => (s1, Err(e))
      case Ok(_) => RegisterAll(w, s1, roots[1..])
  }

  lemma EmptyWalkIsFine(w: World, mode: Mode)
    requires WellFormed(w) && MonotoneView(mode)
    ensures Inv(w, mode, EMPTY_WALK)
  {
  }

  ghost predicate ReachableFrom(w: World, roots: seq<Name>, n: Name)
  {
    exists i :: 0 <= i < |roots| && Reachable(w, roots[i], n)
  }

  ghost predicate FailsFrom(w: World, roots: seq<Name>, e: BootError)
  {
    exists i :: 0 <= i < |roots| && GoodFailure(w, Eager, EMPTY_WALK, roots[i], e)
  }

  /** What registering `roots` from `s` to `s'` owes. */
  ghost predicate RootsVisited(w: World, s: Walk, roots: seq<Name>, s': Walk, r: Result<()>)
  {
    match r
    case Ok(_) =>
      && Inv(w, Eager, s') && Grown(s, s')
      && (forall root :: root in roots ==> root in s'.registered)
      && (forall n :: n in s'.registered ==> n in s.registered || ReachableFrom(w, roots, n))
    case Err(e) => FailsFrom(w, roots, e)
  }

  lemma {:induction false} RegisterAllKeeps(w: World, s: Walk, roots: seq<Name>)
    requires RootsExist(w, roots) && Inv(w, Eager, s) && s.visiting == []
    ensures
      var (s', r) := RegisterAll(w, s, roots);
      RootsVisited(w, s, roots, s', r)
    decreases |roots|
  {
    hide Inv, Visit, StackOk, MonotoneView;
    InvBasics(w, Eager, s);
    if roots != [] {
      VisitKeeps(w, Eager, s, roots[0], "", false);
      var (s1, first) := Visit(w, Eager, s, roots[0], "", false);
      if first.Ok? {
        InvBasics(w, Eager, s1);
        RegisterAllKeeps(w, s1, roots[1..]);
        var (s2, rest) := RegisterAll(w, s1, roots[1..]);
        RootThenRest(w, s, roots, s1, first.value, s2, rest);
      } else {
        assert GoodFailure(w, Eager, EMPTY_WALK, roots[0], first.error);
      }
    }
  }

  lemma RootThenRest(w: World, s: Walk, roots: seq<Name>, s1: Walk, h: Handle, s2: Walk, rest: Result<()>)
    requires roots != [] && s.visiting == []
    requires Visited(w, Eager, s, roots[0], false, s1, Ok(h))
    requires RootsVisited(w, s1, roots[1..], s2, rest)
    ensures RootsVisited(w, s, roots, s2, rest)
  {
    hide Inv, Reachable;
    match rest
    case Ok(_) =>
      GrownTransitive(s, s1, s2);
      assert forall root :: root in roots ==> root == roots[0] || root in roots[1..];
      forall n | n in s2.registered && n !in s.registered ensures ReachableFrom(w, roots, n) {
        if n in s1.registered {
          assert Reachable(w, roots[0], n);
        } else {
          var i :| 0 <= i < |roots[1..]| && Reachable(w, roots[1..][i], n);
          assert roots[1..][i] == roots[i + 1];
        }
      }
    case Err(e) =>
      var i :| 0 <= i < |roots[1..]| && GoodFailure(w, Eager, EMPTY_WALK, roots[1..][i], e);
      assert roots[1..][i] == roots[i + 1];
  }

  /** The registered modules are closed under edges of both kinds once nothing is active. */
  lemma RegisteredIsClosed(w: World, s: Walk, n: Name, m: Name)
    requires Inv(w, Eager, s) && s.visiting == []
    requires n in s.registered && HasEdge(w, n, m)
    ensures m in s.registered
  {
    assert Before(s.pending, |s.pending|, n);
    var i :| 0 <= i < |s.pending| && s.pending[i].handle.name == n;
    var entry := s.pending[i];
    assert EntryLinked(w, Eager, s, entry);
    var edges := Edges(w, n);
    var imports, forwards := w.defs[n].imports, w.defs[n].forwards;
    if m in imports {
      var j :| 0 <= j < |imports| && imports[j] == m;
      assert Resolves(Eager, s, entry.imported[j], edges[j].target);
    } else {
      var j :| 0 <= j < |forwards| && forwards[j] == m;
      assert edges[|imports| + j].target == m;
      assert Resolves(Eager, s, entry.imported[|imports| + j], edges[|imports| + j].target);
    }
  }

  /** `pending` holds no module twice and every ordinary import strictly earlier. */
  ghost predicate TopologicallySorted(w: World, pending: seq<Entry>)
  {
    && (forall i, j :: 0 <= i < j < |pending| ==> pending[i].handle.name != pending[j].handle.name)
    && (forall i, m :: 0 <= i < |pending| && HasImport(w, pending[i].handle.name, m) ==> Before(pending, i, m))
  }

  /** The entry holds, edge by edge, the handles under which its imports are registered. */
  ghost predicate HoldsRegistered(w: World, s: Walk, entry: Entry)
  {
    && entry.handle.name in w.defs
    && |entry.imported| == |Edges(w, entry.handle.name)|
    && forall j :: 0 <= j < |entry.imported| ==>
         var target := Edges(w, entry.handle.name)[j].target;
         target in s.registered && s.registered[target] == entry.imported[j]
  }

  lemma EntriesHoldRegistered(w: World, s: Walk, i: nat)
    requires Linked(w, Eager, s) && s.active == map[] && i < |s.pending|
    ensures HoldsRegistered(w, s, s.pending[i])
  {
    var entry := s.pending[i];
    assert EntryLinked(w, Eager, s, entry);
    forall j | 0 <= j < |entry.imported|
      ensures
        var target := Edges(w, entry.handle.name)[j].target;
        target in s.registered && s.registered[target] == entry.imported[j]
    {
      assert Resolves(Eager, s, entry.imported[j], Edges(w, entry.handle.name)[j].target);
    }
  }

  lemma ReachableIsRegistered(w: World, s: Walk, root: Name, n: Name)
    requires Inv(w, Eager, s) && s.visiting == [] && root in s.registered && Reachable(w, root, n)
    ensures n in s.registered
  {
    hide Inv;
    forall a, b | a in s.registered.Keys && HasEdge(w, a, b) ensures b in s.registered.Keys {
      RegisteredIsClosed(w, s, a, b);
    }
    ClosedSetHoldsReachable(w, s.registered.Keys, root, n);
  }

  /** When all roots register, `pending` lists exactly the modules reachable from
      them over edges of either kind, each once, after all its ordinary imports;
      and each entry holds, edge by edge, the handles under which its imports ended
      up registered, even where a forward import saw them half built. */
  lemma RegistrationIsTopological(w: World, roots: seq<Name>)
    requires RootsExist(w, roots)
    ensures
      var (s, r) := RegisterAll(w, EMPTY_WALK, roots);
      r.Ok? ==>
        && s.visiting == [] && s.active == map[]
        && TopologicallySorted(w, s.pending)
        && (forall n :: n in s.registered <==> ReachableFrom(w, roots, n))
        && (forall n :: n in s.registered <==> Before(s.pending, |s.pending|, n))
        && (forall i :: 0 <= i < |s.pending| ==> HoldsRegistered(w, s, s.pending[i]))
  {
    hide Reachable, RegisterAll, Resolves;
    EmptyWalkIsFine(w, Eager);
    RegisterAllKeeps(w, EMPTY_WALK, roots);
    var (s, r) := RegisterAll(w, EMPTY_WALK, roots);
    if r.Ok? {
      forall n | ReachableFrom(w, roots, n) ensures n in s.registered {
        var i :| 0 <= i < |roots| && Reachable(w, roots[i], n);
        ReachableIsRegistered(w, s, roots[i], n);
      }
      forall i | 0 <= i < |s.pending| ensures HoldsRegistered(w, s, s.pending[i]) {
        EntriesHoldRegistered(w, s, i);
      }
    }
  }

  /** A failing registration has a cause in the reachable graph; in particular a
      cyclic-import error carries a closed walk that ends with an ordinary import. */
  lemma FailureIsGenuine(w: World, roots: seq<Name>)
    requires RootsExist(w, roots)
    ensures
      var (_, r) := RegisterAll(w, EMPTY_WALK, roots);
      r.Err? ==>
        && FailsFrom(w, roots, r.error)
        && (r.error.CyclicImport? ==> GenuineCycle(w, r.error.chain) && ReachableFrom(w, roots, r.error.chain[0]))
  {
    EmptyWalkIsFine(w, Eager);
    RegisterAllKeeps(w, EMPTY_WALK, roots);
  }

  /** A graph without closed walks never raises the cyclic-import error. */
  lemma AcyclicGraphNeverCyclic(w: World, roots: seq<Name>)
    requires RootsExist(w, roots) && Acyclic(w)
    ensures
      var (_, r) := RegisterAll(w, EMPTY_WALK, roots);
      r.Err? ==> !r.error.CyclicImport?
  {
    FailureIsGenuine(w, roots);
  }

  function Position(pending: seq<Entry>, n: Name): (i: nat)
    ensures i <= |pending|
    ensures i < |pending| ==> pending[i].handle.name == n
    ensures i == |pending| ==> !exists j :: 0 <= j < |pending| && pending[j].handle.name == n
  {
    if pending == [] then 0
    else if pending[0].handle.name == n then 0
    else 1 + Position(pending[1..], n)
  }

  lemma ImportIsEarlier(w: World, pending: seq<Entry>, n: Name, m: Name)
    requires TopologicallySorted(w, pending) && HasImport(w, n, m)
    requires Position(pending, n) < |pending|
    ensures Position(pending, m) < Position(pending, n)
  {
    var i := Position(pending, n);
    assert Before(pending, i, m);
    var j :| 0 <= j < i && pending[j].handle.name == m;
  }

  lemma {:induction false} CycleDescends(w: World, pending: seq<Entry>, chain: seq<Name>, i: nat)
    requires TopologicallySorted(w, pending) && OrdinaryCycle(w, chain) && i < |chain|
    requires Position(pending, chain[0]) < |pending|
    ensures Position(pending, chain[i]) + i <= Position(pending, chain[0])
  {
    if i > 0 {
      CycleDescends(w, pending, chain, i - 1);
      assert HasImport(w, chain[i - 1], chain[i - 1 + 1]);
      ImportIsEarlier(w, pending, chain[i - 1], chain[i]);
    }
  }

  /** A cycle of ordinary imports that the roots reach can never be registered. */
  lemma OrdinaryCycleIsRejected(w: World, roots: seq<Name>, chain: seq<Name>)
    requires RootsExist(w, roots) && OrdinaryCycle(w, chain) && ReachableFrom(w, roots, chain[0])
    ensures RegisterAll(w, EMPTY_WALK, roots).1.Err?
  {
    var (s, r) := RegisterAll(w, EMPTY_WALK, roots);
    if r.Ok? {
      RegistrationIsTopological(w, roots);
      assert chain[0] in s.registered;
      assert Position(s.pending, chain[0]) < |s.pending|;
      CycleDescends(w, s.pending, chain, |chain| - 1);
      assert false;
    }
  }

  function ModuleParams(w: World, n: Name): set<string>
  {
    if n in w.defs && w.defs[n].routePrefix.Some? then PathParams(w.defs[n].routePrefix.value) else {}
  }

  /** No module has a fault of its own: a blank name, a failing set-up, or a route prefix
      that is malformed, ends with a wildcard, or uses a parameter name of another module's. */
  ghost predicate FaultFree(w: World)
  {
    && (forall n :: n in w.defs ==>
          && !IsBlank(n) && !w.defs[n].setupFails
          && (w.defs[n].routePrefix.Some? ==> Joinable(w.defs[n].routePrefix.value)))
    && (forall n, m :: n in w.defs && m in w.defs && n != m ==> ModuleParams(w, n) !! ModuleParams(w, m))
  }

  /** The prefix is made of prefixes of the modules on the stack. */
  ghost predicate PrefixOf(w: World, visiting: seq<Name>, prefix: string)
  {
    && Joinable(prefix)
    && forall p :: p in PathParams(prefix) ==> exists n :: n in visiting && n in w.defs && p in ModuleParams(w, n)
  }

  /** The prefix of a module that is not on the stack joins with what is above it. */
  lemma PrefixGrows(w: World, visiting: seq<Name>, prefix: string, name: Name)
    requires FaultFree(w) && PrefixOf(w, visiting, prefix) && name in w.defs && name !in visiting
    ensures
      var own := ModuleRoutePrefix(prefix, w.defs[name].routePrefix);
      own.Ok? && PrefixOf(w, visiting + [name], own.value)
  {
    hide Joinable, PathParams;
    var declared := w.defs[name].routePrefix;
    var own := if declared.Some? then declared.value else "";
    forall p | p in PathParams(prefix) ensures p !in ModuleParams(w, name) {
      var n :| n in visiting && n in w.defs && p in ModuleParams(w, n);
    }
    if own != "" && own != "/" {
      JoinablePathsJoin(prefix, own);
    }
    var r := ModuleRoutePrefix(prefix, declared);
    forall p | p in PathParams(r.value)
      ensures exists n :: n in visiting + [name] && n in w.defs && p in ModuleParams(w, n)
    {
      if p in PathParams(prefix) {
        var n :| n in visiting && n in w.defs && p in ModuleParams(w, n);
        assert n in visiting + [name];
      } else {
        assert name in visiting + [name];
      }
    }
  }

  /** A genuine cycle through a module on the stack or reachable from the given one. */
  ghost predicate CycleAt(w: World, s: Walk, from: Name)
  {
    exists chain :: GoodFailure(w, Eager, s, from, CyclicImport(chain))
  }

  /** Without module faults a prefix is refused only where the search has run into a cycle:
      the prefix of the repeated module is joined before the cycle is noticed. */
  lemma {:induction false} PrefixFailureIsCyclic(w: World, s: Walk, name: Name, prefix: string, allowActive: bool)
    requires WellFormed(w) && StackOk(w, s) && StackIsPath(w, s) && name in w.defs && Called(w, s, name, allowActive)
    requires FaultFree(w) && PrefixOf(w, s.visiting, prefix)
    ensures
      var r := Visit(w, Eager, s, name, prefix, allowActive).1;
      r.Err? && r.error.InvalidRoutePath? ==> CycleAt(w, s, name)
    decreases Unvisited(w, s), 1
  {
    hide FaultFree, StackOk, WellFormed, ModuleRoutePrefix, GoodFailure, PrefixOf, StackIsPath;
    if name in s.visiting {
      ActiveIsVisiting(w, s, name);
      if !allowActive {
        RepeatedIsCyclic(w, s, name);
      }
    } else if name !in s.registered {
      PrefixGrows(w, s.visiting, prefix, name);
      var own := ModuleRoutePrefix(prefix, w.defs[name].routePrefix).value;
      var h := Handle(name, HandleId(0, s.created));
      EnterShrinks(w, s, h);
      EnterKeepsStack(w, s, h, allowActive);
      forall e | e in Edges(w, name) ensures Called(w, Enter(s, h), e.target, e.forward) {
        EdgeIsEdge(w, name, e);
      }
      PrefixFailureIsCyclicBelow(w, Enter(s, h), name, Edges(w, name), own);
      CycleRises(w, s, name, Enter(s, h));
    }
  }

  /** Which error an ordinary import of an active module gets: the cyclic-import error when
      the prefix above shares no parameter with the module's own, and otherwise the error of
      an invalid route path, although the cause is the cycle. */
  lemma RepeatedModuleError(w: World, s: Walk, name: Name, prefix: string)
    requires WellFormed(w) && StackOk(w, s) && name in w.defs && name in s.visiting && !IsBlank(name)
    requires Joinable(prefix) && (w.defs[name].routePrefix.Some? ==> Joinable(w.defs[name].routePrefix.value))
    ensures
      var r := Visit(w, Eager, s, name, prefix, false).1;
      && r.Err?
      && (r.error.CyclicImport? <==> PathParams(prefix) !! ModuleParams(w, name))
      && (r.error.InvalidRoutePath? <==> !(PathParams(prefix) !! ModuleParams(w, name)))
  {
    hide IsBlank, PathParams, Joinable, StackOk;
    ActiveIsVisiting(w, s, name);
    NotRegistered(w, s, name);
    OwnPrefix(prefix, w.defs[name].routePrefix);
  }

  lemma NotRegistered(w: World, s: Walk, name: Name)
    requires StackOk(w, s) && name in s.visiting
    ensures name !in s.registered
  {
  }

  lemma OwnPrefix(prefix: string, own: Option<string>)
    requires Joinable(prefix) && (own.Some? ==> Joinable(own.value))
    ensures
      var params := if own.Some? then PathParams(own.value) else {};
      ModuleRoutePrefix(prefix, own).Ok? <==> PathParams(prefix) !! params
  {
    hide ValidRoutePath;
    if own.Some? && own.value != "" {
      JoinablePathsJoinIff(prefix, own.value);
    }
  }

  lemma RepeatedIsCyclic(w: World, s: Walk, name: Name)
    requires StackIsPath(w, s) && name in s.visiting && Called(w, s, name, false)
    ensures CycleAt(w, s, name)
  {
    CycleIsGenuine(w, s, name);
    assert GoodFailure(w, Eager, s, name, CyclicImport(CycleChain(s.visiting, name)));
  }

  /** A cycle below an edge of the innermost active module. */
  ghost predicate CycleBelow(w: World, s: Walk, name: Name)
  {
    exists target :: HasEdge(w, name, target) && CycleAt(w, s, target)
  }

  lemma CycleRises(w: World, s: Walk, name: Name, s2: Walk)
    requires name in w.defs && s2.visiting == s.visiting + [name]
    ensures CycleBelow(w, s2, name) ==> CycleAt(w, s, name)
  {
    hide GoodFailure;
    if CycleBelow(w, s2, name) {
      var target :| HasEdge(w, name, target) && CycleAt(w, s2, target);
      var chain :| GoodFailure(w, Eager, s2, target, CyclicImport(chain));
      FailureRises(w, Eager, s, name, s2, target, CyclicImport(chain));
    }
  }

  lemma SameStackSameCycles(w: World, s: Walk, t: Walk, from: Name)
    requires s.visiting == t.visiting
    ensures CycleAt(w, s, from) <==> CycleAt(w, t, from)
  {
  }

  lemma {:induction false} PrefixFailureIsCyclicBelow(w: World, s: Walk, name: Name, edges: seq<Edge>, prefix: string)
    requires WellFormed(w) && StackOk(w, s) && StackIsPath(w, s)
    requires forall e :: e in edges ==>
      e.target in w.defs && Called(w, s, e.target, e.forward) && HasEdge(w, name, e.target)
    requires FaultFree(w) && PrefixOf(w, s.visiting, prefix)
    ensures
      var r := VisitAll(w, Eager, s, edges, prefix).1;
      r.Err? && r.error.InvalidRoutePath? ==> CycleBelow(w, s, name)
    decreases Unvisited(w, s), |edges| + 1
  {
    hide Visit, FaultFree, StackOk, WellFormed, PrefixOf, GoodFailure, CycleAt, HasEdge;
    if edges != [] {
      PrefixFailureIsCyclic(w, s, edges[0].target, prefix, edges[0].forward);
      var (s1, first) := Visit(w, Eager, s, edges[0].target, prefix, edges[0].forward);
      if first.Ok? {
        assert forall e :: e in edges[1..] ==> e in edges;
        PrefixFailureIsCyclicBelow(w, s1, name, edges[1..], prefix);
        SameCyclesBelow(w, s, s1, name);
      }
    }
  }

  lemma SameCyclesBelow(w: World, s: Walk, t: Walk, name: Name)
    requires s.visiting == t.visiting
    ensures CycleBelow(w, s, name) <==> CycleBelow(w, t, name)
  {
    forall target ensures CycleAt(w, s, target) <==> CycleAt(w, t, target) {
      SameStackSameCycles(w, s, t, target);
    }
  }

  ghost predicate CycleReached(w: World, roots: seq<Name>, chain: seq<Name>)
  {
    GenuineCycle(w, chain) && ReachableFrom(w, roots, chain[0])
  }

  lemma {:induction false} PrefixFaultIsCyclic(w: World, s: Walk, roots: seq<Name>)
    requires RootsExist(w, roots) && StackOk(w, s) && s.visiting == [] && FaultFree(w)
    ensures
      var r := RegisterAll(w, s, roots).1;
      r.Err? && r.error.InvalidRoutePath? ==> exists chain :: CycleReached(w, roots, chain)
    decreases |roots|
  {
    hide Visit, FaultFree, StackOk, WellFormed, Reachable;
    if roots != [] {
      assert PrefixOf(w, s.visiting, "");
      PrefixFailureIsCyclic(w, s, roots[0], "", false);
      var (s1, first) := Visit(w, Eager, s, roots[0], "", false);
      if first.Ok? {
        PrefixFaultIsCyclic(w, s1, roots[1..]);
        if chain :| CycleReached(w, roots[1..], chain) {
          var i :| 0 <= i < |roots[1..]| && Reachable(w, roots[1..][i], chain[0]);
          assert roots[i + 1] == roots[1..][i];
          assert CycleReached(w, roots, chain);
        }
      } else if first.error.InvalidRoutePath? {
        var chain :| GoodFailure(w, Eager, s, roots[0], CyclicImport(chain));
        assert CycleReached(w, roots, chain);
      }
    }
  }

  /** Without module faults a registration can only fail where the roots reach a genuine
      cycle; the error carries one, unless a prefix with parameters is refused first. */
  lemma FaultFreeFailureIsCyclic(w: World, roots: seq<Name>)
    requires RootsExist(w, roots) && FaultFree(w)
    ensures
      var r := RegisterAll(w, EMPTY_WALK, roots).1;
      r.Err? ==>
        && (r.error.CyclicImport? || r.error.InvalidRoutePath?)
        && (r.error.CyclicImport? ==> CycleReached(w, roots, r.error.chain))
        && (exists chain :: CycleReached(w, roots, chain))
  {
    hide FaultFree, StackOk, WellFormed;
    FailureIsGenuine(w, roots);
    EmptyStack(w);
    PrefixFaultIsCyclic(w, EMPTY_WALK, roots);
    var r := RegisterAll(w, EMPTY_WALK, roots).1;
    if r.Err? {
      var i :| 0 <= i < |roots| && GoodFailure(w, Eager, EMPTY_WALK, roots[i], r.error);
      NoOtherFault(w, EMPTY_WALK, roots[i], r.error);
      if r.error.CyclicImport? {
        assert CycleReached(w, roots, r.error.chain);
      }
    }
  }

  lemma EmptyStack(w: World)
    ensures StackOk(w, EMPTY_WALK)
  {
  }

  lemma NoOtherFault(w: World, s: Walk, from: Name, e: BootError)
    requires FaultFree(w) && GoodFailure(w, Eager, s, from, e)
    ensures e.CyclicImport? || e.InvalidRoutePath?
  {
  }

  /** A single root that registers is the last one to be recorded. */
  lemma SoleRootIsLast(w: World, root: Name)
    requires RootsExist(w, [root]) && RegisterAll(w, EMPTY_WALK, [root]).1.Ok?
    ensures
      var pending := RegisterAll(w, EMPTY_WALK, [root]).0.pending;
      |pending| > 0 && pending[|pending| - 1].handle.name == root
  {
    hide Visit;
    assert [root][1..] == [];
    var (s, r) := Visit(w, Eager, EMPTY_WALK, root, "", false);
    assert RegisterAll(w, s, []) == (s, Ok(()));
    NewModuleIsLast(w, EMPTY_WALK, root, "", false);
  }

  lemma NewModuleIsLast(w: World, s: Walk, name: Name, prefix: string, allowActive: bool)
    requires WellFormed(w) && StackOk(w, s) && name in w.defs
    requires name !in s.registered && name !in s.active && name !in s.visiting
    ensures
      var (s', r) := Visit(w, Eager, s, name, prefix, allowActive);
      r.Ok? ==> |s'.pending| > 0 && s'.pending[|s'.pending| - 1].handle.name == name
  {
    hide StackOk, IsBlank, VisitAll, ModuleRoutePrefix;
    var (s', r) := Visit(w, Eager, s, name, prefix, allowActive);
    if r.Ok? {
      assert (s', r) == VisitNew(w, Eager, s, name, ModuleRoutePrefix(prefix, w.defs[name].routePrefix).value);
    }
  }

  /** Whatever else the graph holds, a closed walk that ends with an ordinary import can
      not be registered from the module that this import leads to. */
  lemma GenuineCycleIsRejected(w: World, chain: seq<Name>)
    requires WellFormed(w) && GenuineCycle(w, chain)
    ensures RootsExist(w, [chain[0]]) && RegisterAll(w, EMPTY_WALK, [chain[0]]).1.Err?
  {
    hide RegisterAll, IsPath, Reachable;
    var root, importer := chain[0], chain[|chain| - 2];
    ImportExists(w, importer, root);
    var (s, r) := RegisterAll(w, EMPTY_WALK, [root]);
    if r.Ok? {
      RegistrationIsTopological(w, [root]);
      SoleRootIsLast(w, root);
      WalkReaches(w, chain);
      assert ReachableFrom(w, [root], importer) by {
        assert [root][0] == root;
      }
      RootIsNotEarlier(w, s.pending, root, importer);
      assert false;
    }
  }

  lemma ImportExists(w: World, a: Name, b: Name)
    requires WellFormed(w) && HasImport(w, a, b)
    ensures b in w.defs
  {
  }

  lemma WalkReaches(w: World, chain: seq<Name>)
    requires GenuineCycle(w, chain)
    ensures Reachable(w, chain[0], chain[|chain| - 2])
  {
    var path := chain[..|chain| - 1];
    forall i | 0 <= i < |path| - 1 ensures HasEdge(w, path[i], path[i + 1]) {
      assert HasEdge(w, chain[i], chain[i + 1]);
    }
    assert IsPath(w, path) && path[0] == chain[0] && path[|path| - 1] == chain[|chain| - 2];
  }

  /** The last module of a sorted list is imported by no module of the list. */
  lemma RootIsNotEarlier(w: World, pending: seq<Entry>, root: Name, importer: Name)
    requires TopologicallySorted(w, pending)
    requires |pending| > 0 && pending[|pending| - 1].handle.name == root
    requires Before(pending, |pending|, importer)
    ensures !HasImport(w, importer, root)
  {
    var i :| 0 <= i < |pending| && pending[i].handle.name == importer;
    assert !Before(pending, i, root);
  }

  /** The exact condition under which the outcome does not depend on where the search
      starts: a fault-free graph registers from every list of roots exactly when it has no
      closed walk that ends with an ordinary import. */
  lemma EveryRootRegistersIff(w: World)
    requires WellFormed(w) && FaultFree(w)
    ensures (forall roots :: RootsExist(w, roots) ==> RegisterAll(w, EMPTY_WALK, roots).1.Ok?)
       <==> !exists chain :: GenuineCycle(w, chain)
  {
    forall chain | GenuineCycle(w, chain)
      ensures RootsExist(w, [chain[0]]) && RegisterAll(w, EMPTY_WALK, [chain[0]]).1.Err?
    {
      GenuineCycleIsRejected(w, chain);
    }
    forall roots | RootsExist(w, roots) && RegisterAll(w, EMPTY_WALK, roots).1.Err?
      ensures exists chain :: GenuineCycle(w, chain)
    {
      FaultFreeFailureIsCyclic(w, roots);
      var chain :| CycleReached(w, roots, chain);
      assert GenuineCycle(w, chain);
    }
  }

  ghost predicate NoForwardImports(w: World)
  {
    forall n :: n in w.defs ==> w.defs[n].forwards == []
  }

  /** Without forward imports and module faults, registration succeeds exactly when
      the roots reach no cycle. */
  lemma SucceedsIffNoCycleReachable(w: World, roots: seq<Name>)
    requires RootsExist(w, roots) && FaultFree(w) && NoForwardImports(w)
    ensures RegisterAll(w, EMPTY_WALK, roots).1.Ok?
      <==> !exists chain :: OrdinaryCycle(w, chain) && ReachableFrom(w, roots, chain[0])
  {
    var (s, r) := RegisterAll(w, EMPTY_WALK, roots);
    FaultFreeFailureIsCyclic(w, roots);
    if r.Err? {
      var chain :| CycleReached(w, roots, chain);
      assert IsPath(w, chain);
      forall i | 0 <= i < |chain| - 1 ensures HasImport(w, chain[i], chain[i + 1]) {
        assert HasEdge(w, chain[i], chain[i + 1]);
      }
      assert OrdinaryCycle(w, chain) && ReachableFrom(w, roots, chain[0]);
    }
    forall chain | OrdinaryCycle(w, chain) && ReachableFrom(w, roots, chain[0]) ensures r.Err? {
      OrdinaryCycleIsRejected(w, roots, chain);
    }
  }

  /** Two modules: "a" imports "b" forward, "b" imports "a" ordinarily. */
  const ROOT_DEPENDENT := World(map[
    "a" := ModuleDef([], ["b"], None, false, false),
    "b" := ModuleDef(["a"], [], None, false, false)])

  /** Success depends on where the search starts: from "b" the graph registers,
      from "a" it is refused as cyclic. */
  lemma OutcomeDependsOnRoot()
    ensures RootsExist(ROOT_DEPENDENT, ["a"]) && RootsExist(ROOT_DEPENDENT, ["b"])
    ensures RegisterAll(ROOT_DEPENDENT, EMPTY_WALK, ["b"]).1.Ok?
    ensures RegisterAll(ROOT_DEPENDENT, EMPTY_WALK, ["a"]).1 == Err(CyclicImport(["a", "b", "a"]))
  {
    RootAFails();
    RootBRegisters();
  }

  /** A fault-free module with a single import fails or succeeds with that import. */
  lemma SingleImport(w: World, s: Walk, name: Name, edge: Edge, allowActive: bool)
    requires WellFormed(w) && StackOk(w, s) && name in w.defs && edge.target in w.defs
    requires !IsBlank(name) && w.defs[name].routePrefix.None? && !w.defs[name].setupFails
    requires name !in s.visiting && name !in s.registered && Edges(w, name) == [edge]
    ensures
      var h := Handle(name, HandleId(0, s.created));
      && StackOk(w, Enter(s, h))
      && Visit(w, Eager, s, name, "", allowActive).1 ==
         match Visit(w, Eager, Enter(s, h), edge.target, "", edge.forward).1
         case Ok(_) => Ok(h)
         case Err(e) => Err(e)
  {
    hide IsBlank, StackOk, JoinPaths, CycleChain;
    var h := Handle(name, HandleId(0, s.created));
    EnterShrinks(w, s, h);
    VisitNewSingle(w, s, name, edge);
    ActiveIsVisiting(w, s, name);
    assert ModuleRoutePrefix("", None) == Ok("");
    assert Admit(w, Eager, s, name, "") == Ok("");
  }

  lemma ActiveIsVisiting(w: World, s: Walk, name: Name)
    requires StackOk(w, s)
    ensures name in s.active <==> name in s.visiting
  {
  }

  lemma VisitNewSingle(w: World, s: Walk, name: Name, edge: Edge)
    requires WellFormed(w) && StackOk(w, s) && name in w.defs && edge.target in w.defs
    requires !w.defs[name].setupFails
    requires name !in s.visiting && name !in s.registered && Edges(w, name) == [edge]
    ensures
      var h := Handle(name, HandleId(0, s.created));
      && StackOk(w, Enter(s, h))
      && VisitNew(w, Eager, s, name, "").1 ==
         match Visit(w, Eager, Enter(s, h), edge.target, "", edge.forward).1
         case Ok(_) => Ok(h)
         case Err(e) => Err(e)
  {
    hide Visit, StackOk;
    var h := Handle(name, HandleId(0, s.created));
    EnterShrinks(w, s, h);
    var (s1, first) := Visit(w, Eager, Enter(s, h), edge.target, "", edge.forward);
    assert [edge][1..] == [];
    assert VisitAll(w, Eager, s1, [], "") == (s1, Ok([]));
  }

  lemma RootDependentEdges()
    ensures WellFormed(ROOT_DEPENDENT)
    ensures Edges(ROOT_DEPENDENT, "a") == [Edge("b", true)]
    ensures Edges(ROOT_DEPENDENT, "b") == [Edge("a", false)]
    ensures !IsBlank("a") && !IsBlank("b")
  {
  }

  /** The ordinary import of an active module is refused with its cycle. */
  lemma ActiveImportFails(w: World, s: Walk, name: Name)
    requires WellFormed(w) && StackOk(w, s) && name in w.defs && name in s.visiting
    requires !IsBlank(name) && w.defs[name].routePrefix.None?
    ensures Visit(w, Eager, s, name, "", false) == (s, Err(CyclicImport(CycleChain(s.visiting, name))))
  {
    hide IsBlank, JoinPaths, CycleChain;
    ActiveIsVisiting(w, s, name);
    assert name !in s.registered;
    assert ModuleRoutePrefix("", None) == Ok("");
  }

  lemma RootAFails()
    ensures RootsExist(ROOT_DEPENDENT, ["a"])
    ensures RegisterAll(ROOT_DEPENDENT, EMPTY_WALK, ["a"]).1 == Err(CyclicImport(["a", "b", "a"]))
  {
    hide IsBlank, Visit, Edges;
    RootDependentEdges();
    var w := ROOT_DEPENDENT;
    var inA := Enter(EMPTY_WALK, Handle("a", HandleId(0, 0)));
    var inAB := Enter(inA, Handle("b", HandleId(0, 1)));
    SingleImport(w, EMPTY_WALK, "a", Edge("b", true), false);
    SingleImport(w, inA, "b", Edge("a", false), true);
    assert inAB.visiting == ["a", "b"] && CycleChain(["a", "b"], "a") == ["a", "b", "a"];
    ActiveImportFails(w, inAB, "a");
  }

  lemma RootBRegisters()
    ensures RootsExist(ROOT_DEPENDENT, ["b"])
    ensures RegisterAll(ROOT_DEPENDENT, EMPTY_WALK, ["b"]).1.Ok?
  {
    hide IsBlank, Admit, VisitNew, Edges;
    RootDependentEdges();
    var w, b := ROOT_DEPENDENT, Handle("b", HandleId(0, 0));
    var inB := Enter(EMPTY_WALK, b);
    var inBA := Enter(inB, Handle("a", HandleId(0, 1)));
    SingleImport(w, EMPTY_WALK, "b", Edge("a", false), false);
    SingleImport(w, inB, "a", Edge("b", true), false);
    assert Visit(w, Eager, inBA, "b", "", true) == (inBA, Ok(b));
  }
}
