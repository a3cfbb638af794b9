/** What every visit of the depth-first walk keeps, and what it adds. */
module WalkInvariant {
  import opened Results
  import opened Text
  import opened ModuleGraph
  import opened ModuleWalk

  ghost predicate CacheExtends(a: Cache, b: Cache)
  {
    forall n :: n in a ==> n in b && b[n] == a[n]
  }

  /** Other loaders only ever add to the shared cache, under the module's own name. */
  ghost predicate MonotoneView(mode: Mode)
  {
    mode.Lazy? ==>
      && (forall i: nat, j: nat :: i <= j ==> CacheExtends(mode.view(i), mode.view(j)))
      && (forall i: nat, n :: n in mode.view(i) ==> mode.view(i)[n].handle.name == n)
  }

  /** `h` is the handle that stands for module `m`: registered, active, or cached. */
  ghost predicate Resolves(mode: Mode, s: Walk, h: Handle, m: Name)
  {
    || (m in s.registered && s.registered[m] == h)
    || (m in s.active && s.active[m] == h)
    || (m in CacheNow(mode, s) && CacheNow(mode, s)[m].handle == h)
  }

  ghost predicate Before(pending: seq<Entry>, i: nat, m: Name)
  {
    exists j :: 0 <= j < i && j < |pending| && pending[j].handle.name == m
  }

  ghost predicate Settled(mode: Mode, s: Walk, m: Name)
  {
    m in s.registered || m in CacheNow(mode, s)
  }

  /** `pending` lists the registered modules, each once, with their handles. */
  ghost predicate PendingOk(w: World, s: Walk)
  {
    && (forall i, j :: 0 <= i < j < |s.pending| ==> s.pending[i].handle.name != s.pending[j].handle.name)
    && (forall i :: 0 <= i < |s.pending| ==>
          && s.pending[i].handle.name in s.registered
          && s.registered[s.pending[i].handle.name] == s.pending[i].handle)
    && (forall n :: n in s.registered ==> Before(s.pending, |s.pending|, n))
    && s.registered.Keys <= w.defs.Keys
  }

  /** Every ordinary import stands strictly earlier in `pending`, or was cached. */
  ghost predicate ImportsFirst(w: World, mode: Mode, s: Walk)
  {
    forall i, m :: 0 <= i < |s.pending| && HasImport(w, s.pending[i].handle.name, m) ==>
      Before(s.pending, i, m) || m in CacheNow(mode, s)
  }

  /** The handles held by an entry stand for its imports, edge by edge. */
  ghost predicate EntryLinked(w: World, mode: Mode, s: Walk, e: Entry)
  {
    && e.handle.name in w.defs
    && |e.imported| == |Edges(w, e.handle.name)|
    && forall j :: 0 <= j < |e.imported| ==> Resolves(mode, s, e.imported[j], Edges(w, e.handle.name)[j].target)
  }

  ghost predicate Linked(w: World, mode: Mode, s: Walk)
  {
    forall i :: 0 <= i < |s.pending| ==> EntryLinked(w, mode, s, s.pending[i])
  }

  ghost predicate OwnHandle(mode: Mode, s: Walk, n: Name, h: Handle)
  {
    h.name == n && h.id.owner == Owner(mode) && h.id.serial < s.created
  }

  /** Handles carry their module's name and the walk's own, already used, identities. */
  ghost predicate HandlesOk(mode: Mode, s: Walk)
  {
    && (forall n :: n in s.registered ==> OwnHandle(mode, s, n, s.registered[n]))
    && (forall n :: n in s.active ==> OwnHandle(mode, s, n, s.active[n]))
  }

  ghost predicate StackIsPath(w: World, s: Walk)
  {
    forall i :: 0 <= i < |s.visiting| - 1 ==> HasEdge(w, s.visiting[i], s.visiting[i + 1])
  }

  ghost predicate NoGlobals(w: World, mode: Mode, s: Walk)
  {
    mode.Lazy? ==> forall n :: n in s.registered ==> n in w.defs && !w.defs[n].isGlobal
  }

  /** The module was not cached when the lazy loader first looked. */
  ghost predicate Uncached(mode: Mode, n: Name)
  {
    mode.Lazy? ==> n !in mode.view(0)
  }

  ghost predicate AllUncached(mode: Mode, s: Walk)
  {
    (forall n :: n in s.registered ==> Uncached(mode, n)) && (forall n :: n in s.active ==> Uncached(mode, n))
  }

  ghost predicate Inv(w: World, mode: Mode, s: Walk)
  {
    && WellFormed(w) && MonotoneView(mode)
    && StackOk(w, s) && StackIsPath(w, s)
    && PendingOk(w, s) && ImportsFirst(w, mode, s) && Linked(w, mode, s)
    && HandlesOk(mode, s) && NoGlobals(w, mode, s) && AllUncached(mode, s)
  }

  lemma InvBasics(w: World, mode: Mode, s: Walk)
    requires Inv(w, mode, s)
    ensures WellFormed(w) && MonotoneView(mode) && StackOk(w, s) && StackIsPath(w, s)
    ensures forall n :: n in s.active <==> n in s.visiting
  {
  }

  /** The visit is made for the innermost active module, or for a root. */
  ghost predicate Called(w: World, s: Walk, name: Name, allowActive: bool)
  {
    s.visiting != [] ==>
      var caller := s.visiting[|s.visiting| - 1];
      && HasEdge(w, caller, name)
      && (!allowActive ==> HasImport(w, caller, name))
  }

  ghost predicate Grown(s: Walk, s': Walk)
  {
    && s'.active == s.active && s'.visiting == s.visiting
    && (forall n :: n in s.registered ==> n in s'.registered && s'.registered[n] == s.registered[n])
    && s.pending <= s'.pending
    && s.created <= s'.created && s.lookups <= s'.lookups
  }

  lemma GrownTransitive(a: Walk, b: Walk, c: Walk)
    requires Grown(a, b) && Grown(b, c)
    ensures Grown(a, c)
  {
  }

  lemma ResolvesGrows(mode: Mode, s: Walk, s': Walk, h: Handle, m: Name)
    requires MonotoneView(mode) && Grown(s, s') && Resolves(mode, s, h, m)
    ensures Resolves(mode, s', h, m)
  {
    CacheGrows(mode, s, s');
  }

  lemma CacheGrows(mode: Mode, s: Walk, s': Walk)
    requires MonotoneView(mode) && s.lookups <= s'.lookups
    ensures CacheExtends(CacheNow(mode, s), CacheNow(mode, s'))
  {
  }

  /** A failure has a cause of its kind in a reachable module, which the lazy loader did not
      find in the cache; a cycle error names a genuine cycle through an active or reachable
      module. */
  ghost predicate GoodFailure(w: World, mode: Mode, s: Walk, from: Name, e: BootError)
  {
    match e
    case EmptyModuleName => exists n :: Reachable(w, from, n) && n in w.defs && IsBlank(n)
    case CyclicImport(chain) =>
      && GenuineCycle(w, chain) && (chain[0] in s.visiting || Reachable(w, from, chain[0]))
      && (forall n :: n in chain ==> Uncached(mode, n))
    case LazyGlobal(n) =>
      mode.Lazy? && Reachable(w, from, n) && n in w.defs && w.defs[n].isGlobal && Uncached(mode, n)
    case SetupFailed(n) => Reachable(w, from, n) && n in w.defs && w.defs[n].setupFails && Uncached(mode, n)
    case InvalidRoutePath(_) =>
      mode.Eager? && exists n :: Reachable(w, from, n) && n in w.defs && w.defs[n].routePrefix.Some?
    case _ => false
  }

  lemma {:induction false} CycleChainIsSuffix(visiting: seq<Name>, name: Name)
    requires name in visiting
    ensures exists k ::
              0 <= k < |visiting| && visiting[k] == name && CycleChain(visiting, name) == visiting[k..] + [name]
  {
    if visiting[0] == name {
      assert visiting[0..] == visiting;
    } else {
      CycleChainIsSuffix(visiting[1..], name);
      var k :| 0 <= k < |visiting[1..]| && visiting[1..][k] == name
        && CycleChain(visiting[1..], name) == visiting[1..][k..] + [name];
      assert visiting[1..][k..] == visiting[k + 1..];
      assert visiting[k + 1] == name;
    }
  }

  lemma PathSuffix(w: World, path: seq<Name>, k: nat, name: Name)
    requires IsPath(w, path) && k < |path| && HasEdge(w, path[|path| - 1], name)
    ensures IsPath(w, path[k..] + [name])
  {
    var chain := path[k..] + [name];
    forall i | 0 <= i < |chain| - 1 ensures HasEdge(w, chain[i], chain[i + 1]) {
      assert chain[i] == path[k + i];
      if k + i + 1 < |path| {
        assert chain[i + 1] == path[k + i + 1];
      }
    }
  }

  lemma CycleIsGenuine(w: World, s: Walk, name: Name)
    requires StackIsPath(w, s) && name in s.visiting && Called(w, s, name, false)
    ensures GenuineCycle(w, CycleChain(s.visiting, name)) && CycleChain(s.visiting, name)[0] in s.visiting
  {
    CycleChainIsSuffix(s.visiting, name);
    var k :| 0 <= k < |s.visiting| && s.visiting[k] == name && CycleChain(s.visiting, name) == s.visiting[k..] + [name];
    PathSuffix(w, s.visiting, k, name);
  }

  lemma AdmitFailure(w: World, mode: Mode, s: Walk, name: Name, parentPrefix: string, allowActive: bool)
    requires StackOk(w, s) && StackIsPath(w, s) && name in w.defs && Called(w, s, name, allowActive)
    requires allowActive ==> name !in s.active
    requires AllUncached(mode, s) && Uncached(mode, name)
    requires Admit(w, mode, s, name, parentPrefix).Err?
    ensures GoodFailure(w, mode, s, name, Admit(w, mode, s, name, parentPrefix).error)
  {
    hide IsPath, Reachable, CycleChain, ModuleRoutePrefix, GenuineCycle, Uncached;
    ReachableSelf(w, name);
    if name in s.visiting {
      CycleIsGenuine(w, s, name);
      CycleChainIsActive(s.visiting, name);
    }
  }

  lemma {:induction false} CycleChainIsActive(visiting: seq<Name>, name: Name)
    requires name in visiting
    ensures forall n :: n in CycleChain(visiting, name) ==> n in visiting
  {
    if visiting[0] != name {
      CycleChainIsActive(visiting[1..], name);
    }
  }

  lemma FailureRises(w: World, mode: Mode, s: Walk, name: Name, s2: Walk, target: Name, e: BootError)
    requires name in w.defs && HasEdge(w, name, target)
    requires s2.visiting == s.visiting + [name]
    requires GoodFailure(w, mode, s2, target, e)
    ensures GoodFailure(w, mode, s, name, e)
  {
    match e
    case EmptyModuleName =>
      var n :| Reachable(w, target, n) && n in w.defs && IsBlank(n);
      ReachableStep(w, name, target, n);
    case InvalidRoutePath(_) =>
      var n :| Reachable(w, target, n) && n in w.defs && w.defs[n].routePrefix.Some?;
      ReachableStep(w, name, target, n);
    case CyclicImport(chain) =>
      ReachableSelf(w, name);
      if Reachable(w, target, chain[0]) {
        ReachableStep(w, name, target, chain[0]);
      }
    case LazyGlobal(n) => ReachableStep(w, name, target, n);
    case SetupFailed(n) => ReachableStep(w, name, target, n);
    case _ =>
  }

  lemma CountReadKeeps(w: World, mode: Mode, s: Walk)
    requires Inv(w, mode, s)
    ensures Inv(w, mode, CountRead(mode, s)) && Grown(s, CountRead(mode, s))
  {
    CacheGrows(mode, s, CountRead(mode, s));
  }

  lemma EnterKeepsLinked(w: World, mode: Mode, s: Walk, h: Handle)
    requires Linked(w, mode, s) && h.name !in s.active
    ensures Linked(w, mode, Enter(s, h))
  {
    forall i | 0 <= i < |s.pending| ensures EntryLinked(w, mode, Enter(s, h), s.pending[i]) {
      assert EntryLinked(w, mode, s, s.pending[i]);
    }
  }

  lemma EnterKeepsStack(w: World, s: Walk, h: Handle, allowActive: bool)
    requires StackIsPath(w, s) && Called(w, s, h.name, allowActive)
    ensures StackIsPath(w, Enter(s, h))
  {
  }

  lemma EnterKeeps(w: World, mode: Mode, s: Walk, h: Handle, allowActive: bool)
    requires Inv(w, mode, s) && h.name in w.defs && Called(w, s, h.name, allowActive)
    requires h.name !in s.visiting && h.name !in s.registered
    requires h.id == HandleId(Owner(mode), s.created) && Uncached(mode, h.name)
    ensures Inv(w, mode, Enter(s, h))
  {
    var s' := Enter(s, h);
    EnterShrinks(w, s, h);
    EnterKeepsLinked(w, mode, s, h);
    EnterKeepsStack(w, s, h, allowActive);
    assert HandlesOk(mode, s');
    assert PendingOk(w, s');
    assert ImportsFirst(w, mode, s');
  }

  ghost predicate AllResolved(mode: Mode, s: Walk, handles: seq<Handle>, edges: seq<Edge>)
  {
    && |handles| == |edges|
    && (forall j :: 0 <= j < |edges| ==> Resolves(mode, s, handles[j], edges[j].target))
    && (forall j :: 0 <= j < |edges| && !edges[j].forward ==> Settled(mode, s, edges[j].target))
  }

  lemma ResolvesAfterRecord(mode: Mode, s: Walk, e: Entry, h: Handle, m: Name)
    requires Resolves(mode, s, h, m)
    requires e.handle.name in s.active && s.active[e.handle.name] == e.handle
    requires e.handle.name !in s.registered
    ensures Resolves(mode, Record(Leave(s, e.handle.name), e), h, m)
  {
  }

  lemma RecordKeepsImports(w: World, mode: Mode, s: Walk, e: Entry)
    requires Inv(w, mode, s) && e.handle.name in w.defs
    requires e.handle.name in s.active && s.active[e.handle.name] == e.handle
    requires AllResolved(mode, s, e.imported, Edges(w, e.handle.name))
    ensures ImportsFirst(w, mode, Record(Leave(s, e.handle.name), e))
  {
    var s' := Record(Leave(s, e.handle.name), e);
    forall i, m | 0 <= i < |s'.pending| && HasImport(w, s'.pending[i].handle.name, m)
      ensures Before(s'.pending, i, m) || m in CacheNow(mode, s')
    {
      if i < |s.pending| {
        assert s'.pending[i] == s.pending[i];
        if Before(s.pending, i, m) {
          var j :| 0 <= j < i && s.pending[j].handle.name == m;
          assert s'.pending[j] == s.pending[j];
        }
      } else {
        var imports := w.defs[e.handle.name].imports;
        var k :| 0 <= k < |imports| && imports[k] == m;
        assert Edges(w, e.handle.name)[k] == Edge(m, false);
        assert Settled(mode, s, m);
        if m in s.registered {
          assert Before(s.pending, |s.pending|, m);
          var j :| 0 <= j < |s.pending| && s.pending[j].handle.name == m;
          assert s'.pending[j] == s.pending[j];
        }
      }
    }
  }

  lemma RecordKeepsPending(w: World, mode: Mode, s: Walk, e: Entry)
    requires Inv(w, mode, s) && e.handle.name in w.defs && e.handle.name !in s.registered
    ensures PendingOk(w, Record(Leave(s, e.handle.name), e))
  {
    var s' := Record(Leave(s, e.handle.name), e);
    forall n | n in s'.registered ensures Before(s'.pending, |s'.pending|, n) {
      if n == e.handle.name {
        assert s'.pending[|s.pending|] == e;
      } else {
        assert Before(s.pending, |s.pending|, n);
        var j :| 0 <= j < |s.pending| && s.pending[j].handle.name == n;
        assert s'.pending[j] == s.pending[j];
      }
    }
  }

  lemma RecordKeepsLinked(w: World, mode: Mode, s: Walk, e: Entry)
    requires Linked(w, mode, s) && e.handle.name in w.defs && e.handle.name !in s.registered
    requires e.handle.name in s.active && s.active[e.handle.name] == e.handle
    requires AllResolved(mode, s, e.imported, Edges(w, e.handle.name))
    ensures Linked(w, mode, Record(Leave(s, e.handle.name), e))
  {
    var s' := Record(Leave(s, e.handle.name), e);
    forall i | 0 <= i < |s'.pending| ensures EntryLinked(w, mode, s', s'.pending[i]) {
      var entry := s'.pending[i];
      assert i < |s.pending| ==> entry == s.pending[i];
      assert EntryLinked(w, mode, s, entry);
      forall j | 0 <= j < |entry.imported|
        ensures Resolves(mode, s', entry.imported[j], Edges(w, entry.handle.name)[j].target)
      {
        ResolvesAfterRecord(mode, s, e, entry.imported[j], Edges(w, entry.handle.name)[j].target);
      }
    }
  }

  lemma LeaveKeepsStack(w: World, s: Walk, name: Name)
    requires StackOk(w, s) && StackIsPath(w, s)
    requires s.visiting != [] && s.visiting[|s.visiting| - 1] == name
    ensures StackOk(w, Leave(s, name)) && StackIsPath(w, Leave(s, name))
  {
    var s' := Leave(s, name);
    var last := |s.visiting| - 1;
    assert s'.visiting == s.visiting[..last];
    forall n ensures n in s'.active <==> n in s'.visiting {
      if n in s.visiting {
        var i :| 0 <= i < |s.visiting| && s.visiting[i] == n;
        assert i < last ==> s'.visiting[i] == n;
      }
    }
  }

  lemma RecordKeepsStack(w: World, s: Walk, e: Entry)
    requires StackOk(w, s) && StackIsPath(w, s) && e.handle.name in w.defs
    requires e.handle.name !in s.active
    ensures StackOk(w, Record(s, e)) && StackIsPath(w, Record(s, e))
  {
  }

  lemma RecordKeepsHandles(w: World, mode: Mode, s: Walk, e: Entry)
    requires HandlesOk(mode, s) && NoGlobals(w, mode, s) && AllUncached(mode, s)
    requires e.handle.name in s.active && s.active[e.handle.name] == e.handle
    requires e.handle.name in w.defs && (mode.Lazy? ==> !w.defs[e.handle.name].isGlobal)
    ensures HandlesOk(mode, Record(Leave(s, e.handle.name), e))
    ensures NoGlobals(w, mode, Record(Leave(s, e.handle.name), e))
    ensures AllUncached(mode, Record(Leave(s, e.handle.name), e))
  {
    var s' := Record(Leave(s, e.handle.name), e);
    assert OwnHandle(mode, s, e.handle.name, e.handle);
    forall n | n in s'.registered ensures OwnHandle(mode, s', n, s'.registered[n]) {
      assert n != e.handle.name ==> OwnHandle(mode, s, n, s.registered[n]);
    }
    forall n | n in s'.active ensures OwnHandle(mode, s', n, s'.active[n]) {
      assert OwnHandle(mode, s, n, s.active[n]);
    }
  }

  lemma RecordKeeps(w: World, mode: Mode, s: Walk, e: Entry)
    requires Inv(w, mode, s) && e.handle.name in w.defs
    requires s.visiting != [] && s.visiting[|s.visiting| - 1] == e.handle.name
    requires e.handle.name in s.active && s.active[e.handle.name] == e.handle
    requires AllResolved(mode, s, e.imported, Edges(w, e.handle.name))
    requires mode.Lazy? ==> !w.defs[e.handle.name].isGlobal
    ensures Inv(w, mode, Record(Leave(s, e.handle.name), e))
  {
    assert e.handle.name !in s.registered;
    RecordKeepsImports(w, mode, s, e);
    RecordKeepsPending(w, mode, s, e);
    RecordKeepsLinked(w, mode, s, e);
    RecordKeepsHandles(w, mode, s, e);
    LeaveKeepsStack(w, s, e.handle.name);
    assert e.handle.name !in Leave(s, e.handle.name).active;
    RecordKeepsStack(w, Leave(s, e.handle.name), e);
  }

  ghost predicate NewReachable(w: World, s: Walk, s': Walk, from: Name)
  {
    forall n :: n in s'.registered && n !in s.registered ==> Reachable(w, from, n)
  }

  /** What a visit from `s` to `s'` owes for module `name`. */
  ghost predicate Visited(w: World, mode: Mode, s: Walk, name: Name, allowActive: bool, s': Walk, r: Result<Handle>)
  {
    match r
    case Ok(h) =>
      && Inv(w, mode, s') && Grown(s, s') && Resolves(mode, s', h, name) && h.name == name
      && (!allowActive ==> Settled(mode, s', name))
      && NewReachable(w, s, s', name)
    case Err(e) => GoodFailure(w, mode, s, name, e)
  }

  /** A module that is cached, registered or (for a forward import) active is reused. */
  lemma KnownIsVisited(w: World, mode: Mode, s: Walk, name: Name, allowActive: bool, h: Handle)
    requires Inv(w, mode, s)
    requires
      || (name in CacheNow(mode, s) && h == CacheNow(mode, s)[name].handle)
      || (name in s.registered && h == s.registered[name])
      || (allowActive && name in s.active && h == s.active[name])
    ensures Visited(w, mode, s, name, allowActive, CountRead(mode, s), Ok(h))
  {
    CountReadKeeps(w, mode, s);
    CacheGrows(mode, s, CountRead(mode, s));
  }

  /** A module that passes the entry checks is new and, for the lazy loader, not global. */
  lemma AdmittedIsNew(w: World, mode: Mode, s: Walk, name: Name, parentPrefix: string)
    requires Inv(w, mode, s) && name in w.defs && name !in s.registered
    requires Admit(w, mode, s, name, parentPrefix).Ok?
    ensures name !in s.visiting && (mode.Lazy? ==> !w.defs[name].isGlobal)
  {
  }

  lemma NotCachedNow(mode: Mode, s: Walk, name: Name)
    requires MonotoneView(mode) && name !in CacheNow(mode, s)
    ensures Uncached(mode, name)
  {
    if mode.Lazy? {
      assert CacheExtends(mode.view(0), mode.view(s.lookups));
    }
  }

  lemma AllowedUncached(w: World, mode: Mode, s: Walk)
    requires Inv(w, mode, s)
    ensures AllUncached(mode, s)
  {
  }

  lemma VisitedAfterRead(w: World, mode: Mode, s: Walk, name: Name, allowActive: bool, s': Walk, r: Result<Handle>)
    requires Inv(w, mode, s) && Visited(w, mode, CountRead(mode, s), name, false, s', r)
    ensures Visited(w, mode, s, name, allowActive, s', r)
  {
    CountReadKeeps(w, mode, s);
  }

  /** One visit keeps the invariant, returns a handle that stands for the module,
      adds reachable modules only, and fails only for a genuine reason. */
  lemma {:induction false} VisitKeeps(
    w: World, mode: Mode, s: Walk, name: Name, parentPrefix: string, allowActive: bool)
    requires Inv(w, mode, s) && name in w.defs && Called(w, s, name, allowActive)
    ensures
      var (s', r) := Visit(w, mode, s, name, parentPrefix, allowActive);
      Visited(w, mode, s, name, allowActive, s', r)
    decreases Unvisited(w, s), 1
  {
    hide Inv, StackOk, MonotoneView, WellFormed, IsBlank, Admit, CacheNow, Resolves, Settled, NewReachable, VisitNew,
         StackIsPath, Uncached;
    InvBasics(w, mode, s);
    CountReadKeeps(w, mode, s);
    var s1 := CountRead(mode, s);
    InvBasics(w, mode, s1);
    ReachableSelf(w, name);
    if IsBlank(name) {
    } else if name in CacheNow(mode, s) {
      KnownIsVisited(w, mode, s, name, allowActive, CacheNow(mode, s)[name].handle);
    } else if name in s1.registered {
      KnownIsVisited(w, mode, s, name, allowActive, s.registered[name]);
    } else if allowActive && name in s1.active {
      KnownIsVisited(w, mode, s, name, allowActive, s.active[name]);
    } else {
      match Admit(w, mode, s1, name, parentPrefix)
      case Err(e) =>
        NotCachedNow(mode, s, name);
        AllowedUncached(w, mode, s1);
        AdmitFailure(w, mode, s1, name, parentPrefix, allowActive);
      case Ok(prefix) =>
        AdmittedIsNew(w, mode, s1, name, parentPrefix);
        NotCachedNow(mode, s, name);
        VisitNewKeeps(w, mode, s1, name, prefix, allowActive);
        var (s', r) := VisitNew(w, mode, s1, name, prefix);
        VisitedAfterRead(w, mode, s, name, allowActive, s', r);
    }
  }

  lemma {:induction false} VisitNewKeeps(w: World, mode: Mode, s: Walk, name: Name, prefix: string, allowActive: bool)
    requires Inv(w, mode, s) && name in w.defs && Called(w, s, name, allowActive)
    requires name !in s.visiting && name !in s.registered
    requires mode.Lazy? ==> !w.defs[name].isGlobal
    requires Uncached(mode, name)
    ensures
      var (s', r) := VisitNew(w, mode, s, name, prefix);
      Visited(w, mode, s, name, false, s', r)
    decreases Unvisited(w, s), 0
  {
    hide Inv, StackOk, MonotoneView, WellFormed, Resolves, Settled, NewReachable, AllResolved, GoodFailure,
         FailsBelow, Leave, Record;
    InvBasics(w, mode, s);
    var h := Handle(name, HandleId(Owner(mode), s.created));
    var s2 := Enter(s, h);
    EnterShrinks(w, s, h);
    EnterKeeps(w, mode, s, h, allowActive);
    forall e | e in Edges(w, name) ensures Called(w, s2, e.target, e.forward) {
      EdgeIsEdge(w, name, e);
    }
    VisitAllKeeps(w, mode, s2, Edges(w, name), prefix);
    var (s3, imported) := VisitAll(w, mode, s2, Edges(w, name), prefix);
    match imported
    case Err(e) =>
      EdgeFailure(w, mode, s, name, s2, e);
    case Ok(handles) =>
      if w.defs[name].setupFails {
        ReachableSelf(w, name);
        SetupFailure(w, mode, s, name);
      } else {
        RecordIsVisited(w, mode, s, Entry(h, handles, prefix), s3);
      }
  }

  lemma SetupFailure(w: World, mode: Mode, s: Walk, name: Name)
    requires name in w.defs && w.defs[name].setupFails && Uncached(mode, name)
    ensures GoodFailure(w, mode, s, name, SetupFailed(name))
  {
    ReachableSelf(w, name);
  }

  lemma EdgeFailure(w: World, mode: Mode, s: Walk, name: Name, s2: Walk, e: BootError)
    requires name in w.defs && s2.visiting == s.visiting + [name]
    requires FailsBelow(w, mode, s2, Edges(w, name), e)
    ensures GoodFailure(w, mode, s, name, e)
  {
    var edges := Edges(w, name);
    var j :| 0 <= j < |edges| && GoodFailure(w, mode, s2, edges[j].target, e);
    EdgeIsEdge(w, name, edges[j]);
    FailureRises(w, mode, s, name, s2, edges[j].target, e);
  }

  /** Recording a module whose imports are in place completes its visit. */
  lemma RecordIsVisited(w: World, mode: Mode, s: Walk, entry: Entry, s3: Walk)
    requires Inv(w, mode, s) && entry.handle.name in w.defs
    requires entry.handle.name !in s.visiting && entry.handle.name !in s.registered
    requires mode.Lazy? ==> !w.defs[entry.handle.name].isGlobal
    requires VisitedAll(w, mode, Enter(s, entry.handle), Edges(w, entry.handle.name), s3, Ok(entry.imported))
    ensures Visited(w, mode, s, entry.handle.name, false, Record(Leave(s3, entry.handle.name), entry), Ok(entry.handle))
  {
    hide Inv, StackOk, MonotoneView, WellFormed, AllResolved;
    var name := entry.handle.name;
    InvBasics(w, mode, s);
    InvBasics(w, mode, s3);
    RecordKeeps(w, mode, s3, entry);
    LeaveRestores(w, s, entry.handle, s3);
    RecordedReachable(w, s, entry, s3);
  }

  lemma RecordedReachable(w: World, s: Walk, entry: Entry, s3: Walk)
    requires entry.handle.name in w.defs
    requires NewReachableBelow(w, Enter(s, entry.handle), s3, Edges(w, entry.handle.name))
    ensures NewReachable(w, s, Record(Leave(s3, entry.handle.name), entry), entry.handle.name)
  {
    var name := entry.handle.name;
    var edges := Edges(w, name);
    ReachableSelf(w, name);
    forall n | n in s3.registered && n !in s.registered ensures Reachable(w, name, n) {
      var j :| 0 <= j < |edges| && Reachable(w, edges[j].target, n);
      EdgeIsEdge(w, name, edges[j]);
      ReachableStep(w, name, edges[j].target, n);
    }
  }

  ghost predicate FailsBelow(w: World, mode: Mode, s: Walk, edges: seq<Edge>, e: BootError)
  {
    exists j :: 0 <= j < |edges| && GoodFailure(w, mode, s, edges[j].target, e)
  }

  ghost predicate NewReachableBelow(w: World, s: Walk, s': Walk, edges: seq<Edge>)
  {
    forall n :: n in s'.registered && n !in s.registered ==>
      exists j :: 0 <= j < |edges| && Reachable(w, edges[j].target, n)
  }

  ghost predicate VisitedAll(w: World, mode: Mode, s: Walk, edges: seq<Edge>, s': Walk, r: Result<seq<Handle>>)
  {
    match r
    case Ok(handles) =>
      Inv(w, mode, s') && Grown(s, s') && AllResolved(mode, s', handles, edges) && NewReachableBelow(w, s, s', edges)
    case Err(e) => FailsBelow(w, mode, s, edges, e)
  }

  lemma {:induction false} VisitAllKeeps(w: World, mode: Mode, s: Walk, edges: seq<Edge>, prefix: string)
    requires Inv(w, mode, s)
    requires forall e :: e in edges ==> e.target in w.defs && Called(w, s, e.target, e.forward)
    ensures
      var (s', r) := VisitAll(w, mode, s, edges, prefix);
      VisitedAll(w, mode, s, edges, s', r)
    decreases Unvisited(w, s), |edges| + 1
  {
    hide Inv, StackOk, MonotoneView, CacheNow, GoodFailure, Resolves, Settled, NewReachable, WellFormed, Admit,
         IsBlank, VisitNew;
    InvBasics(w, mode, s);
    if edges == [] {
      VisitedNothing(w, mode, s);
    } else {
      var target, rest := edges[0].target, edges[1..];
      VisitKeeps(w, mode, s, target, prefix, edges[0].forward);
      var (s1, first) := Visit(w, mode, s, target, prefix, edges[0].forward);
      if first.Ok? {
        InvBasics(w, mode, s1);
        assert forall e :: e in rest ==> e in edges && Called(w, s, e.target, e.forward);
        VisitAllKeeps(w, mode, s1, rest, prefix);
        var (s2, hs) := VisitAll(w, mode, s1, rest, prefix);
        VisitedThenRest(w, mode, s, edges, s1, first.value, s2, hs);
      } else {
        assert GoodFailure(w, mode, s, edges[0].target, first.error);
      }
    }
  }

  lemma VisitedNothing(w: World, mode: Mode, s: Walk)
    requires Inv(w, mode, s)
    ensures VisitedAll(w, mode, s, [], s, Ok([]))
  {
  }

  lemma VisitedThenRest(
    w: World, mode: Mode, s: Walk, edges: seq<Edge>, s1: Walk, h: Handle, s2: Walk, hs: Result<seq<Handle>>)
    requires edges != [] && Inv(w, mode, s)
    requires Visited(w, mode, s, edges[0].target, edges[0].forward, s1, Ok(h))
    requires VisitedAll(w, mode, s1, edges[1..], s2, hs)
    ensures VisitedAll(w, mode, s, edges, s2, match hs case Ok(tail) => Ok([h] + tail) case Err(e) => Err(e))
  {
    hide Inv, MonotoneView, Resolves, Settled, NewReachable, NewReachableBelow, FailsBelow, AllResolved;
    InvBasics(w, mode, s);
    match hs
    case Ok(tail) =>
      GrownTransitive(s, s1, s2);
      JoinResolved(mode, s1, s2, h, edges[0], tail, edges[1..]);
      assert [edges[0]] + edges[1..] == edges;
      JoinReachable(w, s, s1, s2, edges);
    case Err(e) =>
      JoinFailure(w, mode, s, s1, edges, e);
  }

  lemma JoinReachable(w: World, s: Walk, s1: Walk, s2: Walk, edges: seq<Edge>)
    requires edges != [] && NewReachable(w, s, s1, edges[0].target) && NewReachableBelow(w, s1, s2, edges[1..])
    ensures NewReachableBelow(w, s, s2, edges)
  {
    forall n | n in s2.registered && n !in s.registered
      ensures exists j :: 0 <= j < |edges| && Reachable(w, edges[j].target, n)
    {
      if n in s1.registered {
        assert Reachable(w, edges[0].target, n);
      } else {
        var j :| 0 <= j < |edges[1..]| && Reachable(w, edges[1..][j].target, n);
        assert edges[1..][j] == edges[j + 1];
      }
    }
  }

  lemma JoinFailure(w: World, mode: Mode, s: Walk, s1: Walk, edges: seq<Edge>, e: BootError)
    requires edges != [] && s1.visiting == s.visiting && FailsBelow(w, mode, s1, edges[1..], e)
    ensures FailsBelow(w, mode, s, edges, e)
  {
    var j :| 0 <= j < |edges[1..]| && GoodFailure(w, mode, s1, edges[1..][j].target, e);
    assert edges[1..][j] == edges[j + 1];
    assert GoodFailure(w, mode, s, edges[j + 1].target, e);
  }

  lemma JoinResolved(mode: Mode, s1: Walk, s2: Walk, h: Handle, edge: Edge, hs: seq<Handle>, rest: seq<Edge>)
    requires MonotoneView(mode) && Grown(s1, s2)
    requires Resolves(mode, s1, h, edge.target) && (!edge.forward ==> Settled(mode, s1, edge.target))
    requires AllResolved(mode, s2, hs, rest)
    ensures AllResolved(mode, s2, [h] + hs, [edge] + rest)
  {
    ResolvesGrows(mode, s1, s2, h, edge.target);
    CacheGrows(mode, s1, s2);
  }
}
