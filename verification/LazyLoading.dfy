/** Loading a module on demand: a private depth-first build followed by one batch
    insertion into the shared first-writer-wins cache. This module states what one
    load does when nothing else touches the cache meanwhile. */
module LazyLoading {
  import opened Results
  import opened Text
  import opened ModuleGraph
  import opened ModuleWalk
  import opened WalkInvariant
  import opened Registration
  import opened WalkRecords

  /** Insert the entries in order; a name that is already cached keeps its entry. */
  function InsertAll(c: Cache, batch: seq<Entry>): (c': Cache)
    ensures CacheExtends(c, c')
    ensures forall n :: n in c' <==> n in c || exists i :: 0 <= i < |batch| && batch[i].handle.name == n
    decreases |batch|
  {
    if batch == [] then c
    else
      var e := batch[0];
      var c1 := if e.handle.name in c then c else c[e.handle.name := e];
      var c2 := InsertAll(c1, batch[1..]);
      assert batch == [e] + batch[1..];
      c2
  }

  ghost predicate DistinctNames(batch: seq<Entry>)
  {
    forall i, j :: 0 <= i < j < |batch| ==> batch[i].handle.name != batch[j].handle.name
  }

  /** Among distinct names, an entry is inserted exactly when its name was free. */
  lemma {:induction false} InsertedEntry(c: Cache, batch: seq<Entry>, i: nat)
    requires DistinctNames(batch) && i < |batch| && batch[i].handle.name !in c
    ensures InsertAll(c, batch)[batch[i].handle.name] == batch[i]
    decreases |batch|
  {
    var c1 := if batch[0].handle.name in c then c else c[batch[0].handle.name := batch[0]];
    if i > 0 {
      assert batch[1..][i - 1] == batch[i];
      InsertedEntry(c1, batch[1..], i - 1);
    } else {
      assert CacheExtends(c1, InsertAll(c1, batch[1..]));
    }
  }

  lemma {:induction false} InsertedFromBatch(c: Cache, batch: seq<Entry>, n: Name)
    requires n in InsertAll(c, batch) && n !in c
    ensures exists i :: 0 <= i < |batch| && batch[i].handle.name == n && InsertAll(c, batch)[n] == batch[i]
    decreases |batch|
  {
    if batch[0].handle.name == n {
      assert CacheExtends(c[n := batch[0]], InsertAll(c[n := batch[0]], batch[1..]));
      assert InsertAll(c, batch)[n] == batch[0];
    } else {
      var c1 := if batch[0].handle.name in c then c else c[batch[0].handle.name := batch[0]];
      InsertedFromBatch(c1, batch[1..], n);
      var i :| 0 <= i < |batch[1..]| && batch[1..][i].handle.name == n && InsertAll(c1, batch[1..])[n] == batch[1..][i];
      assert batch[i + 1] == batch[1..][i];
    }
  }

  /** Every cached module is stored under its own name with one handle per import,
      and all its imports are cached too. */
  ghost predicate EntryClosed(w: World, c: Cache, n: Name)
    requires n in c
  {
    && n in w.defs && c[n].handle.name == n
    && |c[n].imported| == |Edges(w, n)|
    && forall j :: 0 <= j < |c[n].imported| ==> Edges(w, n)[j].target in c
  }

  ghost predicate CacheClosed(w: World, c: Cache)
  {
    forall n :: n in c ==> EntryClosed(w, c, n)
  }

  /** The module sees the very containers that are cached under its imports' names. */
  ghost predicate Coherent(w: World, c: Cache, n: Name)
    requires n in c
  {
    EntryClosed(w, c, n) &&
    forall j :: 0 <= j < |c[n].imported| ==> c[n].imported[j] == c[Edges(w, n)[j].target].handle
  }

  /** The first lookup is made by `load` itself, before the private build starts. */
  const AFTER_FIRST_LOOKUP := EMPTY_WALK.(lookups := 1)

  function PrivateBuild(w: World, owner: nat, view: nat -> Cache, name: Name): (Walk, Result<Handle>)
    requires WellFormed(w) && name in w.defs
  {
    Visit(w, Lazy(owner, view), AFTER_FIRST_LOOKUP, name, "", false)
  }

  lemma PrivateBuildKeeps(w: World, owner: nat, view: nat -> Cache, name: Name)
    requires WellFormed(w) && name in w.defs && MonotoneView(Lazy(owner, view))
    ensures
      var (s, r) := PrivateBuild(w, owner, view, name);
      && s.visiting == [] && s.active == map[]
      && Visited(w, Lazy(owner, view), AFTER_FIRST_LOOKUP, name, false, s, r)
  {
    VisitKeeps(w, Lazy(owner, view), AFTER_FIRST_LOOKUP, name, "", false);
  }

  function Unchanging(c: Cache): (view: nat -> Cache)
    ensures forall k: nat :: view(k) == c
  {
    (k: nat) => c
  }

  /** One load with the cache to itself; `startFails` says whether validating or
      initialising the new modules fails. */
  function LoadAlone(w: World, owner: nat, c: Cache, name: Name, startFails: bool): (Cache, Result<Handle>)
    requires WellFormed(w) && name in w.defs
  {
    if IsBlank(name) then (c, Err(EmptyModuleName))
    else if name in c then (c, Ok(c[name].handle))
    else
      var (s, r) := PrivateBuild(w, owner, Unchanging(c), name);
      match r
      case Err(e) => (c, Err(e))
      case Ok(loaded) =>
        if startFails then (c, Err(SetupFailed(name)))
        else
          var c' := InsertAll(c, s.pending);
          if loaded.name in c' then (c', Ok(c'[loaded.name].handle))
          else (c', Err(Internal("lazy module was initialized but not cached")))
  }

  /** What a finished private build holds: distinct, linked, local modules that were
      not cached when it began. */
  lemma BatchFacts(w: World, mode: Mode, s: Walk, i: nat)
    requires Inv(w, mode, s) && s.active == map[] && mode.Lazy? && i < |s.pending|
    ensures
      var e := s.pending[i];
      && e.handle.name in w.defs && !w.defs[e.handle.name].isGlobal
      && e.handle.name !in mode.view(0)
      && e.handle.id.owner == mode.owner
      && |e.imported| == |Edges(w, e.handle.name)|
      && forall j :: 0 <= j < |e.imported| ==> BatchImport(mode, s, e.imported[j], Edges(w, e.handle.name)[j].target)
  {
    var e := s.pending[i];
    assert EntryLinked(w, mode, s, e);
    assert OwnHandle(mode, s, e.handle.name, e.handle);
    assert Uncached(mode, e.handle.name);
    forall j | 0 <= j < |e.imported|
      ensures BatchImport(mode, s, e.imported[j], Edges(w, e.handle.name)[j].target)
    {
      var target := Edges(w, e.handle.name)[j].target;
      assert Resolves(mode, s, e.imported[j], target);
      if target in s.registered && s.registered[target] == e.imported[j] {
        assert Before(s.pending, |s.pending|, target);
        var k :| 0 <= k < |s.pending| && s.pending[k].handle.name == target;
        assert s.pending[k].handle == e.imported[j];
      }
    }
  }

  /** An import of a built module is another module of the batch or a cached one. */
  ghost predicate BatchImport(mode: Mode, s: Walk, h: Handle, target: Name)
  {
    || (exists k :: 0 <= k < |s.pending| && s.pending[k].handle.name == target && s.pending[k].handle == h)
    || (target in CacheNow(mode, s) && CacheNow(mode, s)[target].handle == h)
  }

  lemma InsertKeepsClosed(w: World, mode: Mode, s: Walk, c: Cache)
    requires Inv(w, mode, s) && s.active == map[] && mode.Lazy?
    requires CacheClosed(w, c) && CacheExtends(CacheNow(mode, s), c)
    ensures CacheClosed(w, InsertAll(c, s.pending))
  {
    hide Inv, CacheNow;
    var c' := InsertAll(c, s.pending);
    forall n | n in c' ensures EntryClosed(w, c', n) {
      if n in c {
        assert EntryClosed(w, c, n) && c'[n] == c[n];
      } else {
        InsertedFromBatch(c, s.pending, n);
        var i :| 0 <= i < |s.pending| && s.pending[i].handle.name == n && c'[n] == s.pending[i];
        BatchFacts(w, mode, s, i);
        forall j | 0 <= j < |c'[n].imported| ensures Edges(w, n)[j].target in c' {
          assert BatchImport(mode, s, c'[n].imported[j], Edges(w, n)[j].target);
        }
      }
    }
  }

  lemma CachedIsReachClosed(w: World, c: Cache, a: Name, b: Name)
    requires CacheClosed(w, c) && a in c && Reachable(w, a, b)
    ensures b in c
  {
    forall n, m | n in c.Keys && HasEdge(w, n, m) ensures m in c.Keys {
      EdgeTargetCached(w, c, n, m);
    }
    ClosedSetHoldsReachable(w, c.Keys, a, b);
  }

  lemma EdgeTargetCached(w: World, c: Cache, n: Name, m: Name)
    requires CacheClosed(w, c) && n in c && HasEdge(w, n, m)
    ensures m in c
  {
    assert EntryClosed(w, c, n);
    var imports, forwards := w.defs[n].imports, w.defs[n].forwards;
    if m in imports {
      var j :| 0 <= j < |imports| && imports[j] == m;
      assert Edges(w, n)[j].target == m;
    } else {
      var j :| 0 <= j < |forwards| && forwards[j] == m;
      assert Edges(w, n)[|imports| + j].target == m;
    }
  }

  /** What a load owes when it has the cache to itself. */
  ghost predicate LoadedExactly(w: World, c: Cache, name: Name, c': Cache, r: Result<Handle>)
  {
    match r
    case Err(e) => c' == c && !e.Internal?
    case Ok(h) =>
      && CacheExtends(c, c') && CacheClosed(w, c')
      && name in c' && c'[name].handle == h
      && (forall n :: n in c' <==> n in c || Reachable(w, name, n))
      && (forall n :: n in c' && n !in c ==> n in w.defs && !w.defs[n].isGlobal && Coherent(w, c', n))
  }

  /** A failed load leaves the cache as it was. A successful one adds exactly the
      modules it reaches, none of them global, each seeing the very containers that
      are cached under its imports' names; and its result is always found. */
  lemma LoadAloneIsExact(w: World, owner: nat, c: Cache, name: Name, startFails: bool)
    requires WellFormed(w) && name in w.defs && CacheClosed(w, c)
    ensures
      var (c', r) := LoadAlone(w, owner, c, name, startFails);
      LoadedExactly(w, c, name, c', r)
  {
    hide Visit, Inv, Reachable, CacheClosed;
    var mode := Lazy(owner, Unchanging(c));
    ClosedNames(w, c);
    assert MonotoneView(mode);
    PrivateBuildKeeps(w, owner, Unchanging(c), name);
    var (s, r) := PrivateBuild(w, owner, Unchanging(c), name);
    if !IsBlank(name) {
      if name in c {
        forall n | Reachable(w, name, n) ensures n in c {
          CachedIsReachClosed(w, c, name, n);
        }
      } else if r.Ok? && !startFails {
        BuildAloneIsExact(w, owner, c, name, s, r.value);
      }
    }
  }

  /** Nothing that a load of the module has to build is at fault: no reachable module outside
      the cache has a blank name, is global or fails to be set up, and there is no genuine
      cycle of such modules. */
  ghost predicate Loadable(w: World, c: Cache, name: Name)
  {
    && (forall n :: Reachable(w, name, n) && n in w.defs ==>
          !IsBlank(n) && (n !in c ==> !w.defs[n].isGlobal && !w.defs[n].setupFails))
    && (forall chain :: GenuineCycle(w, chain) && (forall n :: n in chain ==> n !in c) ==>
          !Reachable(w, name, chain[0]))
  }

  lemma FaultIsNotLoadable(w: World, owner: nat, view: nat -> Cache, name: Name, e: BootError)
    requires GoodFailure(w, Lazy(owner, view), AFTER_FIRST_LOOKUP, name, e)
    ensures !Loadable(w, view(0), name)
  {
  }

  /** What a successful build has recorded is free of faults. */
  lemma BuiltIsSound(w: World, owner: nat, view: nat -> Cache, name: Name, i: nat)
    requires WellFormed(w) && name in w.defs
    ensures
      var (s, r) := PrivateBuild(w, owner, view, name);
      r.Ok? && i < |s.pending| ==>
        var n := s.pending[i].handle.name;
        n in w.defs && !IsBlank(n) && !w.defs[n].isGlobal && !w.defs[n].setupFails
  {
    VisitRecords(w, Lazy(owner, view), AFTER_FIRST_LOOKUP, name, "", false);
    var (s, r) := PrivateBuild(w, owner, view, name);
    assert r.Ok? && i < |s.pending| ==> RecordedWell(w, Lazy(owner, view), [] + [name], s.pending[i]);
  }

  /** When a lone load succeeds: a cached name always, with what is cached; an uncached one
      never when validating or initialising fails, and otherwise whenever nothing that it has
      to build is at fault. What it then has built is not at fault. */
  lemma LoadSucceeds(w: World, owner: nat, c: Cache, name: Name, startFails: bool)
    requires WellFormed(w) && name in w.defs && CacheClosed(w, c)
    ensures
      var (c', r) := LoadAlone(w, owner, c, name, startFails);
      && (IsBlank(name) ==> r == Err(EmptyModuleName))
      && (!IsBlank(name) && name in c ==> r == Ok(c[name].handle) && c' == c)
      && (name !in c && startFails ==> r.Err?)
      && (name !in c && !startFails && Loadable(w, c, name) ==> r.Ok?)
      && (r.Ok? ==> forall n :: n in c' && n !in c ==> !IsBlank(n) && n in w.defs && !w.defs[n].setupFails)
  {
    hide Visit, Inv, CacheClosed, Loadable, IsBlank;
    var mode := Lazy(owner, Unchanging(c));
    assert MonotoneView(mode) by {
      ClosedNames(w, c);
    }
    PrivateBuildKeeps(w, owner, Unchanging(c), name);
    LoadAloneIsExact(w, owner, c, name, startFails);
    ReachableSelf(w, name);
    if IsBlank(name) {
      BlankIsNotLoadable(w, c, name);
    }
    var (s, built) := PrivateBuild(w, owner, Unchanging(c), name);
    if built.Err? {
      FaultIsNotLoadable(w, owner, Unchanging(c), name, built.error);
    } else {
      var (c', r) := LoadAlone(w, owner, c, name, startFails);
      forall n | n in c' && n !in c ensures !IsBlank(n) && n in w.defs && !w.defs[n].setupFails {
        InsertedFromBatch(c, s.pending, n);
        var i :| 0 <= i < |s.pending| && s.pending[i].handle.name == n && InsertAll(c, s.pending)[n] == s.pending[i];
        BuiltIsSound(w, owner, Unchanging(c), name, i);
      }
    }
  }

  lemma BlankIsNotLoadable(w: World, c: Cache, name: Name)
    requires name in w.defs && IsBlank(name) && Reachable(w, name, name)
    ensures !Loadable(w, c, name)
  {
  }

  lemma ClosedNames(w: World, c: Cache)
    requires CacheClosed(w, c)
    ensures forall n :: n in c ==> c[n].handle.name == n
  {
    forall n | n in c ensures c[n].handle.name == n {
      assert EntryClosed(w, c, n);
    }
  }

  lemma BuildAloneIsExact(w: World, owner: nat, c: Cache, name: Name, s: Walk, h: Handle)
    requires WellFormed(w) && name in w.defs && CacheClosed(w, c) && name !in c
    requires s.active == map[]
    requires Visited(w, Lazy(owner, Unchanging(c)), AFTER_FIRST_LOOKUP, name, false, s, Ok(h))
    ensures LoadedExactly(w, c, name, InsertAll(c, s.pending), Ok(h))
  {
    hide Inv, CacheClosed, InsertAll, Reachable, Coherent;
    var mode := Lazy(owner, Unchanging(c));
    var c' := InsertAll(c, s.pending);
    InsertKeepsClosed(w, mode, s, c);
    PendingFacts(w, mode, s);
    forall n | n in c' && n !in c
      ensures n in w.defs && !w.defs[n].isGlobal && Coherent(w, c', n) && Reachable(w, name, n)
    {
      InsertedFromBatch(c, s.pending, n);
      var i :| 0 <= i < |s.pending| && s.pending[i].handle.name == n && c'[n] == s.pending[i];
      BatchFacts(w, mode, s, i);
      BatchIsCoherent(w, mode, s, c, i);
    }
    assert name in s.registered;
    var i :| 0 <= i < |s.pending| && s.pending[i].handle.name == name;
    InsertedEntry(c, s.pending, i);
    forall n | Reachable(w, name, n) ensures n in c' {
      CachedIsReachClosed(w, c', name, n);
    }
  }

  lemma PendingFacts(w: World, mode: Mode, s: Walk)
    requires Inv(w, mode, s)
    ensures DistinctNames(s.pending)
    ensures forall i :: 0 <= i < |s.pending| ==>
      s.pending[i].handle.name in s.registered && s.registered[s.pending[i].handle.name] == s.pending[i].handle
    ensures forall n :: n in s.registered ==> exists i :: 0 <= i < |s.pending| && s.pending[i].handle.name == n
  {
    forall n | n in s.registered ensures exists i :: 0 <= i < |s.pending| && s.pending[i].handle.name == n {
      assert Before(s.pending, |s.pending|, n);
    }
  }

  lemma BatchIsCoherent(w: World, mode: Mode, s: Walk, c: Cache, i: nat)
    requires Inv(w, mode, s) && s.active == map[] && mode.Lazy? && i < |s.pending|
    requires mode.view(s.lookups) == c && mode.view(0) == c
    requires InsertAll(c, s.pending).Keys >= c.Keys && s.pending[i].handle.name in InsertAll(c, s.pending)
    requires CacheClosed(w, InsertAll(c, s.pending))
    ensures Coherent(w, InsertAll(c, s.pending), s.pending[i].handle.name)
  {
    hide Inv, InsertAll;
    var c' := InsertAll(c, s.pending);
    var e := s.pending[i];
    var n := e.handle.name;
    PendingFacts(w, mode, s);
    BatchFacts(w, mode, s, i);
    InsertedEntry(c, s.pending, i);
    assert EntryClosed(w, c', n);
    forall j | 0 <= j < |e.imported| ensures e.imported[j] == c'[Edges(w, n)[j].target].handle {
      var target := Edges(w, n)[j].target;
      assert BatchImport(mode, s, e.imported[j], target);
      if exists k ::
           0 <= k < |s.pending| && s.pending[k].handle.name == target && s.pending[k].handle == e.imported[j]
      {
        var k :| 0 <= k < |s.pending| && s.pending[k].handle.name == target && s.pending[k].handle == e.imported[j];
        BatchFacts(w, mode, s, k);
        InsertedEntry(c, s.pending, k);
      } else {
        assert CacheExtends(c, c');
      }
    }
  }

  /** The cache after the builder has seeded it with the registered modules. */
  function SeedAll(c: Cache, pending: seq<Entry>): Cache
    decreases |pending|
  {
    if pending == [] then c else SeedAll(c[pending[0].handle.name := pending[0]], pending[1..])
  }

  lemma {:induction false} SeededEntries(c: Cache, pending: seq<Entry>)
    requires DistinctNames(pending)
    ensures forall i :: 0 <= i < |pending| ==>
      pending[i].handle.name in SeedAll(c, pending) && SeedAll(c, pending)[pending[i].handle.name] == pending[i]
    ensures forall n :: n in SeedAll(c, pending) <==>
      n in c || exists i :: 0 <= i < |pending| && pending[i].handle.name == n
    ensures forall n :: n in c && (forall i :: 0 <= i < |pending| ==> pending[i].handle.name != n) ==>
      SeedAll(c, pending)[n] == c[n]
    decreases |pending|
  {
    if pending != [] {
      var e, rest := pending[0], pending[1..];
      assert pending == [e] + rest;
      SeededEntries(c[e.handle.name := e], rest);
    }
  }

  lemma SeededEntryIsCoherent(w: World, s: Walk, i: nat)
    requires DistinctNames(s.pending) && i < |s.pending| && HoldsRegistered(w, s, s.pending[i])
    requires forall n :: n in s.registered <==> Before(s.pending, |s.pending|, n)
    requires forall k :: 0 <= k < |s.pending| ==>
      s.pending[k].handle.name in s.registered && s.registered[s.pending[k].handle.name] == s.pending[k].handle
    ensures
      var c := SeedAll(map[], s.pending);
      s.pending[i].handle.name in c && Coherent(w, c, s.pending[i].handle.name)
  {
    hide SeedAll;
    var c := SeedAll(map[], s.pending);
    SeededEntries(map[], s.pending);
    var e := s.pending[i];
    forall j | 0 <= j < |e.imported|
      ensures
        var target := Edges(w, e.handle.name)[j].target;
        target in c && e.imported[j] == c[target].handle
    {
      var target := Edges(w, e.handle.name)[j].target;
      assert Before(s.pending, |s.pending|, target);
      var k :| 0 <= k < |s.pending| && s.pending[k].handle.name == target;
    }
  }

  /** After a successful build the seeded cache is closed under imports of both kinds,
      holds exactly the registered modules, and every module in it is coherent. */
  lemma SeededCacheIsClosed(w: World, roots: seq<Name>)
    requires RootsExist(w, roots)
    ensures
      var (s, r) := RegisterAll(w, EMPTY_WALK, roots);
      r.Ok? ==>
        var c := SeedAll(map[], s.pending);
        && CacheClosed(w, c)
        && (forall n :: n in c <==> ReachableFrom(w, roots, n))
        && (forall n :: n in c ==> Coherent(w, c, n) && c[n].handle.id.owner == 0)
  {
    hide RegisterAll, ReachableFrom, SeedAll, HoldsRegistered, Coherent, CacheClosed;
    RegistrationIsTopological(w, roots);
    SeededHandles(w, roots);
    var (s, r) := RegisterAll(w, EMPTY_WALK, roots);
    if r.Ok? {
      var c := SeedAll(map[], s.pending);
      SeededEntries(map[], s.pending);
      forall n | n in c ensures Coherent(w, c, n) && c[n].handle.id.owner == 0 {
        var i :| 0 <= i < |s.pending| && s.pending[i].handle.name == n;
        SeededEntryIsCoherent(w, s, i);
      }
      CoherentIsClosed(w, c);
    }
  }

  lemma CoherentIsClosed(w: World, c: Cache)
    requires forall n :: n in c ==> Coherent(w, c, n)
    ensures CacheClosed(w, c)
  {
  }

  lemma SeededHandles(w: World, roots: seq<Name>)
    requires RootsExist(w, roots)
    ensures
      var (s, r) := RegisterAll(w, EMPTY_WALK, roots);
      r.Ok? ==> forall i :: 0 <= i < |s.pending| ==>
        && s.pending[i].handle.name in s.registered
        && s.registered[s.pending[i].handle.name] == s.pending[i].handle
        && s.pending[i].handle.id.owner == 0
  {
    EmptyWalkIsFine(w, Eager);
    RegisterAllKeeps(w, EMPTY_WALK, roots);
    var (s, r) := RegisterAll(w, EMPTY_WALK, roots);
    if r.Ok? {
      forall i | 0 <= i < |s.pending| ensures s.pending[i].handle.id.owner == 0 {
        assert OwnHandle(Eager, s, s.pending[i].handle.name, s.pending[i].handle);
      }
    }
  }
}
