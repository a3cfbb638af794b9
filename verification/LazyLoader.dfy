/** The lazy module loader in its own form: a shared cache object, a private graph
    object per load, and methods that update them in place. One load at a time is
    proved to perform exactly `LoadAlone`. */
module LazyLoader {
  import opened Results
  import opened Text
  import opened ModuleGraph
  import opened ModuleWalk
  import opened LazyLoading

  class LazyModuleRegistry {
    var modules: Cache

    constructor ()
      ensures modules == map[]
    {
      modules := map[];
    }

    method Cached(name: Name) returns (r: Option<Entry>)
      ensures r == if name in modules then Some(modules[name]) else None
    {
      r := if name in modules then Some(modules[name]) else None;
    }

    /** The builder's loop that seeds the cache with the registered modules. */
    method SeedModules(pending: seq<Entry>)
      modifies this
      ensures modules == SeedAll(old(modules), pending)
    {
      var i := 0;
      assert pending[0..] == pending;
      while i < |pending|
        invariant 0 <= i <= |pending|
        invariant SeedAll(old(modules), pending) == SeedAll(modules, pending[i..])
      {
        assert pending[i..][0] == pending[i] && pending[i..][1..] == pending[i + 1..];
        modules := modules[pending[i].handle.name := pending[i]];
        i := i + 1;
      }
    }

    /** Insert a batch; the first writer of a name wins. */
    method CacheModules(pending: seq<Entry>)
      modifies this
      ensures modules == InsertAll(old(modules), pending)
    {
      var i := 0;
      assert pending[0..] == pending;
      while i < |pending|
        invariant 0 <= i <= |pending|
        invariant InsertAll(old(modules), pending) == InsertAll(modules, pending[i..])
      {
        assert pending[i..][0] == pending[i] && pending[i..][1..] == pending[i + 1..];
        if pending[i].handle.name !in modules {
          modules := modules[pending[i].handle.name := pending[i]];
        }
        i := i + 1;
      }
    }
  }

  class LazyModuleGraph {
    const owner: nat
    var registered: map<Name, Handle>
    var active: map<Name, Handle>
    var pending: seq<Entry>
    var visiting: seq<Name>
    var created: nat
    ghost var lookups: nat

    constructor (owner: nat)
      ensures this.owner == owner && State() == AFTER_FIRST_LOOKUP
    {
      this.owner := owner;
      registered, active, pending, visiting, created, lookups := map[], map[], [], [], 0, 1;
    }

    ghost function State(): Walk
      reads this
    {
      Walk(registered, active, pending, visiting, created, lookups)
    }
  }

  class LazyModuleLoader {
    const world: World
    const registry: LazyModuleRegistry

    constructor (world: World, registry: LazyModuleRegistry)
      ensures this.world == world && this.registry == registry
    {
      this.world := world;
      this.registry := registry;
    }

    /** Load a module with the cache to itself. */
    method LoadArc(name: Name, owner: nat, startFails: bool) returns (r: Result<Handle>)
      requires WellFormed(world) && name in world.defs
      modifies registry
      ensures (registry.modules, r) == LoadAlone(world, owner, old(registry.modules), name, startFails)
    {
      hide Visit, IsBlank, InsertAll;
      if IsBlank(name) {
        return Err(EmptyModuleName);
      }
      var cached := registry.Cached(name);
      if cached.Some? {
        return Ok(cached.value.handle);
      }
      var graph := new LazyModuleGraph(owner);
      var loaded := RegisterArcInner(name, graph, false, Unchanging(registry.modules));
      if loaded.Err? {
        return Err(loaded.error);
      }
      if startFails {
        return Err(SetupFailed(name));
      }
      registry.CacheModules(graph.pending);
      cached := registry.Cached(loaded.value.name);
      if cached.None? {
        return Err(Internal("lazy module was initialized but not cached"));
      }
      return Ok(cached.value.handle);
    }

    method RegisterArcInner(name: Name, graph: LazyModuleGraph, allowActive: bool, ghost view: nat -> Cache)
      returns (r: Result<Handle>)
      requires WellFormed(world) && StackOk(world, graph.State()) && name in world.defs
      requires forall k: nat :: view(k) == registry.modules
      modifies graph
      ensures (graph.State(), r) == Visit(world, Lazy(graph.owner, view), old(graph.State()), name, "", allowActive)
      decreases Unvisited(world, graph.State()), 1
    {
      hide VisitAll, VisitNew, IsBlank;
      if IsBlank(name) {
        return Err(EmptyModuleName);
      }
      var cached := registry.Cached(name);
      graph.lookups := graph.lookups + 1;
      if cached.Some? {
        return Ok(cached.value.handle);
      }
      if name in graph.registered {
        return Ok(graph.registered[name]);
      }
      if name in graph.active {
        if allowActive {
          return Ok(graph.active[name]);
        }
        return Err(CyclicImport(CycleChain(graph.visiting, name)));
      }
      if world.defs[name].isGlobal {
        return Err(LazyGlobal(name));
      }
      r := RegisterNewModule(name, graph, view);
    }

    /** Enter the module, register what it imports, leave it again and record it. */
    method RegisterNewModule(name: Name, graph: LazyModuleGraph, ghost view: nat -> Cache) returns (r: Result<Handle>)
      requires WellFormed(world) && StackOk(world, graph.State()) && name in world.defs
      requires name !in graph.visiting && name !in graph.registered
      requires forall k: nat :: view(k) == registry.modules
      modifies graph
      ensures (graph.State(), r) == VisitNew(world, Lazy(graph.owner, view), old(graph.State()), name, "")
      decreases Unvisited(world, graph.State()), 0
    {
      hide VisitAll;
      ghost var before := graph.State();
      graph.visiting := graph.visiting + [name];
      var loaded := Handle(name, HandleId(graph.owner, graph.created));
      graph.created := graph.created + 1;
      graph.active := graph.active[name := loaded];
      assert graph.State() == Enter(before, loaded);
      EnterShrinks(world, before, loaded);
      var result := RegisterLazyModule(name, graph, view);
      LeaveRestores(world, before, loaded, graph.State());
      graph.active := graph.active - {name};
      graph.visiting := graph.visiting[..|graph.visiting| - 1];
      if result.Err? {
        return Err(result.error);
      }
      graph.registered := graph.registered[name := loaded];
      graph.pending := graph.pending + [Entry(loaded, result.value, "")];
      return Ok(loaded);
    }

    method RegisterEdges(targets: seq<Name>, forward: bool, graph: LazyModuleGraph, ghost view: nat -> Cache)
      returns (r: Result<seq<Handle>>)
      requires WellFormed(world) && StackOk(world, graph.State()) && forall n :: n in targets ==> n in world.defs
      requires forall k: nat :: view(k) == registry.modules
      modifies graph
      ensures (graph.State(), r) ==
        VisitAll(world, Lazy(graph.owner, view), old(graph.State()), Tagged(targets, forward), "")
      decreases Unvisited(world, graph.State()), 2
    {
      hide Visit, VisitAll, StackOk;
      ghost var mode := Lazy(graph.owner, view);
      ghost var before, edges := graph.State(), Tagged(targets, forward);
      ghost var goal := VisitAll(world, mode, before, edges, "");
      var imported: seq<Handle> := [];
      var i := 0;
      assert edges[0..] == edges;
      assert goal.1.Ok? ==> [] + goal.1.value == goal.1.value;
      while i < |targets|
        invariant 0 <= i <= |targets|
        invariant StackOk(world, graph.State()) && Unvisited(world, graph.State()) <= Unvisited(world, before)
        invariant goal == Prepend(imported, VisitAll(world, mode, graph.State(), edges[i..], ""))
      {
        PrependStep(world, mode, graph.State(), edges, i, "", imported);
        var h := RegisterArcInner(targets[i], graph, forward, view);
        if h.Err? {
          return Err(h.error);
        }
        imported := imported + [h.value];
        i := i + 1;
      }
      NothingLeft(world, mode, graph.State(), edges, "", imported);
      return Ok(imported);
    }

    /** Register the imports, then the forward imports, then the module's own providers. */
    method RegisterLazyModule(name: Name, graph: LazyModuleGraph, ghost view: nat -> Cache)
      returns (r: Result<seq<Handle>>)
      requires WellFormed(world) && StackOk(world, graph.State()) && name in world.defs
      requires forall k: nat :: view(k) == registry.modules
      modifies graph
      ensures
        var (s, imported) := VisitAll(world, Lazy(graph.owner, view), old(graph.State()), Edges(world, name), "");
        && graph.State() == s
        && r == if imported.Ok? && world.defs[name].setupFails then Err(SetupFailed(name)) else imported
      decreases Unvisited(world, graph.State()), 3
    {
      hide Visit, VisitAll, StackOk;
      var imports, forwards := world.defs[name].imports, world.defs[name].forwards;
      VisitAllConcat(world, Lazy(graph.owner, view), graph.State(), Tagged(imports, false), Tagged(forwards, true), "");
      var first := RegisterEdges(imports, false, graph, view);
      if first.Err? {
        return Err(first.error);
      }
      var second := RegisterEdges(forwards, true, graph, view);
      if second.Err? {
        return Err(second.error);
      }
      if world.defs[name].setupFails {
        return Err(SetupFailed(name));
      }
      return Ok(first.value + second.value);
    }
  }
}
