/** The eager module registry as the builder drives it: fields updated in place by
    mutually recursive methods, each proved to perform exactly the depth-first walk. */
module EagerRegistry {
  import opened Results
  import opened Text
  import opened ModuleGraph
  import opened ModuleWalk
  import opened Registration

  class ModuleRegistry {
    const world: World
    var registered: map<Name, Handle>
    var active: map<Name, Handle>
    var pending: seq<Entry>
    var visiting: seq<Name>
    var created: nat

    constructor (world: World)
      ensures this.world == world && State() == EMPTY_WALK
    {
      this.world := world;
      registered, active, pending, visiting, created := map[], map[], [], [], 0;
    }

    ghost function State(): Walk
      reads this
    {
      Walk(registered, active, pending, visiting, created, 0)
    }

    /** Push the module, or report the cycle that entering it again would close. */
    method EnterModule(name: Name) returns (r: Result<()>)
      modifies this`visiting
      ensures r == if name in old(visiting) then Err(CyclicImport(CycleChain(old(visiting), name))) else Ok(())
      ensures visiting == if name in old(visiting) then old(visiting) else old(visiting) + [name]
    {
      var index := 0;
      while index < |visiting|
        invariant 0 <= index <= |visiting|
        invariant name !in visiting[..index]
        invariant CycleChain(visiting, name) == CycleChain(visiting[index..], name)
      {
        if visiting[index] == name {
          return Err(CyclicImport(visiting[index..] + [name]));
        }
        assert visiting[index..][1..] == visiting[index + 1..];
        index := index + 1;
      }
      visiting := visiting + [name];
      return Ok(());
    }

    method ExitModule()
      modifies this`visiting
      ensures visiting == if old(visiting) == [] then [] else old(visiting)[..|old(visiting)| - 1]
    {
      if visiting != [] {
        visiting := visiting[..|visiting| - 1];
      }
    }

    method RegisterModule(name: Name) returns (r: Result<Handle>)
      requires WellFormed(world) && StackOk(world, State()) && name in world.defs
      modifies this
      ensures (State(), r) == Visit(world, Eager, old(State()), name, "", false)
    {
      r := RegisterModuleWithPrefix(name, "");
    }

    method RegisterModuleWithPrefix(name: Name, parentPrefix: string) returns (r: Result<Handle>)
      requires WellFormed(world) && StackOk(world, State()) && name in world.defs
      modifies this
      ensures (State(), r) == Visit(world, Eager, old(State()), name, parentPrefix, false)
      decreases Unvisited(world, State()), 1
    {
      hide VisitAll, IsBlank, ModuleRoutePrefix;
      if IsBlank(name) {
        return Err(EmptyModuleName);
      }
      if name in registered {
        return Ok(registered[name]);
      }
      var admitted := ModuleRoutePrefix(parentPrefix, world.defs[name].routePrefix);
      if admitted.Err? {
        return Err(admitted.error);
      }
      var entered := EnterModule(name);
      if entered.Err? {
        return Err(entered.error);
      }
      var handle := Handle(name, HandleId(0, created));
      created := created + 1;
      active := active[name := handle];
      assert State() == Enter(old(State()), handle);
      EnterShrinks(world, old(State()), handle);
      r := RegisterModuleInner(name, handle, admitted.value);
      active := active - {name};
      ExitModule();
    }

    method RegisterForwardModuleWithPrefix(name: Name, parentPrefix: string) returns (r: Result<Handle>)
      requires WellFormed(world) && StackOk(world, State()) && name in world.defs
      modifies this
      ensures (State(), r) == Visit(world, Eager, old(State()), name, parentPrefix, true)
      decreases Unvisited(world, State()), 2
    {
      hide VisitAll, VisitNew, IsBlank, Admit;
      if IsBlank(name) {
        return Err(EmptyModuleName);
      }
      if name in registered {
        return Ok(registered[name]);
      }
      if name in active {
        return Ok(active[name]);
      }
      r := RegisterModuleWithPrefix(name, parentPrefix);
    }

    method RegisterImports(imports: seq<Name>, prefix: string) returns (r: Result<seq<Handle>>)
      requires WellFormed(world) && StackOk(world, State()) && forall n :: n in imports ==> n in world.defs
      modifies this
      ensures (State(), r) == VisitAll(world, Eager, old(State()), Tagged(imports, false), prefix)
      decreases Unvisited(world, State()), 3
    {
      hide Visit, VisitAll, StackOk;
      ghost var before, edges := State(), Tagged(imports, false);
      ghost var goal := VisitAll(world, Eager, before, edges, prefix);
      var imported: seq<Handle> := [];
      var i := 0;
      assert edges[0..] == edges;
      assert goal.1.Ok? ==> [] + goal.1.value == goal.1.value;
      while i < |imports|
        invariant 0 <= i <= |imports|
        invariant StackOk(world, State()) && Unvisited(world, State()) <= Unvisited(world, before)
        invariant goal == Prepend(imported, VisitAll(world, Eager, State(), edges[i..], prefix))
      {
        PrependStep(world, Eager, State(), edges, i, prefix, imported);
        var h := RegisterModuleWithPrefix(imports[i], prefix);
        if h.Err? {
          return Err(h.error);
        }
        imported := imported + [h.value];
        i := i + 1;
      }
      NothingLeft(world, Eager, State(), edges, prefix, imported);
      return Ok(imported);
    }

    method RegisterForwardImports(forwards: seq<Name>, prefix: string) returns (r: Result<seq<Handle>>)
      requires WellFormed(world) && StackOk(world, State()) && forall n :: n in forwards ==> n in world.defs
      modifies this
      ensures (State(), r) == VisitAll(world, Eager, old(State()), Tagged(forwards, true), prefix)
      decreases Unvisited(world, State()), 3
    {
      hide Visit, VisitAll, StackOk;
      ghost var before, edges := State(), Tagged(forwards, true);
      ghost var goal := VisitAll(world, Eager, before, edges, prefix);
      var imported: seq<Handle> := [];
      var i := 0;
      assert edges[0..] == edges;
      assert goal.1.Ok? ==> [] + goal.1.value == goal.1.value;
      while i < |forwards|
        invariant 0 <= i <= |forwards|
        invariant StackOk(world, State()) && Unvisited(world, State()) <= Unvisited(world, before)
        invariant goal == Prepend(imported, VisitAll(world, Eager, State(), edges[i..], prefix))
      {
        PrependStep(world, Eager, State(), edges, i, prefix, imported);
        var h := RegisterForwardModuleWithPrefix(forwards[i], prefix);
        if h.Err? {
          return Err(h.error);
        }
        imported := imported + [h.value];
        i := i + 1;
      }
      NothingLeft(world, Eager, State(), edges, prefix, imported);
      return Ok(imported);
    }

    /** Register the imports, then the forward imports, then record the module. */
    method RegisterModuleInner(name: Name, handle: Handle, prefix: string) returns (r: Result<Handle>)
      requires WellFormed(world) && StackOk(world, State()) && name in world.defs && handle.name == name
      modifies this
      ensures
        var (s, imported) := VisitAll(world, Eager, old(State()), Edges(world, name), prefix);
        match imported
        case Err(e) => State() == s && r == Err(e)
        case Ok(handles) =>
          if world.defs[name].setupFails then State() == s && r == Err(SetupFailed(name))
          else State() == Record(s, Entry(handle, handles, prefix)) && r == Ok(handle)
      decreases Unvisited(world, State()), 4
    {
      hide Visit, VisitAll, StackOk;
      var imports, forwards := world.defs[name].imports, world.defs[name].forwards;
      VisitAllConcat(world, Eager, State(), Tagged(imports, false), Tagged(forwards, true), prefix);
      var first := RegisterImports(imports, prefix);
      if first.Err? {
        return Err(first.error);
      }
      var second := RegisterForwardImports(forwards, prefix);
      if second.Err? {
        return Err(second.error);
      }
      if world.defs[name].setupFails {
        return Err(SetupFailed(name));
      }
      pending := pending + [Entry(handle, first.value + second.value, prefix)];
      registered := registered[name := handle];
      return Ok(handle);
    }

    /** The builder's loop over the root modules. */
    method RegisterRoots(roots: seq<Name>) returns (r: Result<()>)
      requires RootsExist(world, roots) && StackOk(world, State())
      modifies this
      ensures (State(), r) == RegisterAll(world, old(State()), roots)
    {
      hide Visit, StackOk;
      var i := 0;
      assert roots[0..] == roots;
      while i < |roots|
        invariant 0 <= i <= |roots| && StackOk(world, State())
        invariant RegisterAll(world, old(State()), roots) == RegisterAll(world, State(), roots[i..])
      {
        assert roots[i..][0] == roots[i] && roots[i..][1..] == roots[i + 1..];
        var h := RegisterModule(roots[i]);
        if h.Err? {
          return Err(h.error);
        }
        i := i + 1;
      }
      return Ok(());
    }
  }
}
