/** The depth-first walk by which both module loaders turn a module graph into a
    list of registered modules.

    The eager registry and the lazy loader follow the same search: they differ in
    the checks made on entering a module, and the lazy loader looks into a shared
    cache first. `Mode` says which of the two is walking. */
module ModuleWalk {
  import opened Results
  import opened Text
  import opened Paths
  import opened ModuleGraph

  /** The identity of the pair of provider containers (the module's own one and its
      exports) that is created for a module: who created it and in which order. */
  datatype HandleId = HandleId(owner: nat, serial: nat)

  datatype Handle = Handle(name: Name, id: HandleId)

  /** A registered module with the handles of its imports, in edge order. Its
      container sees the global scope and the exports of exactly these handles. */
  datatype Entry = Entry(handle: Handle, imported: seq<Handle>, routePrefix: string)

  type Cache = map<Name, Entry>

  /** `Lazy(owner, view)`: the k-th read of the shared cache returns `view(k)`. */
  datatype Mode = Eager | Lazy(owner: nat, view: nat -> Cache)

  datatype Walk = Walk(
    registered: map<Name, Handle>,
    active: map<Name, Handle>,
    pending: seq<Entry>,
    visiting: seq<Name>,
    created: nat,
    lookups: nat)

  const EMPTY_WALK := Walk(map[], map[], [], [], 0, 0)

  function Owner(mode: Mode): nat
  {
    match mode
    case Eager => 0
    case Lazy(owner, _) => owner
  }

  /** What the next read of the shared cache would return. */
  function CacheNow(mode: Mode, s: Walk): Cache
  {
    match mode
    case Eager => map[]
    case Lazy(_, view) => view(s.lookups)
  }

  function CountRead(mode: Mode, s: Walk): Walk
  {
    if mode.Lazy? then s.(lookups := s.lookups + 1) else s
  }

  /** `visiting` lists the keys of `active` without repetition, none of them registered. */
  ghost predicate StackOk(w: World, s: Walk)
  {
    && (forall i, j :: 0 <= i < j < |s.visiting| ==> s.visiting[i] != s.visiting[j])
    && (forall n :: n in s.active <==> n in s.visiting)
    && s.active.Keys !! s.registered.Keys
    && s.active.Keys <= w.defs.Keys
    && s.registered.Keys <= w.defs.Keys
  }

  function Unvisited(w: World, s: Walk): set<Name>
  {
    w.defs.Keys - s.registered.Keys - s.active.Keys
  }

  /** The part of `visiting` from the repeated module on, closed by that module. */
  function CycleChain(visiting: seq<Name>, name: Name): seq<Name>
  {
    if visiting == [] then [name]
    else if visiting[0] == name then visiting + [name]
    else CycleChain(visiting[1..], name)
  }

  function ModuleRoutePrefix(parent: string, own: Option<string>): (r: Result<string>)
    ensures r.Err? ==> own.Some? && r.error.InvalidRoutePath?
  {
    var prefix := if own.Some? then own.value else "";
    if parent == "" && (prefix == "" || prefix == "/") then Ok("")
    else if prefix == "" || prefix == "/" then Ok(parent)
    else JoinPaths(parent, prefix)
  }

  /** A module without a prefix of its own has its parent's; otherwise its prefix has the
      segments of its parent's prefix and then its own, and fails only when its own, its
      parent's or the joined prefix is not a valid route path. */
  lemma ModulePrefixSegments(parent: string, own: Option<string>)
    ensures
      var r := ModuleRoutePrefix(parent, own);
      if own.None? || own.value == "" || own.value == "/" then r == Ok(parent)
      else
        match r
        case Err(e) => e.InvalidRoutePath? && !ValidRoutePath(e.path)
        case Ok(p) => SplitPath(p) == SplitPath(TrimSlashesEnd(parent)) + SplitPath("/" + TrimSlashesStart(own.value))
  {
    if own.Some? && own.value != "" && own.value != "/" && JoinPaths(parent, own.value).Ok? {
      JoinedSegments(parent, own.value);
    }
  }

  /** The checks made before a module becomes active, in each loader's order; the
      result is the module's route prefix, which only the eager registry uses. */
  function Admit(w: World, mode: Mode, s: Walk, name: Name, parentPrefix: string): Result<string>
    requires name in w.defs
  {
    match mode
    case Eager =>
      (match ModuleRoutePrefix(parentPrefix, w.defs[name].routePrefix)
       case Err(e) => Err(e)
       case Ok(prefix) =>
         if name in s.visiting then Err(CyclicImport(CycleChain(s.visiting, name))) else Ok(prefix))
    case Lazy(_, _) =>
      if name in s.active then Err(CyclicImport(CycleChain(s.visiting, name)))
      else if w.defs[name].isGlobal then Err(LazyGlobal(name))
      else Ok("")
  }

  function Enter(s: Walk, h: Handle): Walk
  {
    s.(active := s.active[h.name := h], visiting := s.visiting + [h.name], created := s.created + 1)
  }

  function Leave(s: Walk, name: Name): Walk
  {
    s.(active := s.active - {name},
       visiting := if s.visiting == [] then [] else s.visiting[..|s.visiting| - 1])
  }

  function Record(s: Walk, entry: Entry): Walk
  {
    s.(registered := s.registered[entry.handle.name := entry.handle], pending := s.pending + [entry])
  }

  lemma EnterShrinks(w: World, s: Walk, h: Handle)
    requires StackOk(w, s) && h.name in w.defs && h.name !in s.visiting && h.name !in s.registered
    ensures StackOk(w, Enter(s, h))
    ensures Unvisited(w, Enter(s, h)) < Unvisited(w, s)
  {
    var s' := Enter(s, h);
    forall n ensures n in s'.active <==> n in s'.visiting {
      assert n in s'.visiting <==> n in s.visiting || n == h.name;
    }
    assert h.name in Unvisited(w, s) && h.name !in Unvisited(w, s');
  }

  lemma LeftStackIsFine(w: World, s: Walk, s': Walk, t: Walk)
    requires StackOk(w, s) && StackOk(w, s') && s.active.Keys <= s'.active.Keys
    requires t.visiting == s.visiting && t.active == s.active && t.registered == s'.registered
    ensures StackOk(w, t)
  {
  }

  lemma PopPushed<T>(s: seq<T>, x: T)
    ensures (s + [x])[..|s|] == s
  {
  }

  lemma RemoveAdded<K, V>(m: map<K, V>, k: K, v: V)
    requires k !in m
    ensures m[k := v] - {k} == m
  {
  }

  lemma NotActive(w: World, s: Walk, name: Name)
    requires StackOk(w, s) && name !in s.visiting
    ensures name !in s.active
  {
  }

  lemma LeaveRestores(w: World, s: Walk, h: Handle, s': Walk)
    requires StackOk(w, s) && h.name in w.defs && h.name !in s.visiting && h.name !in s.registered
    requires StackOk(w, s') && s'.visiting == Enter(s, h).visiting && s'.active == Enter(s, h).active
    ensures Leave(s', h.name).visiting == s.visiting
    ensures Leave(s', h.name).active == s.active
    ensures StackOk(w, Leave(s', h.name))
  {
    NotActive(w, s, h.name);
    hide StackOk;
    var t := Leave(s', h.name);
    PopPushed(s.visiting, h.name);
    RemoveAdded(s.active, h.name, h);
    LeftStackIsFine(w, s, s', t);
  }

  /** Visit one module: reuse it when it is cached, registered or (for a forward
      import) active; otherwise register its imports and then the module itself.
      Every visit, successful or not, restores `visiting` and `active`. */
  function Visit(w: World, mode: Mode, s: Walk, name: Name, parentPrefix: string, allowActive: bool)
    : (r: (Walk, Result<Handle>))
    requires WellFormed(w) && StackOk(w, s) && name in w.defs
    ensures StackOk(w, r.0)
    ensures r.0.visiting == s.visiting && r.0.active == s.active
    ensures s.registered.Keys <= r.0.registered.Keys
    decreases Unvisited(w, s), 1
  {
    if IsBlank(name) then (s, Err(EmptyModuleName))
    else if name in CacheNow(mode, s) then
      (CountRead(mode, s), Ok(CacheNow(mode, s)[name].handle))
    else
      var s1 := CountRead(mode, s);
      if name in s1.registered then (s1, Ok(s1.registered[name]))
      else if allowActive && name in s1.active then (s1, Ok(s1.active[name]))
      else
        match Admit(w, mode, s1, name, parentPrefix)
        case Err(e) => (s1, Err(e))
        case Ok(prefix) => VisitNew(w, mode, s1, name, prefix)
  }

  /** Make a module active, register its imports, and record it once they are in place. */
  function VisitNew(w: World, mode: Mode, s: Walk, name: Name, prefix: string): (r: (Walk, Result<Handle>))
    requires WellFormed(w) && StackOk(w, s) && name in w.defs
    requires name !in s.visiting && name !in s.registered
    ensures StackOk(w, r.0)
    ensures r.0.visiting == s.visiting && r.0.active == s.active
    ensures s.registered.Keys <= r.0.registered.Keys
    decreases Unvisited(w, s), 0
  {
    var h := Handle(name, HandleId(Owner(mode), s.created));
    EnterShrinks(w, s, h);
    var (s3, imported) := VisitAll(w, mode, Enter(s, h), Edges(w, name), prefix);
    LeaveRestores(w, s, h, s3);
    var s4 := Leave(s3, name);
    match imported
    case Err(e) => (s4, Err(e))
    case Ok(handles) =>
      if w.defs[name].setupFails then (s4, Err(SetupFailed(name)))
      else (Record(s4, Entry(h, handles, prefix)), Ok(h))
  }

  /** Visit the targets of a list of edges, stopping at the first failure. */
  function VisitAll(w: World, mode: Mode, s: Walk, edges: seq<Edge>, prefix: string)
    : (r: (Walk, Result<seq<Handle>>))
    requires WellFormed(w) && StackOk(w, s) && forall e :: e in edges ==> e.target in w.defs
    ensures StackOk(w, r.0)
    ensures r.0.visiting == s.visiting && r.0.active == s.active
    ensures s.registered.Keys <= r.0.registered.Keys
    decreases Unvisited(w, s), |edges| + 1
  {
    if edges == [] then (s, Ok([]))
    else
      var (s1, first) := Visit(w, mode, s, edges[0].target, prefix, edges[0].forward);
      match first
      case Err(e) => (s1, Err(e))
      case Ok(h) =>
        var (s2, rest) := VisitAll(w, mode, s1, edges[1..], prefix);
        match rest
        case Err(e) => (s2, Err(e))
        case Ok(hs) => (s2, Ok([h] + hs))
  }

  /** A partly processed edge list: the handles found so far, then the rest of the walk. */
  function Prepend(handles: seq<Handle>, rest: (Walk, Result<seq<Handle>>)): (Walk, Result<seq<Handle>>)
  {
    match rest.1
    case Ok(hs) => (rest.0, Ok(handles + hs))
    case Err(e) => (rest.0, Err(e))
  }

  lemma PrependStep(w: World, mode: Mode, s: Walk, edges: seq<Edge>, i: nat, prefix: string, handles: seq<Handle>)
    requires WellFormed(w) && StackOk(w, s) && i < |edges| && forall e :: e in edges ==> e.target in w.defs
    ensures
      var (s1, r) := Visit(w, mode, s, edges[i].target, prefix, edges[i].forward);
      Prepend(handles, VisitAll(w, mode, s, edges[i..], prefix)) ==
      match r
      case Ok(h) => Prepend(handles + [h], VisitAll(w, mode, s1, edges[i + 1..], prefix))
      case Err(e) => (s1, Err(e))
  {
    hide Visit, StackOk;
    assert edges[i..][0] == edges[i] && edges[i..][1..] == edges[i + 1..];
    var (s1, r) := Visit(w, mode, s, edges[i].target, prefix, edges[i].forward);
    if r.Ok? {
      var (s2, rest) := VisitAll(w, mode, s1, edges[i + 1..], prefix);
      if rest.Ok? {
        assert handles + ([r.value] + rest.value) == handles + [r.value] + rest.value;
      }
    }
  }

  lemma NothingLeft(w: World, mode: Mode, s: Walk, edges: seq<Edge>, prefix: string, handles: seq<Handle>)
    requires WellFormed(w) && StackOk(w, s)
    ensures Prepend(handles, VisitAll(w, mode, s, edges[|edges|..], prefix)) == (s, Ok(handles))
  {
    assert handles + [] == handles;
  }

  lemma {:induction false} VisitAllConcat(w: World, mode: Mode, s: Walk, a: seq<Edge>, b: seq<Edge>, prefix: string)
    requires WellFormed(w) && StackOk(w, s) && forall e :: e in a + b ==> e.target in w.defs
    ensures
      && (forall e :: e in a || e in b ==> e in a + b)
      && var (s1, first) := VisitAll(w, mode, s, a, prefix);
      VisitAll(w, mode, s, a + b, prefix) ==
      match first
      case Err(e) => (s1, Err(e))
      case Ok(hs) => Prepend(hs, VisitAll(w, mode, s1, b, prefix))
    decreases |a|
  {
    hide Visit, StackOk;
    if a == [] {
      assert a + b == b;
      var goal := VisitAll(w, mode, s, b, prefix);
      assert goal.1.Ok? ==> [] + goal.1.value == goal.1.value;
    } else {
      assert (a + b)[0] == a[0] && (a + b)[1..] == a[1..] + b;
      var (s1, first) := Visit(w, mode, s, a[0].target, prefix, a[0].forward);
      if first.Ok? {
        VisitAllConcat(w, mode, s1, a[1..], b, prefix);
        var (s2, middle) := VisitAll(w, mode, s1, a[1..], prefix);
        if middle.Ok? {
          var (s3, rest) := VisitAll(w, mode, s2, b, prefix);
          assert rest.Ok? ==> [first.value] + (middle.value + rest.value) == [first.value] + middle.value + rest.value;
        }
      }
    }
  }
}
