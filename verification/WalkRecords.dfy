/** What a successful visit records: modules without a fault of their own, each with the route
    prefix that the prefixes of the modules above it make up. */
module WalkRecords {
  import opened Results
  import opened Text
  import opened Paths
  import opened Prefixes
  import opened ModuleGraph
  import opened ModuleWalk
  import opened WalkInvariant
  import opened Registration

  /** The prefixes of the modules of a path joined one after the other. */
  function PrefixAlong(w: World, path: seq<Name>): Result<string>
  {
    if path == [] then Ok("")
    else
      var last := path[|path| - 1];
      match PrefixAlong(w, path[..|path| - 1])
      case Err(e) => Err(e)
      case Ok(parent) =>
        if last in w.defs then ModuleRoutePrefix(parent, w.defs[last].routePrefix) else Err(EmptyModuleName)
  }

  lemma PrefixOneMore(w: World, path: seq<Name>, name: Name)
    requires name in w.defs && PrefixAlong(w, path).Ok?
    ensures PrefixAlong(w, path + [name]) == ModuleRoutePrefix(PrefixAlong(w, path).value, w.defs[name].routePrefix)
  {
    assert (path + [name])[..|path|] == path;
  }

  /** A path of import edges that starts with `base`, ends with the entry's module, and along
      which its route prefix is made up. */
  ghost predicate LeadsTo(w: World, base: seq<Name>, path: seq<Name>, e: Entry)
  {
    && IsPath(w, path) && |path| >= |base| && path[..|base|] == base
    && path[|path| - 1] == e.handle.name
    && PrefixAlong(w, path) == Ok(e.routePrefix)
  }

  /** A recorded module has no fault; the eager registry gave it the prefix of such a path. */
  ghost predicate RecordedWell(w: World, mode: Mode, base: seq<Name>, e: Entry)
  {
    var n := e.handle.name;
    && n in w.defs && !IsBlank(n) && !w.defs[n].setupFails && (mode.Lazy? ==> !w.defs[n].isGlobal)
    && (mode.Eager? ==> exists path :: LeadsTo(w, base, path, e))
  }

  ghost predicate NewRecordedWell(w: World, mode: Mode, base: seq<Name>, before: seq<Entry>, after: seq<Entry>)
  {
    before <= after && forall i :: |before| <= i < |after| ==> RecordedWell(w, mode, base, after[i])
  }

  ghost predicate PrefixIs(w: World, mode: Mode, path: seq<Name>, prefix: string)
  {
    mode.Eager? ==> PrefixAlong(w, path) == Ok(prefix)
  }

  lemma ShorterBase(w: World, mode: Mode, base: seq<Name>, name: Name, before: seq<Entry>, after: seq<Entry>)
    requires NewRecordedWell(w, mode, base + [name], before, after)
    ensures NewRecordedWell(w, mode, base, before, after)
  {
    forall i | |before| <= i < |after| ensures RecordedWell(w, mode, base, after[i]) {
      assert RecordedWell(w, mode, base + [name], after[i]);
      if mode.Eager? {
        var path :| LeadsTo(w, base + [name], path, after[i]);
        assert path[..|base|] == path[..|base| + 1][..|base|];
        assert LeadsTo(w, base, path, after[i]);
      }
    }
  }

  lemma RecordsJoin(w: World, mode: Mode, base: seq<Name>, a: seq<Entry>, b: seq<Entry>, c: seq<Entry>)
    requires NewRecordedWell(w, mode, base, a, b) && NewRecordedWell(w, mode, base, b, c)
    ensures NewRecordedWell(w, mode, base, a, c)
  {
    forall i | |a| <= i < |c| ensures RecordedWell(w, mode, base, c[i]) {
      if i < |b| {
        assert c[i] == b[i];
      }
    }
  }

  lemma {:induction false} VisitRecords(
    w: World, mode: Mode, s: Walk, name: Name, parentPrefix: string, allowActive: bool)
    requires WellFormed(w) && StackOk(w, s) && StackIsPath(w, s) && name in w.defs && Called(w, s, name, allowActive)
    requires PrefixIs(w, mode, s.visiting, parentPrefix)
    ensures
      var (s', r) := Visit(w, mode, s, name, parentPrefix, allowActive);
      r.Ok? ==> NewRecordedWell(w, mode, s.visiting + [name], s.pending, s'.pending)
    decreases Unvisited(w, s), 1
  {
    hide StackOk, WellFormed, StackIsPath, IsBlank, ModuleRoutePrefix, VisitNew, RecordedWell, CacheNow, CycleChain;
    var s1 := CountRead(mode, s);
    ReadKeepsStack(w, mode, s);
    ActiveIsVisiting(w, s, name);
    if !IsBlank(name) && name !in CacheNow(mode, s) && name !in s.registered && !(allowActive && name in s.active)
       && Admit(w, mode, s1, name, parentPrefix).Ok? {
      var prefix := Admit(w, mode, s1, name, parentPrefix).value;
      if mode.Eager? {
        PrefixOneMore(w, s.visiting, name);
      }
      VisitNewRecords(w, mode, s1, name, prefix, allowActive);
    }
  }

  lemma ReadKeepsStack(w: World, mode: Mode, s: Walk)
    requires StackOk(w, s) && StackIsPath(w, s)
    ensures StackOk(w, CountRead(mode, s)) && StackIsPath(w, CountRead(mode, s))
  {
  }

  lemma {:induction false} VisitNewRecords(w: World, mode: Mode, s: Walk, name: Name, prefix: string, allowActive: bool)
    requires WellFormed(w) && StackOk(w, s) && StackIsPath(w, s) && name in w.defs && Called(w, s, name, allowActive)
    requires name !in s.visiting && name !in s.registered && !IsBlank(name)
    requires mode.Lazy? ==> !w.defs[name].isGlobal
    requires PrefixIs(w, mode, s.visiting + [name], prefix)
    ensures
      var (s', r) := VisitNew(w, mode, s, name, prefix);
      r.Ok? ==> NewRecordedWell(w, mode, s.visiting + [name], s.pending, s'.pending)
    decreases Unvisited(w, s), 0
  {
    hide StackOk, WellFormed, StackIsPath, IsBlank, VisitAll, RecordedWell, Called, PrefixIs, Edges;
    var h := Handle(name, HandleId(Owner(mode), s.created));
    var s2 := Enter(s, h);
    EnterShrinks(w, s, h);
    EnterKeepsStack(w, s, h, allowActive);
    EdgesAreCalled(w, s, h);
    VisitAllRecords(w, mode, s2, Edges(w, name), prefix);
    var (s3, imported) := VisitAll(w, mode, s2, Edges(w, name), prefix);
    if imported.Ok? && !w.defs[name].setupFails {
      var e := Entry(h, imported.value, prefix);
      OwnEntryIsWell(w, mode, s2, e);
      EntryIsNew(w, mode, s2.visiting, s.pending, s3.pending, e);
    }
  }

  lemma EdgesAreCalled(w: World, s: Walk, h: Handle)
    requires WellFormed(w) && h.name in w.defs
    ensures forall e :: e in Edges(w, h.name) ==> e.target in w.defs && Called(w, Enter(s, h), e.target, e.forward)
  {
    forall e | e in Edges(w, h.name) ensures Called(w, Enter(s, h), e.target, e.forward) {
      EdgeIsEdge(w, h.name, e);
    }
  }

  lemma EntryIsNew(w: World, mode: Mode, base: seq<Name>, before: seq<Entry>, after: seq<Entry>, e: Entry)
    requires NewRecordedWell(w, mode, base, before, after) && RecordedWell(w, mode, base, e)
    ensures NewRecordedWell(w, mode, base, before, after + [e])
  {
    hide RecordedWell;
  }

  lemma OwnEntryIsWell(w: World, mode: Mode, s: Walk, e: Entry)
    requires StackIsPath(w, s) && s.visiting != [] && s.visiting[|s.visiting| - 1] == e.handle.name
    requires e.handle.name in w.defs && !IsBlank(e.handle.name) && !w.defs[e.handle.name].setupFails
    requires mode.Lazy? ==> !w.defs[e.handle.name].isGlobal
    requires PrefixIs(w, mode, s.visiting, e.routePrefix)
    ensures RecordedWell(w, mode, s.visiting, e)
  {
    if mode.Eager? {
      assert LeadsTo(w, s.visiting, s.visiting, e);
    }
  }

  lemma {:induction false} VisitAllRecords(w: World, mode: Mode, s: Walk, edges: seq<Edge>, prefix: string)
    requires WellFormed(w) && StackOk(w, s) && StackIsPath(w, s)
    requires forall e :: e in edges ==> e.target in w.defs && Called(w, s, e.target, e.forward)
    requires PrefixIs(w, mode, s.visiting, prefix)
    ensures
      var (s', r) := VisitAll(w, mode, s, edges, prefix);
      r.Ok? ==> NewRecordedWell(w, mode, s.visiting, s.pending, s'.pending)
    decreases Unvisited(w, s), |edges| + 1
  {
    hide Visit, StackOk, WellFormed, RecordedWell, Called;
    if edges != [] {
      var target := edges[0].target;
      VisitRecords(w, mode, s, target, prefix, edges[0].forward);
      var (s1, first) := Visit(w, mode, s, target, prefix, edges[0].forward);
      if first.Ok? {
        ShorterBase(w, mode, s.visiting, target, s.pending, s1.pending);
        forall e | e in edges[1..] ensures Called(w, s1, e.target, e.forward) {
          SameStackSameCaller(w, s, s1, e);
        }
        VisitAllRecords(w, mode, s1, edges[1..], prefix);
        var (s2, rest) := VisitAll(w, mode, s1, edges[1..], prefix);
        if rest.Ok? {
          RecordsJoin(w, mode, s.visiting, s.pending, s1.pending, s2.pending);
        }
      }
    }
  }

  lemma SameStackSameCaller(w: World, s: Walk, t: Walk, e: Edge)
    requires s.visiting == t.visiting && Called(w, s, e.target, e.forward)
    ensures Called(w, t, e.target, e.forward)
  {
  }

  // ----- Segments of joined prefixes

  /** The segments of a path that are not empty. */
  function Solid(path: string): seq<string>
  {
    NonEmpty(SplitPath(path))
  }

  /** The own prefixes of the modules of a path, concatenated in order. */
  function SolidAlong(w: World, path: seq<Name>): seq<string>
  {
    if path == [] then []
    else
      var last := path[|path| - 1];
      SolidAlong(w, path[..|path| - 1])
      + if last in w.defs && w.defs[last].routePrefix.Some? then Solid(w.defs[last].routePrefix.value) else []
  }

  lemma {:induction false} NonEmptyConcat(a: seq<string>, b: seq<string>)
    ensures NonEmpty(a + b) == NonEmpty(a) + NonEmpty(b)
  {
    if a == [] {
      assert a + b == b;
    } else {
      hide NonEmpty;
      NonEmptyConcat(a[1..], b);
      assert a + b == [a[0]] + (a[1..] + b) && a == [a[0]] + a[1..];
      FirstNonEmpty(a[0], a[1..] + b);
      FirstNonEmpty(a[0], a[1..]);
    }
  }

  lemma FirstNonEmpty(first: string, rest: seq<string>)
    ensures NonEmpty([first] + rest) == if first == "" then NonEmpty(rest) else [first] + NonEmpty(rest)
  {
    assert ([first] + rest)[1..] == rest;
  }

  lemma {:induction false} NothingSolid(e: seq<string>)
    requires AllEmpty(e)
    ensures NonEmpty(e) == []
  {
    if e != [] {
      assert e[0] in e && forall s :: s in e[1..] ==> s in e;
      NothingSolid(e[1..]);
    }
  }

  lemma {:induction false} SolidTrimmedEnd(s: string)
    requires s != "" ==> s[0] == '/'
    ensures Solid(TrimSlashesEnd(s)) == Solid(s)
  {
    if s != "" && s[|s| - 1] == '/' {
      var x := s[..|s| - 1];
      assert s == x + "/";
      var e := SlashAtEnd(x);
      NonEmptyConcat(SplitPath(x), e);
      NothingSolid(e);
      SolidTrimmedEnd(x);
    }
  }

  lemma {:induction false} SolidTrimmedStart(y: string)
    ensures Solid("/" + TrimSlashesStart(y)) == Solid("/" + y)
  {
    if y != "" && y[0] == '/' {
      var z := y[1..];
      assert y == "/" + z;
      var e := SlashAtStart(z);
      NonEmptyConcat(e, SplitPath("/" + z));
      NothingSolid(e);
      SolidTrimmedStart(z);
    }
  }

  lemma RootIsNotSolid()
    ensures Solid("") == [] && Solid("/") == []
  {
  }

  lemma JoinedParts(parent: string, own: string)
    requires JoinPaths(parent, own).Ok?
    ensures own != "" && own[0] == '/' && (parent != "" ==> parent[0] == '/')
  {
  }

  lemma SolidPrefixes(parent: string, own: Option<string>)
    requires ModuleRoutePrefix(parent, own).Ok?
    ensures Solid(ModuleRoutePrefix(parent, own).value) == Solid(parent) + if own.Some? then Solid(own.value) else []
  {
    RootIsNotSolid();
    ModulePrefixSegments(parent, own);
    if own.Some? && own.value != "" && own.value != "/" {
      var o := own.value;
      JoinedParts(parent, o);
      assert o == "/" + o[1..] && TrimSlashesStart(o) == TrimSlashesStart(o[1..]);
      SolidTrimmedEnd(parent);
      SolidTrimmedStart(o[1..]);
      NonEmptyConcat(SplitPath(TrimSlashesEnd(parent)), SplitPath("/" + TrimSlashesStart(o)));
    }
  }

  lemma {:induction false} SolidAlongPath(w: World, path: seq<Name>)
    requires PrefixAlong(w, path).Ok?
    ensures Solid(PrefixAlong(w, path).value) == SolidAlong(w, path)
  {
    hide Solid, ModuleRoutePrefix;
    RootIsNotSolid();
    if path != [] {
      var front, last := path[..|path| - 1], path[|path| - 1];
      SolidAlongPath(w, front);
      SolidPrefixes(PrefixAlong(w, front).value, w.defs[last].routePrefix);
    }
  }

  // ----- Whole registrations

  /** The module is led to from a root by a path of imports; its route prefix is made up of the
      prefixes of the modules on that path, joined one after the other, and its segments are
      theirs, concatenated in order. */
  ghost predicate PrefixedFrom(w: World, roots: seq<Name>, path: seq<Name>, e: Entry)
  {
    && IsPath(w, path) && path[0] in roots && path[|path| - 1] == e.handle.name
    && PrefixAlong(w, path) == Ok(e.routePrefix)
    && Solid(e.routePrefix) == SolidAlong(w, path)
  }

  ghost predicate RecordedFrom(w: World, roots: seq<Name>, e: Entry)
  {
    && e.handle.name in w.defs && !IsBlank(e.handle.name) && !w.defs[e.handle.name].setupFails
    && exists path :: PrefixedFrom(w, roots, path, e)
  }

  lemma RecordedFromRoot(w: World, roots: seq<Name>, root: Name, e: Entry)
    requires root in roots && RecordedWell(w, Eager, [root], e)
    ensures RecordedFrom(w, roots, e)
  {
    var path :| LeadsTo(w, [root], path, e);
    assert path[0] == path[..1][0] == root;
    SolidAlongPath(w, path);
    assert PrefixedFrom(w, roots, path, e);
  }

  lemma {:induction false} RegisterAllRecords(w: World, s: Walk, roots: seq<Name>)
    requires RootsExist(w, roots) && StackOk(w, s) && s.visiting == []
    ensures
      var (s', r) := RegisterAll(w, s, roots);
      r.Ok? ==>
        && s.pending <= s'.pending
        && forall i :: |s.pending| <= i < |s'.pending| ==> RecordedFrom(w, roots, s'.pending[i])
    decreases |roots|
  {
    hide Visit, StackOk, WellFormed, RecordedWell, RecordedFrom;
    if roots != [] {
      VisitRecords(w, Eager, s, roots[0], "", false);
      var (s1, first) := Visit(w, Eager, s, roots[0], "", false);
      if first.Ok? {
        assert [] + [roots[0]] == [roots[0]];
        forall i | |s.pending| <= i < |s1.pending| ensures RecordedFrom(w, roots, s1.pending[i]) {
          RecordedFromRoot(w, roots, roots[0], s1.pending[i]);
        }
        RegisterAllRecords(w, s1, roots[1..]);
        var (s2, rest) := RegisterAll(w, s1, roots[1..]);
        if rest.Ok? {
          forall i | |s.pending| <= i < |s2.pending| ensures RecordedFrom(w, roots, s2.pending[i]) {
            if i < |s1.pending| {
              assert s2.pending[i] == s1.pending[i];
            } else {
              MoreRoots(w, roots, s2.pending[i]);
            }
          }
        }
      }
    }
  }

  lemma MoreRoots(w: World, roots: seq<Name>, e: Entry)
    requires roots != [] && RecordedFrom(w, roots[1..], e)
    ensures RecordedFrom(w, roots, e)
  {
    var path :| PrefixedFrom(w, roots[1..], path, e);
    assert PrefixedFrom(w, roots, path, e);
  }

  /** After a successful registration every entry is a module without a fault, led to from a
      root by a path of imports whose prefixes make up its own route prefix. */
  lemma RoutePrefixesAreJoined(w: World, roots: seq<Name>)
    requires RootsExist(w, roots)
    ensures
      var (s, r) := RegisterAll(w, EMPTY_WALK, roots);
      r.Ok? ==> forall i :: 0 <= i < |s.pending| ==> RecordedFrom(w, roots, s.pending[i])
  {
    EmptyStack(w);
    RegisterAllRecords(w, EMPTY_WALK, roots);
  }

  // ----- The order of imports

  /** A module without imports, prefix and faults. */
  ghost predicate IsLeaf(w: World, n: Name)
  {
    && n in w.defs && !IsBlank(n) && !w.defs[n].setupFails
    && w.defs[n].imports == [] && w.defs[n].forwards == [] && w.defs[n].routePrefix.None?
  }

  /** The second list continues the first by entries of these modules, in this order. */
  ghost predicate Appended(before: seq<Entry>, after: seq<Entry>, names: seq<Name>)
  {
    && before <= after && |after| == |before| + |names|
    && forall i :: 0 <= i < |names| ==> after[|before| + i].handle.name == names[i]
  }

  lemma AppendedFirst(before: seq<Entry>, e: Entry, after: seq<Entry>, names: seq<Name>)
    requires names != [] && e.handle.name == names[0] && Appended(before + [e], after, names[1..])
    ensures Appended(before, after, names)
  {
    assert after[|before|] == (before + [e])[|before|];
    forall i | 0 < i < |names| ensures after[|before| + i].handle.name == names[i] {
      assert names[1..][i - 1] == names[i];
      assert after[|before + [e]| + (i - 1)].handle.name == names[1..][i - 1];
    }
  }

  lemma AppendedLast(before: seq<Entry>, after: seq<Entry>, names: seq<Name>, e: Entry)
    requires Appended(before, after, names)
    ensures Appended(before, after + [e], names + [e.handle.name])
  {
  }

  lemma LeafIsRecorded(w: World, s: Walk, name: Name, prefix: string, allowActive: bool)
    requires WellFormed(w) && StackOk(w, s) && IsLeaf(w, name)
    requires name !in s.visiting && name !in s.registered
    ensures
      var (s', r) := Visit(w, Eager, s, name, prefix, allowActive);
      var h := Handle(name, HandleId(0, s.created));
      && r == Ok(h) && s'.pending == s.pending + [Entry(h, [], prefix)]
      && s'.registered == s.registered[name := h]
  {
    hide IsBlank;
    var h := Handle(name, HandleId(0, s.created));
    NotActive(w, s, name);
    EnterShrinks(w, s, h);
    assert Edges(w, name) == [];
    assert VisitAll(w, Eager, Enter(s, h), [], prefix) == (Enter(s, h), Ok([]));
    assert ModuleRoutePrefix(prefix, None) == Ok(prefix);
    assert Admit(w, Eager, s, name, prefix) == Ok(prefix);
    assert Visit(w, Eager, s, name, prefix, allowActive) == VisitNew(w, Eager, s, name, prefix);
  }

  ghost predicate NewLeaves(w: World, s: Walk, edges: seq<Edge>)
  {
    && (forall i :: 0 <= i < |edges| ==>
          IsLeaf(w, edges[i].target) && edges[i].target !in s.visiting && edges[i].target !in s.registered)
    && (forall i, j :: 0 <= i < j < |edges| ==> edges[i].target != edges[j].target)
  }

  function Targets(edges: seq<Edge>): (names: seq<Name>)
    ensures |names| == |edges| && forall i :: 0 <= i < |edges| ==> names[i] == edges[i].target
  {
    seq(|edges|, i requires 0 <= i < |edges| => edges[i].target)
  }

  lemma {:induction false} LeavesAreRecorded(w: World, s: Walk, edges: seq<Edge>, prefix: string)
    requires WellFormed(w) && StackOk(w, s) && NewLeaves(w, s, edges)
    requires forall e :: e in edges ==> e.target in w.defs
    ensures
      var (s', r) := VisitAll(w, Eager, s, edges, prefix);
      r.Ok? && Appended(s.pending, s'.pending, Targets(edges))
    decreases |edges|
  {
    hide Visit, StackOk, WellFormed, IsLeaf, NewLeaves, Appended, Targets;
    NoTargets(s.pending);
    if edges != [] {
      var target := edges[0].target;
      FirstLeaf(w, s, edges);
      LeafIsRecorded(w, s, target, prefix, edges[0].forward);
      var (s1, first) := Visit(w, Eager, s, target, prefix, edges[0].forward);
      OtherLeaves(w, s, s1, edges, first.value);
      assert forall e :: e in edges[1..] ==> e in edges;
      LeavesAreRecorded(w, s1, edges[1..], prefix);
      var (s2, rest) := VisitAll(w, Eager, s1, edges[1..], prefix);
      RestOfTargets(edges);
      AppendedFirst(s.pending, Entry(first.value, [], prefix), s2.pending, Targets(edges));
    }
  }

  lemma NoTargets(entries: seq<Entry>)
    ensures Appended(entries, entries, Targets([]))
  {
  }

  lemma RestOfTargets(edges: seq<Edge>)
    requires edges != []
    ensures Targets(edges)[0] == edges[0].target && Targets(edges)[1..] == Targets(edges[1..])
  {
  }

  lemma FirstLeaf(w: World, s: Walk, edges: seq<Edge>)
    requires NewLeaves(w, s, edges) && edges != []
    ensures IsLeaf(w, edges[0].target) && edges[0].target !in s.visiting && edges[0].target !in s.registered
  {
  }

  lemma OtherLeaves(w: World, s: Walk, t: Walk, edges: seq<Edge>, h: Handle)
    requires NewLeaves(w, s, edges) && edges != []
    requires t.visiting == s.visiting && t.registered == s.registered[edges[0].target := h]
    ensures NewLeaves(w, t, edges[1..])
  {
    hide IsLeaf;
    var rest := edges[1..];
    assert forall i :: 0 <= i < |rest| ==> rest[i] == edges[i + 1];
  }

  /** A root whose imports are leaves is recorded after them: first its ordinary imports and
      then its forward imports, each in the order in which it lists them. */
  lemma ImportsAreRecordedInOrder(w: World, root: Name)
    requires WellFormed(w) && root in w.defs && !IsBlank(root) && !w.defs[root].setupFails
    requires w.defs[root].routePrefix.None?
    requires
      var all := w.defs[root].imports + w.defs[root].forwards;
      && root !in all && (forall n :: n in all ==> IsLeaf(w, n))
      && (forall i, j :: 0 <= i < j < |all| ==> all[i] != all[j])
    ensures RootsExist(w, [root])
    ensures
      var (s, r) := RegisterAll(w, EMPTY_WALK, [root]);
      r.Ok? && Appended([], s.pending, w.defs[root].imports + w.defs[root].forwards + [root])
  {
    hide IsLeaf, IsBlank, WellFormed;
    var all := w.defs[root].imports + w.defs[root].forwards;
    var edges := Edges(w, root);
    EmptyStack(w);
    var h := Handle(root, HandleId(0, 0));
    var s := Enter(EMPTY_WALK, h);
    EnterShrinks(w, EMPTY_WALK, h);
    assert Targets(edges) == all;
    forall i | 0 <= i < |edges|
      ensures IsLeaf(w, edges[i].target) && edges[i].target !in s.visiting && edges[i].target in w.defs
    {
      assert Targets(edges)[i] in all;
      LeafExists(w, edges[i].target);
    }
    LeavesAreRecorded(w, s, edges, "");
    var (s3, imported) := VisitAll(w, Eager, s, edges, "");
    AppendedLast([], s3.pending, all, Entry(h, imported.value, ""));
    hide Appended, Targets, VisitAll, StackOk;
    RootIsRecorded(w, root);
  }

  /** Visiting a root without a prefix registers its imports and then the root itself. */
  lemma RootIsRecorded(w: World, root: Name)
    requires RootsExist(w, [root]) && StackOk(w, EMPTY_WALK) && !IsBlank(root) && !w.defs[root].setupFails
    requires w.defs[root].routePrefix.None?
    requires StackOk(w, Enter(EMPTY_WALK, Handle(root, HandleId(0, 0))))
    ensures
      var h := Handle(root, HandleId(0, 0));
      var (s3, imported) := VisitAll(w, Eager, Enter(EMPTY_WALK, h), Edges(w, root), "");
      var (s, r) := RegisterAll(w, EMPTY_WALK, [root]);
      imported.Ok? ==> r.Ok? && s.pending == s3.pending + [Entry(h, imported.value, "")]
  {
    hide VisitAll, StackOk;
    assert ModuleRoutePrefix("", None) == Ok("");
    assert Visit(w, Eager, EMPTY_WALK, root, "", false) == VisitNew(w, Eager, EMPTY_WALK, root, "");
    assert [root][1..] == [];
    var (s, r) := Visit(w, Eager, EMPTY_WALK, root, "", false);
    assert RegisterAll(w, s, []) == (s, Ok(()));
  }

  lemma LeafExists(w: World, n: Name)
    requires IsLeaf(w, n)
    ensures n in w.defs
  {
  }
}
