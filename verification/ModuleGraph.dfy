/** The module graph as the two module loaders see it: names, ordinary imports
    and forward imports, and what it means to reach a module or to close a cycle. */
module ModuleGraph {
  import opened Results

  type Name = string

  /** What a module reports about itself. `setupFails` stands for the fallible part
      of registering its own providers and exports. */
  datatype ModuleDef = ModuleDef(
    imports: seq<Name>,
    forwards: seq<Name>,
    routePrefix: Option<string>,
    isGlobal: bool,
    setupFails: bool)

  datatype World = World(defs: map<Name, ModuleDef>)

  /** Every imported module exists. */
  ghost predicate WellFormed(w: World)
  {
    forall n, m | n in w.defs && (m in w.defs[n].imports || m in w.defs[n].forwards) :: m in w.defs
  }

  datatype Edge = Edge(target: Name, forward: bool)

  function Tagged(names: seq<Name>, forward: bool): (edges: seq<Edge>)
    ensures |edges| == |names|
    ensures forall i :: 0 <= i < |names| ==> edges[i] == Edge(names[i], forward)
  {
    seq(|names|, i requires 0 <= i < |names| => Edge(names[i], forward))
  }

  /** The edges of a module in the order in which they are followed. */
  function Edges(w: World, n: Name): (edges: seq<Edge>)
    requires n in w.defs
    ensures WellFormed(w) ==> forall e :: e in edges ==> e.target in w.defs
  {
    Tagged(w.defs[n].imports, false) + Tagged(w.defs[n].forwards, true)
  }

  ghost predicate HasEdge(w: World, a: Name, b: Name)
  {
    a in w.defs && (b in w.defs[a].imports || b in w.defs[a].forwards)
  }

  ghost predicate HasImport(w: World, a: Name, b: Name)
  {
    a in w.defs && b in w.defs[a].imports
  }

  lemma EdgeIsEdge(w: World, n: Name, e: Edge)
    requires n in w.defs && e in Edges(w, n)
    ensures HasEdge(w, n, e.target)
    ensures !e.forward ==> HasImport(w, n, e.target)
    ensures e.forward ==> e.target in w.defs[n].forwards
  {
  }

  /** A walk along edges of either kind. */
  ghost predicate IsPath(w: World, path: seq<Name>)
  {
    path != [] && forall i :: 0 <= i < |path| - 1 ==> HasEdge(w, path[i], path[i + 1])
  }

  ghost predicate Reachable(w: World, a: Name, b: Name)
  {
    exists path :: IsPath(w, path) && path[0] == a && path[|path| - 1] == b
  }

  /** A closed walk, written with its first module repeated at the end, whose
      last step is an ordinary import. */
  ghost predicate GenuineCycle(w: World, chain: seq<Name>)
  {
    && |chain| >= 2
    && IsPath(w, chain)
    && chain[0] == chain[|chain| - 1]
    && HasImport(w, chain[|chain| - 2], chain[|chain| - 1])
  }

  ghost predicate Acyclic(w: World)
  {
    forall path :: IsPath(w, path) && |path| >= 2 ==> path[0] != path[|path| - 1]
  }

  /** A closed walk that uses ordinary imports only. */
  ghost predicate OrdinaryCycle(w: World, chain: seq<Name>)
  {
    && |chain| >= 2
    && chain[0] == chain[|chain| - 1]
    && forall i :: 0 <= i < |chain| - 1 ==> HasImport(w, chain[i], chain[i + 1])
  }

  lemma ReachableSelf(w: World, a: Name)
    ensures Reachable(w, a, a)
  {
    assert IsPath(w, [a]) && [a][0] == a;
  }

  lemma ReachableStep(w: World, a: Name, b: Name, c: Name)
    requires HasEdge(w, a, b) && Reachable(w, b, c)
    ensures Reachable(w, a, c)
  {
    var path :| IsPath(w, path) && path[0] == b && path[|path| - 1] == c;
    var longer := [a] + path;
    assert forall i :: 0 < i < |longer| ==> longer[i] == path[i - 1];
    assert IsPath(w, longer) && longer[0] == a && longer[|longer| - 1] == c;
  }

  /** A set that holds the start and is closed under edges holds what is reachable. */
  lemma ClosedSetHoldsReachable(w: World, closed: set<Name>, a: Name, b: Name)
    requires a in closed && Reachable(w, a, b)
    requires forall n, m :: n in closed && HasEdge(w, n, m) ==> m in closed
    ensures b in closed
  {
    var path :| IsPath(w, path) && path[0] == a && path[|path| - 1] == b;
    PathStaysInside(w, closed, path, |path| - 1);
  }

  lemma {:induction false} PathStaysInside(w: World, closed: set<Name>, path: seq<Name>, i: nat)
    requires IsPath(w, path) && i < |path| && path[0] in closed
    requires forall n, m :: n in closed && HasEdge(w, n, m) ==> m in closed
    ensures path[i] in closed
  {
    if i > 0 {
      PathStaysInside(w, closed, path, i - 1);
      assert HasEdge(w, path[i - 1], path[i - 1 + 1]);
    }
  }
}
