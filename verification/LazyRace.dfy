/** A concrete interleaving of two lazy loads in which a parent module keeps seeing a
    child container that lost the race for the cache. */
module LazyRace {
  import opened Results
  import opened Text
  import opened ModuleGraph
  import opened ModuleWalk
  import opened LazyLoading
  import opened LazyHistory

  const RACE := World(map[
    "p" := ModuleDef(["c"], [], None, false, false),
    "c" := ModuleDef([], [], None, false, false)])

  const CHILD_WINNER := Entry(Handle("c", HandleId(2, 0)), [], "")
  const CHILD_LOSER := Entry(Handle("c", HandleId(1, 1)), [], "")
  const PARENT := Entry(Handle("p", HandleId(1, 0)), [CHILD_LOSER.handle], "")

  /** The first load wants "p", the second "c"; both read the cache while it is empty,
      the second inserts first. */
  const RACE_HISTORY := History(
    [map[], map["c" := CHILD_WINNER], map["c" := CHILD_WINNER, "p" := PARENT]],
    [Insert(1), Insert(0)],
    [Load("p", 1, (k: nat) => 0, {}, false, 1, 2), Load("c", 2, (k: nat) => 0, {}, false, 0, 1)])

  /** A fault-free module without imports is created and recorded at once. */
  lemma LeafVisit(w: World, mode: Mode, s: Walk, name: Name)
    requires WellFormed(w) && StackOk(w, s) && name in w.defs && mode.Lazy?
    requires !IsBlank(name) && !w.defs[name].setupFails && !w.defs[name].isGlobal && Edges(w, name) == []
    requires name !in CacheNow(mode, s) && name !in s.visiting && name !in s.registered
    ensures
      var (s', r) := Visit(w, mode, s, name, "", false);
      var h := Handle(name, HandleId(mode.owner, s.created));
      && r == Ok(h) && s'.pending == s.pending + [Entry(h, [], "")]
  {
    hide IsBlank;
    var s1 := CountRead(mode, s);
    var h := Handle(name, HandleId(mode.owner, s.created));
    EnterShrinks(w, s1, h);
    assert VisitAll(w, mode, Enter(s1, h), [], "") == (Enter(s1, h), Ok([]));
    assert name !in s.active;
  }

  /** A fault-free module with one ordinary import is recorded after that import. */
  lemma ParentVisit(w: World, mode: Mode, s: Walk, name: Name, child: Name)
    requires WellFormed(w) && StackOk(w, s) && name in w.defs && mode.Lazy?
    requires !IsBlank(name) && !w.defs[name].setupFails && !w.defs[name].isGlobal
    requires child in w.defs && Edges(w, name) == [Edge(child, false)]
    requires name !in CacheNow(mode, s) && name !in s.visiting && name !in s.registered
    ensures
      var h := Handle(name, HandleId(mode.owner, s.created));
      var inner := Enter(CountRead(mode, s), h);
      && StackOk(w, inner)
      && var (s1, first) := Visit(w, mode, inner, child, "", false);
      var (s', r) := Visit(w, mode, s, name, "", false);
      first.Ok? ==> r == Ok(h) && s'.pending == s1.pending + [Entry(h, [first.value], "")]
  {
    hide IsBlank;
    var h := Handle(name, HandleId(mode.owner, s.created));
    var inner := Enter(CountRead(mode, s), h);
    EnterShrinks(w, CountRead(mode, s), h);
    ParentEdges(w, mode, inner, child);
    assert name !in s.active;
  }

  lemma ParentEdges(w: World, mode: Mode, s: Walk, child: Name)
    requires WellFormed(w) && StackOk(w, s) && child in w.defs
    ensures
      var (s1, first) := Visit(w, mode, s, child, "", false);
      first.Ok? ==> VisitAll(w, mode, s, [Edge(child, false)], "") == (s1, Ok([first.value]))
  {
    hide Visit, StackOk;
    var (s1, first) := Visit(w, mode, s, child, "", false);
    assert [Edge(child, false)][1..] == [];
    assert VisitAll(w, mode, s1, [], "") == (s1, Ok([]));
    assert first.Ok? ==> [first.value] + [] == [first.value];
  }

  lemma RaceWorld(l: Load)
    requires l.faults == {}
    ensures WellFormed(RACE) && LoadWorld(RACE, l) == RACE
    ensures Edges(RACE, "p") == [Edge("c", false)] && Edges(RACE, "c") == []
    ensures !IsBlank("p") && !IsBlank("c")
  {
  }

  lemma RaceBuilds()
    ensures WellFormed(RACE)
    ensures
      var (s, r) := Built(RACE, RACE_HISTORY, RACE_HISTORY.loads[0]);
      r.Ok? && s.pending == [CHILD_LOSER, PARENT]
    ensures
      var (s, r) := Built(RACE, RACE_HISTORY, RACE_HISTORY.loads[1]);
      r.Ok? && s.pending == [CHILD_WINNER]
  {
    hide Visit, IsBlank, Edges;
    var first, second := RACE_HISTORY.loads[0], RACE_HISTORY.loads[1];
    RaceWorld(first);
    RaceWorld(second);
    var mode := Lazy(1, View(RACE_HISTORY, first));
    var inner := Enter(CountRead(mode, AFTER_FIRST_LOOKUP), PARENT.handle);
    ParentVisit(RACE, mode, AFTER_FIRST_LOOKUP, "p", "c");
    LeafVisit(RACE, mode, inner, "c");
    LeafVisit(RACE, Lazy(2, View(RACE_HISTORY, second)), AFTER_FIRST_LOOKUP, "c");
  }

  lemma RaceInsertions()
    ensures InsertAll(map[], [CHILD_WINNER]) == map["c" := CHILD_WINNER]
    ensures InsertAll(map["c" := CHILD_WINNER], [CHILD_LOSER, PARENT]) == map["c" := CHILD_WINNER, "p" := PARENT]
  {
    assert [CHILD_WINNER][1..] == [] && [CHILD_LOSER, PARENT][1..] == [PARENT] && [PARENT][1..] == [];
    assert InsertAll(map["c" := CHILD_WINNER], [PARENT]) == map["c" := CHILD_WINNER, "p" := PARENT];
  }

  /** The interleaving is valid, and it leaves "p" seeing a container of "c" that is
      not the cached one: with overlapping loads, coherence is not guaranteed. */
  lemma OverlappingLoadsCanBeIncoherent()
    ensures ValidHistory(RACE, RACE_HISTORY)
    ensures "p" in RACE_HISTORY.caches[2] && !Coherent(RACE, RACE_HISTORY.caches[2], "p")
  {
    hide Built, IsBlank;
    RaceWorld(RACE_HISTORY.loads[0]);
    RaceBuilds();
    RaceInsertions();
    assert ValidStep(RACE, RACE_HISTORY, 0);
    assert ValidStep(RACE, RACE_HISTORY, 1);
    assert PARENT.imported[0] == CHILD_LOSER.handle;
  }
}
