/** Concurrent lazy loads: every interleaving of cache reads and batch insertions.

    A history is the sequence of contents of the shared cache. Each load reads the
    cache at times of its own (one read per lookup, in order), builds privately from
    what it saw, and inserts its batch in one step under the write lock. */
module LazyHistory {
  import opened Results
  import opened Text
  import opened ModuleGraph
  import opened ModuleWalk
  import opened WalkInvariant
  import opened LazyLoading

  /** `times(k)` is when the load makes its k-th lookup; `faults` are the modules whose
      set-up fails for this load, and `startFails` says that validating or initialising
      the batch fails. */
  datatype Load = Load(
    name: Name, owner: nat, times: nat -> nat, faults: set<Name>, startFails: bool,
    insertAt: nat, finishAt: nat)

  datatype Step = Idle | Insert(load: nat)

  datatype History = History(caches: seq<Cache>, steps: seq<Step>, loads: seq<Load>)

  /** The module graph as this load finds it: same modules and edges, its own faults. */
  function LoadWorld(w: World, l: Load): World
  {
    World(map n | n in w.defs :: w.defs[n].(setupFails := n in l.faults))
  }

  function View(h: History, l: Load): nat -> Cache
  {
    (k: nat) => if l.times(k) < |h.caches| then h.caches[l.times(k)] else map[]
  }

  function Built(w: World, h: History, l: Load): (Walk, Result<Handle>)
    requires WellFormed(w) && l.name in w.defs
  {
    SameGraph(w, l);
    PrivateBuild(LoadWorld(w, l), l.owner, View(h, l), l.name)
  }

  lemma SameGraph(w: World, l: Load)
    requires WellFormed(w)
    ensures WellFormed(LoadWorld(w, l)) && LoadWorld(w, l).defs.Keys == w.defs.Keys
    ensures forall n :: n in w.defs ==> Edges(LoadWorld(w, l), n) == Edges(w, n)
    ensures forall n :: n in w.defs ==> LoadWorld(w, l).defs[n].isGlobal == w.defs[n].isGlobal
  {
    var lw := LoadWorld(w, l);
    forall n, m | n in lw.defs && (m in lw.defs[n].imports || m in lw.defs[n].forwards) ensures m in lw.defs {
      assert HasEdge(w, n, m);
    }
  }

  predicate Inserts(w: World, h: History, l: Load)
    requires WellFormed(w) && l.name in w.defs
  {
    && !IsBlank(l.name)
    && l.name !in View(h, l)(0)
    && Built(w, h, l).1.Ok?
    && !l.startFails
  }

  /** What the load returns to its caller. */
  function Outcome(w: World, h: History, l: Load): Result<Handle>
    requires WellFormed(w) && l.name in w.defs && l.finishAt < |h.caches|
  {
    if IsBlank(l.name) then Err(EmptyModuleName)
    else if l.name in View(h, l)(0) then Ok(View(h, l)(0)[l.name].handle)
    else
      match Built(w, h, l).1
      case Err(e) => Err(e)
      case Ok(loaded) =>
        if l.startFails then Err(SetupFailed(l.name))
        else if loaded.name in h.caches[l.finishAt] then Ok(h.caches[l.finishAt][loaded.name].handle)
        else Err(Internal("lazy module was initialized but not cached"))
  }

  ghost predicate ValidLoad(w: World, h: History, l: Load)
  {
    && l.name in w.defs && l.owner > 0
    && (forall i: nat, j: nat :: i <= j ==> l.times(i) <= l.times(j))
    && (forall k: nat :: l.times(k) <= l.insertAt)
    && l.insertAt < l.finishAt < |h.caches|
  }

  ghost predicate ValidStep(w: World, h: History, t: nat)
    requires WellFormed(w) && t < |h.steps| && |h.caches| == |h.steps| + 1
  {
    match h.steps[t]
    case Idle => h.caches[t + 1] == h.caches[t]
    case Insert(i) =>
      && i < |h.loads| && ValidLoad(w, h, h.loads[i])
      && h.loads[i].insertAt == t && Inserts(w, h, h.loads[i])
      && h.caches[t + 1] == InsertAll(h.caches[t], Built(w, h, h.loads[i]).0.pending)
  }

  /** Histories that start from the cache seeded at build time (owner 0). */
  ghost predicate ValidHistory(w: World, h: History)
  {
    && WellFormed(w)
    && |h.caches| == |h.steps| + 1
    && CacheClosed(w, h.caches[0])
    && (forall n :: n in h.caches[0] ==> h.caches[0][n].handle.id.owner == 0)
    && (forall i :: 0 <= i < |h.loads| ==> ValidLoad(w, h, h.loads[i]))
    && (forall i, j :: 0 <= i < j < |h.loads| ==> h.loads[i].owner != h.loads[j].owner)
    && (forall t :: 0 <= t < |h.steps| ==> ValidStep(w, h, t))
    && (forall i :: 0 <= i < |h.loads| && Inserts(w, h, h.loads[i]) ==> h.steps[h.loads[i].insertAt] == Insert(i))
  }

  /** Up to time `t` the cache only grows and stays closed. */
  ghost predicate SoundUpTo(w: World, h: History, t: nat)
    requires t < |h.caches|
  {
    && (forall u, v :: 0 <= u <= v <= t ==> CacheExtends(h.caches[u], h.caches[v]))
    && (forall u :: 0 <= u <= t ==> CacheClosed(w, h.caches[u]))
  }

  lemma ViewIsMonotone(w: World, h: History, l: Load)
    requires ValidLoad(w, h, l) && SoundUpTo(w, h, l.insertAt)
    ensures MonotoneView(Lazy(l.owner, View(h, l)))
  {
    var view := View(h, l);
    forall i: nat, n | n in view(i) ensures view(i)[n].handle.name == n {
      assert CacheClosed(w, h.caches[l.times(i)]) && EntryClosed(w, view(i), n);
    }
  }

  lemma ClosedInBoth(w: World, l: Load, c: Cache)
    requires WellFormed(w)
    ensures CacheClosed(LoadWorld(w, l), c) == CacheClosed(w, c)
  {
    SameGraph(w, l);
    forall n | n in c ensures EntryClosed(LoadWorld(w, l), c, n) == EntryClosed(w, c, n) {
    }
  }

  /** What a finished build of a valid load looks like. */
  lemma BuildIsSound(w: World, h: History, l: Load)
    requires WellFormed(w) && ValidLoad(w, h, l) && SoundUpTo(w, h, l.insertAt)
    ensures
      var (s, r) := Built(w, h, l);
      var mode := Lazy(l.owner, View(h, l));
      && s.active == map[]
      && Visited(LoadWorld(w, l), mode, AFTER_FIRST_LOOKUP, l.name, false, s, r)
      && CacheExtends(CacheNow(mode, s), h.caches[l.insertAt])
      && CacheExtends(mode.view(0), h.caches[l.insertAt])
  {
    SameGraph(w, l);
    ViewIsMonotone(w, h, l);
    PrivateBuildKeeps(LoadWorld(w, l), l.owner, View(h, l), l.name);
  }

  lemma {:induction false} HistoryIsSound(w: World, h: History, t: nat)
    requires ValidHistory(w, h) && t < |h.caches|
    ensures SoundUpTo(w, h, t)
  {
    hide CacheClosed, Inserts, Built, Inv, CacheNow, View;
    if t > 0 {
      HistoryIsSound(w, h, t - 1);
      assert ValidStep(w, h, t - 1);
      if h.steps[t - 1].Insert? {
        InsertStepIsSound(w, h, t - 1);
      }
      assert CacheExtends(h.caches[t - 1], h.caches[t]);
      forall u | 0 <= u <= t ensures CacheExtends(h.caches[u], h.caches[t]) {
        if u < t {
          assert CacheExtends(h.caches[u], h.caches[t - 1]);
        }
      }
    }
  }

  lemma InsertStepIsSound(w: World, h: History, t: nat)
    requires ValidHistory(w, h) && t < |h.steps| && h.steps[t].Insert? && SoundUpTo(w, h, t)
    ensures CacheClosed(w, h.caches[t + 1]) && CacheExtends(h.caches[t], h.caches[t + 1])
  {
    hide CacheClosed, Inv, CacheNow, View, Built;
    assert ValidStep(w, h, t);
    var l := h.loads[h.steps[t].load];
    BuildIsSound(w, h, l);
    var s := Built(w, h, l).0;
    ClosedInBoth(w, l, h.caches[t]);
    InsertKeepsClosed(LoadWorld(w, l), Lazy(l.owner, View(h, l)), s, h.caches[t]);
    ClosedInBoth(w, l, h.caches[t + 1]);
  }

  /** In every interleaving the cached modules are closed under imports of both kinds
      at every moment, and a cached name keeps its container for ever. */
  lemma CacheIsClosedAndStable(w: World, h: History, u: nat, v: nat, n: Name)
    requires ValidHistory(w, h) && u <= v < |h.caches| && n in h.caches[u]
    ensures n in h.caches[v] && h.caches[v][n] == h.caches[u][n]
    ensures forall m :: HasEdge(w, n, m) ==> m in h.caches[u]
  {
    HistoryIsSound(w, h, v);
    assert CacheExtends(h.caches[u], h.caches[v]);
    forall m | HasEdge(w, n, m) ensures m in h.caches[u] {
      EdgeTargetCached(w, h.caches[u], n, m);
    }
  }

  /** A successful load returns the container that is cached under the requested name
      from some moment of the history on. */
  lemma SuccessIsCached(w: World, h: History, i: nat)
    requires ValidHistory(w, h) && i < |h.loads| && Outcome(w, h, h.loads[i]).Ok?
    ensures
      var last := h.caches[|h.caches| - 1];
      var name := h.loads[i].name;
      name in last && last[name].handle == Outcome(w, h, h.loads[i]).value
  {
    hide CacheClosed, Inv;
    var l := h.loads[i];
    HistoryIsSound(w, h, |h.caches| - 1);
    HistoryIsSound(w, h, l.insertAt);
    BuildIsSound(w, h, l);
    if l.name in View(h, l)(0) {
      assert CacheExtends(h.caches[l.times(0)], h.caches[|h.caches| - 1]);
    } else {
      assert CacheExtends(h.caches[l.finishAt], h.caches[|h.caches| - 1]);
    }
  }

  /** In every interleaving, all successful loads of a name return the same container. */
  lemma LoadsAgree(w: World, h: History, i: nat, j: nat)
    requires ValidHistory(w, h) && i < |h.loads| && j < |h.loads|
    requires h.loads[i].name == h.loads[j].name
    requires Outcome(w, h, h.loads[i]).Ok? && Outcome(w, h, h.loads[j]).Ok?
    ensures Outcome(w, h, h.loads[i]) == Outcome(w, h, h.loads[j])
  {
    hide Outcome, ValidHistory;
    SuccessIsCached(w, h, i);
    SuccessIsCached(w, h, j);
  }

  /** When a load succeeds among others: a module that its first lookup finds always, with
      what is cached; any other never when validating or initialising fails, and otherwise
      whenever nothing that was not cached at that lookup is at fault. */
  lemma LoadInHistorySucceeds(w: World, h: History, i: nat)
    requires ValidHistory(w, h) && i < |h.loads|
    ensures
      var l := h.loads[i];
      var seen, r := View(h, l)(0), Outcome(w, h, l);
      && (IsBlank(l.name) ==> r == Err(EmptyModuleName))
      && (!IsBlank(l.name) && l.name in seen ==> r == Ok(seen[l.name].handle))
      && (l.name !in seen && l.startFails ==> r.Err?)
      && (l.name !in seen && !l.startFails && Loadable(LoadWorld(w, l), seen, l.name) ==> r.Ok?)
  {
    hide View, Built, CacheClosed, Loadable, IsBlank, Inv;
    var l := h.loads[i];
    HistoryIsSound(w, h, l.insertAt);
    BuildIsSound(w, h, l);
    LoadedIsAlwaysCached(w, h, i);
    var lw := LoadWorld(w, l);
    SameGraph(w, l);
    ReachableSelf(lw, l.name);
    if IsBlank(l.name) {
      BlankIsNotLoadable(lw, View(h, l)(0), l.name);
    }
    if Built(w, h, l).1.Err? {
      BuildFailsForFault(w, h, l);
    }
  }

  lemma BuildFailsForFault(w: World, h: History, l: Load)
    requires WellFormed(w) && l.name in w.defs && Built(w, h, l).1.Err?
    requires
      var (s, r) := Built(w, h, l);
      Visited(LoadWorld(w, l), Lazy(l.owner, View(h, l)), AFTER_FIRST_LOOKUP, l.name, false, s, r)
    ensures !Loadable(LoadWorld(w, l), View(h, l)(0), l.name)
  {
    hide View, Built;
    FaultIsNotLoadable(LoadWorld(w, l), l.owner, View(h, l), l.name, Built(w, h, l).1.error);
  }

  /** In every interleaving, a load whose build succeeds finds its module cached
      afterwards: the "initialized but not cached" error is unreachable. */
  lemma LoadedIsAlwaysCached(w: World, h: History, i: nat)
    requires ValidHistory(w, h) && i < |h.loads|
    ensures Outcome(w, h, h.loads[i]).Err? ==> !Outcome(w, h, h.loads[i]).error.Internal?
  {
    hide CacheClosed, Inv;
    var l := h.loads[i];
    HistoryIsSound(w, h, l.finishAt);
    BuildIsSound(w, h, l);
    if Inserts(w, h, l) {
      assert ValidStep(w, h, l.insertAt);
      var (s, r) := Built(w, h, l);
      assert CacheExtends(h.caches[l.insertAt + 1], h.caches[l.finishAt]);
      PendingFacts(LoadWorld(w, l), Lazy(l.owner, View(h, l)), s);
      assert Settled(Lazy(l.owner, View(h, l)), s, l.name);
      assert l.name in h.caches[l.insertAt + 1];
    }
  }

  /** An entry of a batch that `owner` inserts into `before`: each import is another
      module of the batch or is cached already. */
  ghost predicate BatchEntryOk(w: World, owner: nat, before: Cache, batch: seq<Entry>, e: Entry)
  {
    && e.handle.name in w.defs && e.handle.id.owner == owner
    && |e.imported| == |Edges(w, e.handle.name)|
    && forall j :: 0 <= j < |e.imported| ==>
         var target := Edges(w, e.handle.name)[j].target;
         || (exists m :: 0 <= m < |batch| && batch[m].handle.name == target && batch[m].handle == e.imported[j])
         || (target in before && before[target].handle == e.imported[j])
  }

  ghost predicate BatchOk(w: World, owner: nat, before: Cache, batch: seq<Entry>)
  {
    DistinctNames(batch) && forall k :: 0 <= k < |batch| ==> BatchEntryOk(w, owner, before, batch, batch[k])
  }

  lemma InsertedBatchIsOk(w: World, h: History, i: nat)
    requires ValidHistory(w, h) && i < |h.loads| && Inserts(w, h, h.loads[i])
    ensures
      var l := h.loads[i];
      BatchOk(w, l.owner, h.caches[l.insertAt], Built(w, h, l).0.pending)
  {
    hide Inv, CacheClosed, View, Built;
    var l := h.loads[i];
    var mode := Lazy(l.owner, View(h, l));
    HistoryIsSound(w, h, l.insertAt);
    BuildIsSound(w, h, l);
    SameGraph(w, l);
    var s := Built(w, h, l).0;
    PendingFacts(LoadWorld(w, l), mode, s);
    forall k | 0 <= k < |s.pending| ensures BatchEntryOk(w, l.owner, h.caches[l.insertAt], s.pending, s.pending[k]) {
      BatchFacts(LoadWorld(w, l), mode, s, k);
      var e := s.pending[k];
      forall j | 0 <= j < |e.imported|
        ensures
          var target := Edges(w, e.handle.name)[j].target;
          || (exists m ::
                  0 <= m < |s.pending| && s.pending[m].handle.name == target && s.pending[m].handle == e.imported[j])
          || (target in h.caches[l.insertAt] && h.caches[l.insertAt][target].handle == e.imported[j])
      {
        assert BatchImport(mode, s, e.imported[j], Edges(w, e.handle.name)[j].target);
      }
    }
  }

  /** Every cached container was seeded, or created by a load that inserted before. */
  lemma {:induction false} OwnersInsertedBefore(w: World, h: History, t: nat, n: Name)
    requires ValidHistory(w, h) && t < |h.caches| && n in h.caches[t]
    ensures
      var owner := h.caches[t][n].handle.id.owner;
      owner == 0 || exists i :: 0 <= i < |h.loads| && h.loads[i].owner == owner && h.loads[i].insertAt < t
  {
    hide CacheClosed, Built, Inserts, View;
    if t > 0 {
      assert ValidStep(w, h, t - 1);
      HistoryIsSound(w, h, t);
      if n in h.caches[t - 1] {
        OwnersInsertedBefore(w, h, t - 1, n);
        assert CacheExtends(h.caches[t - 1], h.caches[t]);
      } else {
        var i := h.steps[t - 1].load;
        var batch := Built(w, h, h.loads[i]).0.pending;
        InsertedBatchIsOk(w, h, i);
        InsertedFromBatch(h.caches[t - 1], batch, n);
        var k :| 0 <= k < |batch| && batch[k].handle.name == n && h.caches[t][n] == batch[k];
        assert BatchEntryOk(w, h.loads[i].owner, h.caches[t - 1], batch, batch[k]);
      }
    }
  }

  /** The copies that a new module was built against and that lost the race: the batch
      holds the import's container, but another load had cached one before. */
  ghost predicate SawLostCopy(w: World, owner: nat, before: Cache, e: Entry)
    requires e.handle.name in w.defs && |e.imported| == |Edges(w, e.handle.name)|
  {
    exists j :: 0 <= j < |e.imported|
      && e.imported[j].id.owner == owner && Edges(w, e.handle.name)[j].target in before
  }

  lemma ImportCoherent(w: World, owner: nat, before: Cache, batch: seq<Entry>, k: nat, j: nat)
    requires BatchOk(w, owner, before, batch) && k < |batch| && j < |batch[k].imported|
    requires forall n :: n in before ==> before[n].handle.id.owner != owner
    ensures
      var target := Edges(w, batch[k].handle.name)[j].target;
      && target in InsertAll(before, batch)
      && (batch[k].imported[j] == InsertAll(before, batch)[target].handle <==>
          !(batch[k].imported[j].id.owner == owner && target in before))
  {
    var e := batch[k];
    assert BatchEntryOk(w, owner, before, batch, e);
    var target := Edges(w, e.handle.name)[j].target;
    if target in before {
      if e.imported[j].id.owner != owner {
        forall m | 0 <= m < |batch| ensures batch[m].handle != e.imported[j] {
          assert BatchEntryOk(w, owner, before, batch, batch[m]);
        }
      }
    } else {
      var m :| 0 <= m < |batch| && batch[m].handle.name == target && batch[m].handle == e.imported[j];
      InsertedEntry(before, batch, m);
      assert BatchEntryOk(w, owner, before, batch, batch[m]);
    }
  }

  lemma EntryCoherent(w: World, owner: nat, before: Cache, batch: seq<Entry>, k: nat)
    requires BatchOk(w, owner, before, batch) && k < |batch| && batch[k].handle.name !in before
    requires forall n :: n in before ==> before[n].handle.id.owner != owner
    requires CacheClosed(w, InsertAll(before, batch))
    ensures
      var e := batch[k];
      && e.handle.name in w.defs && |e.imported| == |Edges(w, e.handle.name)|
      && e.handle.name in InsertAll(before, batch)
      && (Coherent(w, InsertAll(before, batch), e.handle.name) <==> !SawLostCopy(w, owner, before, e))
  {
    hide InsertAll, CacheClosed;
    var e := batch[k];
    var after := InsertAll(before, batch);
    InsertedEntry(before, batch, k);
    assert BatchEntryOk(w, owner, before, batch, e);
    ClosedEntry(w, after, e.handle.name);
    forall j | 0 <= j < |e.imported|
      ensures e.imported[j] == after[Edges(w, e.handle.name)[j].target].handle <==>
        !(e.imported[j].id.owner == owner && Edges(w, e.handle.name)[j].target in before)
    {
      ImportCoherent(w, owner, before, batch, k, j);
    }
  }

  lemma ClosedEntry(w: World, c: Cache, n: Name)
    requires CacheClosed(w, c) && n in c
    ensures EntryClosed(w, c, n)
  {
  }

  /** A cached module sees the cached containers of its imports for ever or never. */
  lemma CoherenceLasts(w: World, c: Cache, later: Cache, n: Name)
    requires CacheClosed(w, c) && CacheClosed(w, later) && CacheExtends(c, later) && n in c
    ensures n in later && (Coherent(w, later, n) <==> Coherent(w, c, n))
  {
    assert EntryClosed(w, c, n) && EntryClosed(w, later, n);
    forall j | 0 <= j < |c[n].imported| ensures later[Edges(w, n)[j].target] == c[Edges(w, n)[j].target] {
      assert Edges(w, n)[j].target in c;
    }
  }

  /** Under concurrency a newly cached module sees the containers cached under its imports'
      names, from its insertion on for ever, exactly when none of the copies it was built
      against lost the race. */
  lemma CoherentIffNoCopyLost(w: World, h: History, i: nat, k: nat, v: nat)
    requires ValidHistory(w, h) && i < |h.loads| && Inserts(w, h, h.loads[i])
    requires k < |Built(w, h, h.loads[i]).0.pending| && h.loads[i].insertAt < v < |h.caches|
    requires Built(w, h, h.loads[i]).0.pending[k].handle.name !in h.caches[h.loads[i].insertAt]
    ensures
      var l := h.loads[i];
      var e := Built(w, h, l).0.pending[k];
      && e.handle.name in w.defs && |e.imported| == |Edges(w, e.handle.name)|
      && e.handle.name in h.caches[v]
      && (Coherent(w, h.caches[v], e.handle.name) <==> !SawLostCopy(w, l.owner, h.caches[l.insertAt], e))
  {
    hide CacheClosed, View, Built, Inserts, BatchOk, Coherent, SawLostCopy;
    var l := h.loads[i];
    var e := Built(w, h, l).0.pending[k];
    HistoryIsSound(w, h, v);
    assert ValidStep(w, h, l.insertAt);
    InsertedBatchIsOk(w, h, i);
    forall n | n in h.caches[l.insertAt] ensures h.caches[l.insertAt][n].handle.id.owner != l.owner {
      OwnersInsertedBefore(w, h, l.insertAt, n);
    }
    EntryCoherent(w, l.owner, h.caches[l.insertAt], Built(w, h, l).0.pending, k);
    CoherenceLasts(w, h.caches[l.insertAt + 1], h.caches[v], e.handle.name);
  }
}
