/** The in-memory cache store, which drops an expired entry only when it is looked up,
    against a specification on the history of operations alone. Times are natural
    numbers; every operation carries the time at which it holds the store's lock. */
module CacheStore {
  import opened Results

  datatype Entry<V> = Entry(value: V, expiresAt: Option<nat>)

  predicate IsExpired<V>(e: Entry<V>, now: nat)
  {
    e.expiresAt.Some? && now >= e.expiresAt.value
  }

  /** The moment from which an entry counts as expired. The clock is read before the lock
      is taken, so `readAt` may be earlier than the time of the insertion. */
  function ExpiryOf(ttl: Option<nat>, readAt: nat): Option<nat>
  {
    match ttl
    case None => None
    case Some(t) => Some(readAt + t)
  }

  // ----- Histories

  datatype Op<V> = Set(key: string, entry: Entry<V>) | Get(key: string) | Remove(key: string) | Clear

  datatype Event<V> = Event(op: Op<V>, at: nat)

  type History<V> = seq<Event<V>>

  ghost predicate Ordered<V>(h: History<V>)
  {
    forall i, j :: 0 <= i < j < |h| ==> h[i].at <= h[j].at
  }

  /** `now` is not before any event of the history. */
  ghost predicate NotBefore<V>(h: History<V>, now: nat)
  {
    forall i :: 0 <= i < |h| ==> h[i].at <= now
  }

  /** The event decides what the key holds. */
  predicate Writes<V>(e: Event<V>, key: string)
  {
    match e.op
    case Set(k, _) => k == key
    case Get(_) => false
    case Remove(k) => k == key
    case Clear => true
  }

  /** Event `i` set the key to the entry, and nothing after it wrote the key. */
  ghost predicate SetLast<V>(h: History<V>, key: string, i: nat, e: Entry<V>)
  {
    && i < |h|
    && h[i].op == Set(key, e)
    && forall j :: i < j < |h| ==> !Writes(h[j], key)
  }

  /** The key was last set to the entry, and neither removed nor cleared since. */
  ghost predicate LatestIs<V>(h: History<V>, key: string, e: Entry<V>)
  {
    exists i: nat :: SetLast(h, key, i, e)
  }

  /** A lookup of the key after that set found the entry expired. */
  ghost predicate SeenExpired<V>(h: History<V>, key: string, e: Entry<V>)
  {
    exists i: nat, j: nat :: SetLast(h, key, i, e) && i < j < |h| && h[j].op == Get(key) && IsExpired(e, h[j].at)
  }

  // ----- The store

  type Entries<V> = map<string, Entry<V>>

  function After<V>(entries: Entries<V>, e: Event<V>): Entries<V>
  {
    match e.op
    case Set(key, entry) => entries[key := entry]
    case Get(key) => if key in entries && IsExpired(entries[key], e.at) then entries - {key} else entries
    case Remove(key) => entries - {key}
    case Clear => map[]
  }

  function Run<V>(h: History<V>): Entries<V>
  {
    if h == [] then map[] else After(Run(h[..|h| - 1]), h[|h| - 1])
  }

  lemma RunStep<V>(h: History<V>, e: Event<V>)
    ensures Run(h + [e]) == After(Run(h), e)
  {
    assert (h + [e])[..|h|] == h;
  }

  /** Adding an event that does not write the key leaves its latest entry. */
  lemma LatestKept<V>(h: History<V>, ev: Event<V>, key: string, e: Entry<V>)
    requires !Writes(ev, key)
    ensures LatestIs(h, key, e) <==> LatestIs(h + [ev], key, e)
    ensures SeenExpired(h + [ev], key, e)
       <==> SeenExpired(h, key, e) || (LatestIs(h, key, e) && ev.op == Get(key) && IsExpired(e, ev.at))
  {
    var h1 := h + [ev];
    forall i: nat ensures SetLast(h, key, i, e) <==> SetLast(h1, key, i, e) {
      if i < |h| {
        assert forall j :: 0 <= j < |h| ==> h1[j] == h[j];
        if SetLast(h1, key, i, e) {
          forall j | i < j < |h| ensures !Writes(h[j], key) {
            assert !Writes(h1[j], key);
          }
        }
      }
    }
    if i: nat, j: nat :| SetLast(h, key, i, e) && i < j < |h| && h[j].op == Get(key) && IsExpired(e, h[j].at) {
      assert h1[j] == h[j] && SetLast(h1, key, i, e);
    }
    if i: nat :| SetLast(h, key, i, e) && ev.op == Get(key) && IsExpired(e, ev.at) {
      assert h1[|h|] == ev && SetLast(h1, key, i, e);
    }
    if i: nat, j: nat :| SetLast(h1, key, i, e) && i < j < |h1| && h1[j].op == Get(key) && IsExpired(e, h1[j].at) {
      assert SetLast(h, key, i, e);
    }
  }

  /** After an event that writes the key, only that event counts. */
  lemma LatestReplaced<V>(h: History<V>, ev: Event<V>, key: string, e: Entry<V>)
    requires Writes(ev, key)
    ensures LatestIs(h + [ev], key, e) <==> ev.op == Set(key, e)
    ensures !SeenExpired(h + [ev], key, e)
  {
    var h1 := h + [ev];
    assert h1[|h|] == ev;
    if ev.op == Set(key, e) {
      assert SetLast(h1, key, |h|, e);
    }
  }

  /** The store holds an entry exactly when it is the latest one set and no lookup has
      found it expired. */
  lemma {:induction false} HoldsIff<V>(h: History<V>, key: string, e: Entry<V>)
    ensures key in Run(h) && Run(h)[key] == e <==> LatestIs(h, key, e) && !SeenExpired(h, key, e)
  {
    if h != [] {
      var front, last := h[..|h| - 1], h[|h| - 1];
      assert h == front + [last];
      HoldsIff(front, key, e);
      if Writes(last, key) {
        LatestReplaced(front, last, key, e);
      } else {
        LatestKept(front, last, key, e);
      }
    }
  }

  lemma LatestIsUnique<V>(h: History<V>, key: string, e: Entry<V>, f: Entry<V>)
    requires LatestIs(h, key, e) && LatestIs(h, key, f)
    ensures e == f
  {
    var i: nat :| SetLast(h, key, i, e);
    var j: nat :| SetLast(h, key, j, f);
    assert i == j;
  }

  /** An entry once seen expired stays expired, since time does not run back. */
  lemma SeenStaysExpired<V>(h: History<V>, key: string, e: Entry<V>, now: nat)
    requires NotBefore(h, now) && SeenExpired(h, key, e)
    ensures IsExpired(e, now)
  {
  }

  // ----- What lookups and removals answer

  function GetAnswer<V>(entries: Entries<V>, key: string, now: nat): Option<V>
  {
    if key in entries && !IsExpired(entries[key], now) then Some(entries[key].value) else None
  }

  /** A lookup returns the value last set and not since removed or cleared, exactly while
      its time to live is absent or has not elapsed: the lazy eviction cannot be seen. */
  lemma GetIsExact<V>(h: History<V>, key: string, now: nat, v: V)
    requires NotBefore(h, now)
    ensures GetAnswer(Run(h), key, now) == Some(v)
       <==> exists e :: LatestIs(h, key, e) && !IsExpired(e, now) && e.value == v
  {
    if key in Run(h) {
      HoldsIff(h, key, Run(h)[key]);
    }
    forall e | LatestIs(h, key, e) && !IsExpired(e, now) ensures key in Run(h) && Run(h)[key] == e {
      if SeenExpired(h, key, e) {
        SeenStaysExpired(h, key, e, now);
      }
      HoldsIff(h, key, e);
    }
  }

  /** A removal answers yes exactly when the key has a latest entry that no lookup has
      found expired yet. */
  lemma RemoveIsExact<V>(h: History<V>, key: string)
    ensures key in Run(h) <==> exists e :: LatestIs(h, key, e) && !SeenExpired(h, key, e)
  {
    if key in Run(h) {
      HoldsIff(h, key, Run(h)[key]);
    }
    forall e | LatestIs(h, key, e) && !SeenExpired(h, key, e) ensures key in Run(h) {
      HoldsIff(h, key, e);
    }
  }

  /** So a removal agrees with a lookup at the same moment unless the latest entry has
      expired without having been looked up since. */
  lemma RemoveAgreesWithGetIff<V>(h: History<V>, key: string, now: nat)
    requires NotBefore(h, now)
    ensures (key in Run(h)) == GetAnswer(Run(h), key, now).Some?
       <==> forall e :: LatestIs(h, key, e) && IsExpired(e, now) ==> SeenExpired(h, key, e)
  {
    forall e | LatestIs(h, key, e) ensures key in Run(h) && Run(h)[key] == e <==> !SeenExpired(h, key, e) {
      HoldsIff(h, key, e);
    }
    if key in Run(h) {
      HoldsIff(h, key, Run(h)[key]);
      forall e | LatestIs(h, key, e) ensures e == Run(h)[key] {
        LatestIsUnique(h, key, e, Run(h)[key]);
      }
    }
  }

  /** Two histories with the same writes, between which no lookup can tell, make a removal
      answer differently. */
  lemma RemovalLeaksEviction<V>(v: V)
    ensures
      var first := Event(Set("k", Entry(v, Some(1))), 0);
      var unseen: History<V> := [first];
      var seen: History<V> := [first, Event(Get("k"), 5)];
      && Ordered(unseen) && Ordered(seen)
      && (forall key, now: nat :: now >= 5 ==> GetAnswer(Run(unseen), key, now) == GetAnswer(Run(seen), key, now))
      && "k" in Run(unseen) && "k" !in Run(seen)
  {
    var first := Event(Set("k", Entry(v, Some(1))), 0);
    var unseen: History<V> := [first];
    RunStep([], first);
    RunStep(unseen, Event(Get("k"), 5));
    assert [] + [first] == unseen;
    assert unseen + [Event(Get("k"), 5)] == [first, Event(Get("k"), 5)];
  }

  lemma GetAnswers<V>(h: History<V>, key: string, now: nat)
    requires NotBefore(h, now)
    ensures
      var r := GetAnswer(Run(h), key, now);
      && (r.Some? <==> exists e :: LatestIs(h, key, e) && !IsExpired(e, now))
      && (forall e :: LatestIs(h, key, e) && !IsExpired(e, now) ==> r == Some(e.value))
  {
    hide Run, LatestIs, NotBefore;
    forall e | LatestIs(h, key, e) && !IsExpired(e, now) ensures GetAnswer(Run(h), key, now) == Some(e.value) {
      GetIsExact(h, key, now, e.value);
    }
    if GetAnswer(Run(h), key, now).Some? {
      GetIsExact(h, key, now, GetAnswer(Run(h), key, now).value);
    }
  }

  /** In plain terms: a value set with a time to live `t` when the clock read `r` is found at
      exactly the times before `r + t`, and one set without is found always, until the key is
      written again. */
  lemma SetThenGet<V>(h: History<V>, key: string, value: V, ttl: Option<nat>, readAt: nat, at: nat, now: nat)
    ensures
      var written := h + [Event(Set(key, Entry(value, ExpiryOf(ttl, readAt))), at)];
      GetAnswer(Run(written), key, now) == if ttl.None? || now < readAt + ttl.value then Some(value) else None
  {
    RunStep(h, Event(Set(key, Entry(value, ExpiryOf(ttl, readAt))), at));
  }

  lemma NothingLatest<V>(h: History<V>, ev: Event<V>, key: string)
    requires Writes(ev, key) && !ev.op.Set?
    ensures forall e :: !LatestIs(h + [ev], key, e)
  {
    hide LatestIs;
    forall e ensures !LatestIs(h + [ev], key, e) {
      LatestReplaced(h, ev, key, e);
    }
  }

  lemma OrderedStep<V>(h: History<V>, ev: Event<V>)
    requires Ordered(h) && NotBefore(h, ev.at)
    ensures Ordered(h + [ev])
  {
  }

  // ----- The store as an object

  class InMemoryCacheStore<V> {
    var entries: Entries<V>
    ghost var history: History<V>

    ghost predicate Valid()
      reads this
    {
      entries == Run(history) && Ordered(history)
    }

    ghost predicate MayHappenAt(now: nat)
      reads this
    {
      NotBefore(history, now)
    }

    constructor ()
      ensures Valid() && history == []
    {
      entries, history := map[], [];
    }

    method Get(key: string, now: nat) returns (r: Option<V>)
      requires Valid() && MayHappenAt(now)
      modifies this
      ensures Valid() && history == old(history) + [Event(Op.Get(key), now)]
      ensures r.Some? <==> exists e :: LatestIs(old(history), key, e) && !IsExpired(e, now)
      ensures forall e :: LatestIs(old(history), key, e) && !IsExpired(e, now) ==> r == Some(e.value)
    {
      hide Run, Ordered, NotBefore;
      RunStep(history, Event(Op.Get(key), now));
      OrderedStep(history, Event(Op.Get(key), now));
      GetAnswers(history, key, now);
      ghost var answer := GetAnswer(entries, key, now);
      r := None;
      if key in entries {
        if IsExpired(entries[key], now) {
          entries := entries - {key};
        } else {
          r := Some(entries[key].value);
        }
      }
      assert r == answer;
      history := history + [Event(Op.Get(key), now)];
    }

    method Set(key: string, value: V, ttl: Option<nat>, readAt: nat, now: nat)
      requires Valid() && MayHappenAt(now) && readAt <= now
      modifies this
      ensures Valid()
      ensures history == old(history) + [Event(Op.Set(key, Entry(value, ExpiryOf(ttl, readAt))), now)]
      ensures LatestIs(history, key, Entry(value, ExpiryOf(ttl, readAt)))
    {
      hide Run, Ordered, NotBefore;
      var entry := Entry(value, ExpiryOf(ttl, readAt));
      ghost var event := Event(Op.Set(key, entry), now);
      RunStep(history, event);
      OrderedStep(history, event);
      LatestReplaced(history, event, key, entry);
      entries := entries[key := entry];
      history := history + [event];
    }

    method Remove(key: string, now: nat) returns (removed: bool)
      requires Valid() && MayHappenAt(now)
      modifies this
      ensures Valid() && history == old(history) + [Event(Op.Remove(key), now)]
      ensures removed <==> exists e :: LatestIs(old(history), key, e) && !SeenExpired(old(history), key, e)
      ensures forall e :: !LatestIs(history, key, e)
    {
      hide Run, Ordered, NotBefore;
      ghost var event := Event(Op.Remove(key), now);
      RunStep(history, event);
      OrderedStep(history, event);
      NothingLatest(history, event, key);
      RemoveIsExact(history, key);
      removed := key in entries;
      entries := entries - {key};
      history := history + [event];
    }

    method Clear(now: nat)
      requires Valid() && MayHappenAt(now)
      modifies this
      ensures Valid() && history == old(history) + [Event(Op.Clear, now)]
      ensures forall key, e :: !LatestIs(history, key, e)
    {
      hide Run, Ordered, NotBefore;
      ghost var event := Event(Op.Clear, now);
      RunStep(history, event);
      OrderedStep(history, event);
      forall key, e ensures !LatestIs(history + [event], key, e) {
        NothingLatest(history, event, key);
      }
      entries := map[];
      history := history + [event];
    }

    /** Any one operation; what it answers goes to its own caller. */
    method Perform(op: Op<V>, now: nat)
      requires Valid() && MayHappenAt(now)
      modifies this
      ensures Valid() && history == old(history) + [Event(op, now)]
    {
      match op
      case Set(key, entry) =>
        hide Run, Ordered, NotBefore;
        RunStep(history, Event(op, now));
        OrderedStep(history, Event(op, now));
        entries := entries[key := entry];
        history := history + [Event(op, now)];
      case Get(key) =>
        var _ := Get(key, now);
      case Remove(key) =>
        var _ := Remove(key, now);
      case Clear =>
        Clear(now);
    }

    method PerformAll(others: seq<Event<V>>, from: nat, now: nat)
      requires Valid() && MayHappenAt(from) && from <= now
      requires Ordered(others) && forall i :: 0 <= i < |others| ==> from <= others[i].at <= now
      modifies this
      ensures Valid() && MayHappenAt(now) && history == old(history) + others
    {
      hide Run, SetLast, Ordered;
      ghost var before := history;
      AllInOrder(before, others, from);
      for i := 0 to |others|
        invariant Valid() && history == before + others[..i]
      {
        NotBeforeNext(before, others, i);
        Perform(others[i].op, others[i].at);
        assert others[..i + 1] == others[..i] + [others[i]];
      }
      assert others[..|others|] == others;
    }

    /** Look the key up and, when there is nothing, run the factory (whose outcome is
        `made`) and store what it gives. While the factory runs, other callers may do
        `others`: the insertion comes after all that and is what the key then holds. */
    method GetOrInsert(key: string, ttl: Option<nat>, made: Result<V>, others: seq<Event<V>>,
                       lookedUp: nat, readAt: nat, now: nat) returns (r: Result<V>)
      requires Valid() && MayHappenAt(lookedUp) && lookedUp <= now && readAt <= now
      requires Ordered(others) && forall i :: 0 <= i < |others| ==> lookedUp <= others[i].at <= now
      modifies this
      ensures Valid()
      ensures forall e :: LatestIs(old(history), key, e) && !IsExpired(e, lookedUp) ==>
          r == Ok(e.value) && history == old(history) + [Event(Op.Get(key), lookedUp)] && LatestIs(history, key, e)
      ensures (forall e :: LatestIs(old(history), key, e) ==> IsExpired(e, lookedUp)) ==>
          && r == made
          && history == old(history) + [Event(Op.Get(key), lookedUp)] + others + Inserted(key, ttl, made, readAt, now)
          && (made.Ok? ==> LatestIs(history, key, Entry(made.value, ExpiryOf(ttl, readAt))))
    {
      ghost var before := history;
      ghost var looked := Event(Op.Get(key), lookedUp);
      var found := Get(key, lookedUp);
      forall e ensures LatestIs(before, key, e) <==> LatestIs(history, key, e) {
        LatestKept(before, looked, key, e);
      }
      if found.Some? {
        return Ok(found.value);
      }
      PerformAll(others, lookedUp, now);
      assert made.Err? ==> history + [] == history;
      if made.Err? {
        return made;
      }
      Set(key, made.value, ttl, readAt, now);
      return made;
    }
  }

  lemma AllInOrder<V>(h: History<V>, others: seq<Event<V>>, from: nat)
    requires Ordered(h) && Ordered(others) && NotBefore(h, from)
    requires forall i :: 0 <= i < |others| ==> from <= others[i].at
    ensures Ordered(h + others)
  {
  }

  lemma NotBeforeNext<V>(h: History<V>, others: seq<Event<V>>, i: nat)
    requires Ordered(h + others) && i < |others|
    ensures NotBefore(h + others[..i], others[i].at)
  {
    var all := h + others;
    assert all[|h| + i] == others[i];
    assert forall k :: 0 <= k < |h| + i ==> (h + others[..i])[k] == all[k];
  }

  /** What a successful factory adds to the history. */
  function Inserted<V>(key: string, ttl: Option<nat>, made: Result<V>, readAt: nat, now: nat): History<V>
  {
    if made.Ok? then [Event(Set(key, Entry(made.value, ExpiryOf(ttl, readAt))), now)] else []
  }
}
