/** Looking up a route by method and path, and the methods that a path allows. */
module RouteLookup {
  import opened Results
  import opened Dispatch

  /** The route for a method: the first most specific one with exactly that method, or
      else the first most specific one that accepts it. */
  ghost predicate IsRouteFor(t: Table, cs: seq<Candidate>, best: Best, m: HttpMethod, found: Option<nat>)
  {
    match best
    case None => found.None?
    case Some((c, sp)) =>
      && c < |cs|
      && (|| (found.Some? && IsFirst(t, PathOnly, cs[c], sp, Exactly(m), found))
          || (&& IsFirst(t, PathOnly, cs[c], sp, Exactly(m), None)
              && IsFirst(t, PathOnly, cs[c], sp, Accepting(m), found)))
  }

  ghost predicate ResolvesTo(t: Table, cs: seq<Candidate>, m: HttpMethod, found: Option<nat>)
  {
    exists best :: IsBest(t, PathOnly, cs, best) && IsRouteFor(t, cs, best, m, found)
  }

  method RouteFor(t: Table, cs: seq<Candidate>, m: HttpMethod) returns (found: Option<nat>)
    ensures ResolvesTo(t, cs, m, found)
  {
    var best := BestSpecificity(t, PathOnly, cs);
    if best.None? {
      assert IsRouteFor(t, cs, best, m, None);
      return None;
    }
    var (c, sp) := best.value;
    found := MatchingRoute(t, PathOnly, cs[c], sp, Exactly(m));
    if found.None? {
      found := MatchingRoute(t, PathOnly, cs[c], sp, Accepting(m));
    }
    assert IsRouteFor(t, cs, best, m, found);
  }

  /** A most specific route for the path with this method, among the first `j` routes. */
  ghost predicate RegisteredUpTo(t: Table, c: Candidate, specificity: seq<nat>, m: HttpMethod, j: nat)
    requires j <= |t.routes|
  {
    exists r :: 0 <= r < j && Eligible(t, PathOnly, c, specificity, t.routes[r]) && t.routes[r].httpMethod == m
  }

  ghost predicate Registered(t: Table, cs: seq<Candidate>, best: Best, m: HttpMethod)
  {
    best.Some? && best.value.0 < |cs| && RegisteredUpTo(t, cs[best.value.0], best.value.1, m, |t.routes|)
  }

  lemma RegisteredStep(t: Table, c: Candidate, specificity: seq<nat>, j: nat)
    requires j < |t.routes|
    ensures forall m :: RegisteredUpTo(t, c, specificity, m, j + 1) <==>
      RegisteredUpTo(t, c, specificity, m, j)
      || (Eligible(t, PathOnly, c, specificity, t.routes[j]) && t.routes[j].httpMethod == m)
  {
    hide Eligible;
  }

  /** The methods reported for a path: every standard method when a wildcard route is
      among the most specific ones, and otherwise the methods of those routes. */
  ghost predicate IsAllowed(t: Table, cs: seq<Candidate>, best: Best, methods: seq<HttpMethod>)
  {
    if Registered(t, cs, best, All) then methods == STANDARD
    else
      && (forall m :: m in methods <==> Registered(t, cs, best, m))
      && (forall i, j :: 0 <= i < j < |methods| ==> methods[i] != methods[j])
  }

  ghost predicate AllowedAre(t: Table, cs: seq<Candidate>, methods: seq<HttpMethod>)
  {
    exists best :: IsBest(t, PathOnly, cs, best) && IsAllowed(t, cs, best, methods)
  }

  lemma BestIsCandidate(t: Table, cs: seq<Candidate>, best: Best)
    requires IsBest(t, PathOnly, cs, best) && best.Some?
    ensures best.value.0 < |cs|
  {
  }

  method AllowedMethods(t: Table, cs: seq<Candidate>) returns (methods: seq<HttpMethod>)
    ensures AllowedAre(t, cs, methods)
  {
    hide Eligible, IsBest;
    methods := [];
    var best := BestSpecificity(t, PathOnly, cs);
    if best.None? {
      assert IsAllowed(t, cs, best, methods);
      return;
    }
    BestIsCandidate(t, cs, best);
    var (c, sp) := best.value;
    var hasWildcard := false;
    for r := 0 to |t.routes|
      invariant hasWildcard <==> RegisteredUpTo(t, cs[c], sp, All, r)
      invariant forall m :: m in methods <==> m != All && RegisteredUpTo(t, cs[c], sp, m, r)
      invariant forall i, j :: 0 <= i < j < |methods| ==> methods[i] != methods[j]
    {
      RegisteredStep(t, cs[c], sp, r);
      if Eligible(t, PathOnly, cs[c], sp, t.routes[r]) {
        if t.routes[r].httpMethod == All {
          hasWildcard := true;
        } else if t.routes[r].httpMethod !in methods {
          methods := methods + [t.routes[r].httpMethod];
        }
      }
    }
    if hasWildcard {
      methods := STANDARD;
    }
    assert IsAllowed(t, cs, best, methods);
  }

  lemma StandardHolds(m: HttpMethod)
    requires m != All
    ensures m in STANDARD
  {
    assert STANDARD[0] == Get && STANDARD[1] == Post && STANDARD[2] == Put && STANDARD[3] == Patch
      && STANDARD[4] == Delete && STANDARD[5] == Options && STANDARD[6] == Head;
  }

  /** A standard method is allowed on a path exactly when a route resolves for it. */
  lemma AllowedIffRouteResolves(
    t: Table, cs: seq<Candidate>, methods: seq<HttpMethod>, m: HttpMethod, found: Option<nat>)
    requires AllowedAre(t, cs, methods) && ResolvesTo(t, cs, m, found)
    requires m != All
    ensures m in methods <==> found.Some?
  {
    hide Eligible, IsBest;
    var a :| IsBest(t, PathOnly, cs, a) && IsAllowed(t, cs, a, methods);
    var b :| IsBest(t, PathOnly, cs, b) && IsRouteFor(t, cs, b, m, found);
    BestIsUnique(t, PathOnly, cs, a, b);
    StandardHolds(m);
    if found.Some? {
      assert Registered(t, cs, a, t.routes[found.value].httpMethod);
    }
    if m in methods {
      assert Registered(t, cs, a, All) || Registered(t, cs, a, m);
    }
  }
}
