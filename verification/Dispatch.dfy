/** Route resolution: the most specific matching routes, the choice among them by
    method, the methods allowed on a path, and the uniqueness check made when an
    application is built. */
module Dispatch {
  import opened Results
  import Paths
  import Hosts
  import Versioning

  datatype HttpMethod = All | Get | Post | Put | Patch | Delete | Options | Head

  const STANDARD := [Get, Post, Put, Patch, Delete, Options, Head]

  predicate Accepts(m: HttpMethod, requested: HttpMethod)
  {
    m == requested || (m.All? && !requested.All?)
  }

  datatype Route = Route(
    httpMethod: HttpMethod, path: string, host: Option<string>, versioning: Versioning.RouteVersioning)

  datatype ApiVersioning = ApiVersioning(defaultVersion: Option<string>)

  /** A path with the version taken out of it (or of a header), if one was requested. */
  datatype Candidate = Candidate(path: string, version: Option<string>)

  /** What is matched besides path and version: nothing, or the request's host. */
  datatype Scope = PathOnly | WithHost(host: Option<string>)

  datatype Table = Table(routes: seq<Route>, versioning: Option<ApiVersioning>)

  predicate MatchesPathAndVersion(t: Table, route: Route, c: Candidate)
  {
    && Paths.MatchesPathShape(route.path, c.path)
    && (t.versioning.Some? ==> Versioning.Matches(route.versioning, c.version, t.versioning.value.defaultVersion))
  }

  predicate MatchesIn(t: Table, scope: Scope, route: Route, c: Candidate)
  {
    && MatchesPathAndVersion(t, route, c)
    && (scope.WithHost? ==> Hosts.MatchesHost(route.host, scope.host))
  }

  function Specificity(scope: Scope, route: Route): seq<nat>
  {
    match scope
    case PathOnly => Paths.PathSpecificity(route.path)
    case WithHost(_) => Paths.PathSpecificity(route.path) + [2] + Hosts.HostSpecificity(route.host)
  }

  /** Lexicographic order; a proper prefix is smaller. */
  predicate LexLess(a: seq<nat>, b: seq<nat>)
  {
    if b == [] then false
    else if a == [] then true
    else a[0] < b[0] || (a[0] == b[0] && LexLess(a[1..], b[1..]))
  }

  lemma {:induction false} LexTotal(a: seq<nat>, b: seq<nat>)
    ensures LexLess(a, b) || a == b || LexLess(b, a)
    ensures !(LexLess(a, b) && LexLess(b, a)) && !LexLess(a, a)
    decreases |a|
  {
    if a != [] {
      LexTotal(a[1..], a[1..]);
      if b != [] {
        LexTotal(a[1..], b[1..]);
        assert a == [a[0]] + a[1..] && b == [b[0]] + b[1..];
      }
    }
  }

  lemma {:induction false} LexTransitive(a: seq<nat>, b: seq<nat>, c: seq<nat>)
    requires LexLess(a, b) && LexLess(b, c)
    ensures LexLess(a, c)
    decreases |a|
  {
    if a != [] && a[0] == b[0] == c[0] {
      LexTransitive(a[1..], b[1..], c[1..]);
    }
  }

  type Best = Option<(nat, seq<nat>)>

  /** The best candidate so far after looking at the first `j` routes for candidate `i`. */
  ghost predicate BestUpTo(t: Table, scope: Scope, cs: seq<Candidate>, i: nat, j: nat, best: Best)
    requires i <= |cs| && j <= |t.routes|
  {
    && (best.None? ==> forall c, r :: Seen(t, cs, i, j, c, r) ==> !MatchesIn(t, scope, t.routes[r], cs[c]))
    && (best.Some? ==>
          && best.value.0 < |cs|
          && (exists r :: Seen(t, cs, i, j, best.value.0, r)
                && MatchesIn(t, scope, t.routes[r], cs[best.value.0])
                && Specificity(scope, t.routes[r]) == best.value.1)
          && (forall c, r :: Seen(t, cs, i, j, c, r) && MatchesIn(t, scope, t.routes[r], cs[c]) ==>
                !LexLess(best.value.1, Specificity(scope, t.routes[r])))
          && (forall c, r :: Seen(t, cs, i, j, c, r) && c < best.value.0 && MatchesIn(t, scope, t.routes[r], cs[c]) ==>
                Specificity(scope, t.routes[r]) != best.value.1))
  }

  /** The pair of candidate `c` and route `r` was looked at before (i, j). */
  predicate Seen(t: Table, cs: seq<Candidate>, i: nat, j: nat, c: int, r: int)
  {
    0 <= c < |cs| && 0 <= r < |t.routes| && (c < i || (c == i && r < j))
  }

  /** `best` is the first candidate that attains the greatest specificity of all
      matches, with that specificity; nothing when nothing matches. */
  ghost predicate IsBest(t: Table, scope: Scope, cs: seq<Candidate>, best: Best)
  {
    BestUpTo(t, scope, cs, |cs|, 0, best)
  }

  method BestSpecificity(t: Table, scope: Scope, cs: seq<Candidate>) returns (best: Best)
    ensures IsBest(t, scope, cs, best)
  {
    hide MatchesIn, Specificity, LexLess;
    best := None;
    for i := 0 to |cs|
      invariant BestUpTo(t, scope, cs, i, 0, best)
    {
      for j := 0 to |t.routes|
        invariant BestUpTo(t, scope, cs, i, j, best)
      {
        ghost var before := best;
        var route := t.routes[j];
        if MatchesIn(t, scope, route, cs[i]) {
          var specificity := Specificity(scope, route);
          if best.None? || LexLess(best.value.1, specificity) {
            best := Some((i, specificity));
          }
        }
        BestStep(t, scope, cs, i, j, before, best);
      }
      BestRow(t, scope, cs, i, best);
    }
  }

  lemma BestStep(t: Table, scope: Scope, cs: seq<Candidate>, i: nat, j: nat, before: Best, best: Best)
    requires i < |cs| && j < |t.routes| && BestUpTo(t, scope, cs, i, j, before)
    requires best ==
      if MatchesIn(t, scope, t.routes[j], cs[i]) &&
        (before.None? || LexLess(before.value.1, Specificity(scope, t.routes[j])))
      then Some((i, Specificity(scope, t.routes[j]))) else before
    ensures BestUpTo(t, scope, cs, i, j + 1, best)
  {
    hide MatchesIn, Specificity;
    var sp := Specificity(scope, t.routes[j]);
    if best != before {
      assert Seen(t, cs, i, j + 1, i, j);
      forall c, r | Seen(t, cs, i, j + 1, c, r) && MatchesIn(t, scope, t.routes[r], cs[c])
        ensures !LexLess(sp, Specificity(scope, t.routes[r]))
        ensures c < i ==> Specificity(scope, t.routes[r]) != sp
      {
        LexTotal(sp, sp);
        if !(c == i && r == j) {
          assert Seen(t, cs, i, j, c, r);
          var other := Specificity(scope, t.routes[r]);
          if LexLess(sp, other) {
            LexTransitive(before.value.1, sp, other);
          }
        }
      }
    } else {
      forall c, r | Seen(t, cs, i, j + 1, c, r) && !(c == i && r == j) ensures Seen(t, cs, i, j, c, r) {
      }
      if before.Some? {
        var r :| Seen(t, cs, i, j, before.value.0, r)
          && MatchesIn(t, scope, t.routes[r], cs[before.value.0]) && Specificity(scope, t.routes[r]) == before.value.1;
        assert Seen(t, cs, i, j + 1, before.value.0, r);
      }
    }
  }

  lemma BestRow(t: Table, scope: Scope, cs: seq<Candidate>, i: nat, best: Best)
    requires i < |cs| && BestUpTo(t, scope, cs, i, |t.routes|, best)
    ensures BestUpTo(t, scope, cs, i + 1, 0, best)
  {
    hide MatchesIn, Specificity, LexLess;
    forall c, r ensures Seen(t, cs, i + 1, 0, c, r) <==> Seen(t, cs, i, |t.routes|, c, r) {
    }
  }

  lemma BestIsUnique(t: Table, scope: Scope, cs: seq<Candidate>, a: Best, b: Best)
    requires IsBest(t, scope, cs, a) && IsBest(t, scope, cs, b)
    ensures a == b
  {
    hide MatchesIn, Specificity, LexLess;
    if a.Some? && b.Some? {
      var p :| Seen(t, cs, |cs|, 0, a.value.0, p)
        && MatchesIn(t, scope, t.routes[p], cs[a.value.0]) && Specificity(scope, t.routes[p]) == a.value.1;
      var q :| Seen(t, cs, |cs|, 0, b.value.0, q)
        && MatchesIn(t, scope, t.routes[q], cs[b.value.0]) && Specificity(scope, t.routes[q]) == b.value.1;
      LexTotal(a.value.1, b.value.1);
    }
  }

  /** A route of the best specificity that matches the best candidate. */
  predicate Eligible(t: Table, scope: Scope, c: Candidate, specificity: seq<nat>, route: Route)
  {
    MatchesIn(t, scope, route, c) && Specificity(scope, route) == specificity
  }

  datatype Wanted = Exactly(m: HttpMethod) | Accepting(m: HttpMethod) | Anything

  predicate Suits(wanted: Wanted, m: HttpMethod)
  {
    match wanted
    case Exactly(requested) => m == requested
    case Accepting(requested) => Accepts(m, requested)
    case Anything => true
  }

  ghost predicate IsFirst(
    t: Table, scope: Scope, c: Candidate, specificity: seq<nat>, wanted: Wanted, found: Option<nat>)
  {
    match found
    case None => forall r :: 0 <= r < |t.routes| && Eligible(t, scope, c, specificity, t.routes[r]) ==>
      !Suits(wanted, t.routes[r].httpMethod)
    case Some(i) =>
      && i < |t.routes| && Eligible(t, scope, c, specificity, t.routes[i]) && Suits(wanted, t.routes[i].httpMethod)
      && forall r :: 0 <= r < i && Eligible(t, scope, c, specificity, t.routes[r]) ==>
        !Suits(wanted, t.routes[r].httpMethod)
  }

  method MatchingRoute(
    t: Table, scope: Scope, c: Candidate, specificity: seq<nat>, wanted: Wanted) returns (found: Option<nat>)
    ensures IsFirst(t, scope, c, specificity, wanted, found)
  {
    hide Eligible, Suits;
    for r := 0 to |t.routes|
      invariant forall k :: 0 <= k < r && Eligible(t, scope, c, specificity, t.routes[k]) ==>
        !Suits(wanted, t.routes[k].httpMethod)
    {
      if Eligible(t, scope, c, specificity, t.routes[r]) && Suits(wanted, t.routes[r].httpMethod) {
        return Some(r);
      }
    }
    return None;
  }

  /** What `call` does with a request: report that nothing is found, or hand it to the
      route at `index` with the path of candidate `candidate`. */
  datatype Dispatched = NotFound | Handled(index: nat, candidate: nat)

  /** The dispatch rule: among the routes of greatest specificity for the best
      candidate, the first with exactly the request's method; failing that, the first
      that accepts it; failing that, the first. */
  ghost predicate IsDispatch(t: Table, cs: seq<Candidate>, host: Option<string>, m: HttpMethod, d: Dispatched)
  {
    exists best :: IsBest(t, WithHost(host), cs, best) && DispatchesBy(t, cs, host, m, best, d)
  }

  ghost predicate DispatchesBy(
    t: Table, cs: seq<Candidate>, host: Option<string>, m: HttpMethod, best: Best, d: Dispatched)
  {
    match best
    case None => d == NotFound
    case Some((c, sp)) =>
      && c < |cs| && d.Handled? && d.candidate == c
      && d.index < |t.routes| && Eligible(t, WithHost(host), cs[c], sp, t.routes[d.index])
      && (|| IsFirst(t, WithHost(host), cs[c], sp, Exactly(m), Some(d.index))
          || (&& IsFirst(t, WithHost(host), cs[c], sp, Exactly(m), None)
              && IsFirst(t, WithHost(host), cs[c], sp, Accepting(m), Some(d.index)))
          || (&& IsFirst(t, WithHost(host), cs[c], sp, Accepting(m), None)
              && IsFirst(t, WithHost(host), cs[c], sp, Anything, Some(d.index))))
  }

  /** Dispatch a request. The final "not found" after the three searches is never reached. */
  method Call(t: Table, cs: seq<Candidate>, host: Option<string>, m: HttpMethod) returns (d: Dispatched)
    ensures IsDispatch(t, cs, host, m, d)
    ensures d.NotFound? <==> forall c, r :: 0 <= c < |cs| && 0 <= r < |t.routes| ==>
      !MatchesIn(t, WithHost(host), t.routes[r], cs[c])
  {
    hide MatchesIn, Specificity, LexLess;
    var scope := WithHost(host);
    var best := BestSpecificity(t, scope, cs);
    SeenAll(t, cs);
    if best.None? {
      assert DispatchesBy(t, cs, host, m, best, NotFound);
      return NotFound;
    }
    var (c, sp) := best.value;
    var found := MatchingRoute(t, scope, cs[c], sp, Exactly(m));
    if found.Some? {
      assert DispatchesBy(t, cs, host, m, best, Handled(found.value, c));
      return Handled(found.value, c);
    }
    found := MatchingRoute(t, scope, cs[c], sp, Accepting(m));
    if found.Some? {
      assert DispatchesBy(t, cs, host, m, best, Handled(found.value, c));
      return Handled(found.value, c);
    }
    found := MatchingRoute(t, scope, cs[c], sp, Anything);
    assert found.Some?;
    assert DispatchesBy(t, cs, host, m, best, Handled(found.value, c));
    return Handled(found.value, c);
  }

  lemma SeenAll(t: Table, cs: seq<Candidate>)
    ensures forall c, r :: Seen(t, cs, |cs|, 0, c, r) <==> 0 <= c < |cs| && 0 <= r < |t.routes|
  {
  }

  /** The chosen route matches, and no route of the table matches any candidate with
      lexicographically greater specificity; a route with exactly the request's method
      is preferred to a wildcard, and a wildcard to a route that refuses the method. */
  lemma DispatchIsMostSpecific(t: Table, cs: seq<Candidate>, host: Option<string>, m: HttpMethod, d: Dispatched)
    requires IsDispatch(t, cs, host, m, d) && d.Handled?
    ensures d.index < |t.routes| && d.candidate < |cs|
    ensures MatchesIn(t, WithHost(host), t.routes[d.index], cs[d.candidate])
    ensures forall c, r :: 0 <= c < |cs| && 0 <= r < |t.routes| && MatchesIn(t, WithHost(host), t.routes[r], cs[c]) ==>
      !LexLess(Specificity(WithHost(host), t.routes[d.index]), Specificity(WithHost(host), t.routes[r]))
    ensures
      var sp := Specificity(WithHost(host), t.routes[d.index]);
      forall r | 0 <= r < |t.routes| && Eligible(t, WithHost(host), cs[d.candidate], sp, t.routes[r]) ::
        && (t.routes[r].httpMethod == m ==> t.routes[d.index].httpMethod == m)
        && (Accepts(t.routes[r].httpMethod, m) ==> Accepts(t.routes[d.index].httpMethod, m))
  {
    hide MatchesIn, Specificity, LexLess;
    SeenAll(t, cs);
    var best :| IsBest(t, WithHost(host), cs, best) && DispatchesBy(t, cs, host, m, best, d);
  }

  // ----- The uniqueness check made by the builder

  predicate SameShape(a: Route, b: Route)
  {
    && a.httpMethod == b.httpMethod
    && Paths.ShapeKey(a.path) == Paths.ShapeKey(b.path)
    && Hosts.HostKeyOf(a.host) == Hosts.HostKeyOf(b.host)
  }

  predicate Duplicates(versioning: Option<ApiVersioning>, a: Route, b: Route)
  {
    && SameShape(a, b)
    && (versioning.Some? ==> Versioning.Overlaps(a.versioning, b.versioning, versioning.value.defaultVersion))
  }

  ghost predicate UniqueRoutes(t: Table)
  {
    forall i, j :: 0 <= j < i < |t.routes| ==> !Duplicates(t.versioning, t.routes[j], t.routes[i])
  }

  method ValidateUniqueRoutes(t: Table) returns (r: Result<()>)
    ensures r.Ok? <==> UniqueRoutes(t)
    ensures r.Err? ==> r.error.DuplicateRoute? && r.error.index < |t.routes|
    ensures r.Err? ==>
              exists j :: 0 <= j < r.error.index && Duplicates(t.versioning, t.routes[j], t.routes[r.error.index])
  {
    hide Duplicates;
    for i := 0 to |t.routes|
      invariant forall k, j :: 0 <= j < k < i ==> !Duplicates(t.versioning, t.routes[j], t.routes[k])
    {
      for j := 0 to i
        invariant forall k :: 0 <= k < j ==> !Duplicates(t.versioning, t.routes[k], t.routes[i])
      {
        if Duplicates(t.versioning, t.routes[j], t.routes[i]) {
          return Err(DuplicateRoute(i));
        }
      }
    }
    return Ok(());
  }

  /** Every route carries a path and host that passed validation. */
  ghost predicate ValidTable(t: Table)
  {
    forall i :: 0 <= i < |t.routes| ==> ValidRoute(t.routes[i])
  }

  predicate ValidRoute(route: Route)
  {
    && Paths.ValidRoutePath(route.path)
    && (route.host.Some? ==> Hosts.ValidHostPattern(route.host.value))
  }

  /** Rejecting a duplicate is justified: the two routes accept exactly the same paths
      and hosts and, unless one is neutral and the other serves nothing, some version. */
  lemma DuplicateIsGenuine(versioning: Option<ApiVersioning>, a: Route, b: Route)
    requires ValidRoute(a) && ValidRoute(b) && Duplicates(versioning, a, b)
    ensures forall path :: Paths.MatchesPathShape(a.path, path) == Paths.MatchesPathShape(b.path, path)
    ensures forall host :: Hosts.MatchesHost(a.host, host) == Hosts.MatchesHost(b.host, host)
    ensures versioning.Some? && !Versioning.NeutralAgainstNothing(a.versioning, b.versioning) ==>
      Versioning.ServeCommonVersion(a.versioning, b.versioning, versioning.value.defaultVersion)
  {
    forall path ensures Paths.MatchesPathShape(a.path, path) == Paths.MatchesPathShape(b.path, path) {
      Paths.SameKeyMatchesSamePaths(a.path, b.path, path);
    }
    forall host ensures Hosts.MatchesHost(a.host, host) == Hosts.MatchesHost(b.host, host) {
      if a.host.Some? && b.host.Some? && host.Some? {
        Hosts.SameHostKeyMatchesSameHosts(a.host.value, b.host.value, host.value);
      }
    }
    if versioning.Some? {
      Versioning.OverlapsIffCommonVersion(a.versioning, b.versioning, versioning.value.defaultVersion);
    }
  }

  lemma SeparatorIsLastTwo(p: seq<nat>, h: seq<nat>)
    requires forall i :: 0 <= i < |h| ==> h[i] <= 1
    ensures
      var s := p + [2] + h;
      && s[|p|] == 2 && (forall k :: |p| < k < |s| ==> s[k] <= 1)
      && s[..|p|] == p && s[|p| + 1..] == h
  {
  }

  /** The path part and the host part can be read back from a combined specificity. */
  lemma SpecificitySplits(p: seq<nat>, h: seq<nat>, q: seq<nat>, g: seq<nat>)
    requires p + [2] + h == q + [2] + g
    requires forall i :: 0 <= i < |h| ==> h[i] <= 1
    requires forall i :: 0 <= i < |g| ==> g[i] <= 1
    ensures p == q && h == g
  {
    SeparatorIsLastTwo(p, h);
    SeparatorIsLastTwo(q, g);
  }

  /** Routes that the uniqueness check lets through although they can tie: one method, one
      path shape, a common version, and ambiguous hosts. */
  predicate Conflict(versioning: Option<ApiVersioning>, a: Route, b: Route)
  {
    && a.httpMethod == b.httpMethod
    && Paths.ShapeKey(a.path) == Paths.ShapeKey(b.path)
    && Hosts.HostsAmbiguous(a.host, b.host)
    && (versioning.Some? ==> Versioning.Overlaps(a.versioning, b.versioning, versioning.value.defaultVersion))
  }

  /** Routes for one method that accept the same request with equal specificity are
      duplicates or in conflict. */
  lemma TiedRoutesAreDuplicates(t: Table, host: Option<string>, c: Candidate, a: Route, b: Route)
    requires ValidRoute(a) && a.httpMethod == b.httpMethod
    requires MatchesIn(t, WithHost(host), a, c) && MatchesIn(t, WithHost(host), b, c)
    requires Specificity(WithHost(host), a) == Specificity(WithHost(host), b)
    ensures Duplicates(t.versioning, a, b) || Conflict(t.versioning, a, b)
  {
    hide Paths.MatchesPathShape, Paths.ShapeKey, Hosts.MatchesHost, Hosts.HostSpecificity, Hosts.HostKeyOf,
         Hosts.HostsAmbiguous,
         Paths.ValidRoutePath, Hosts.ValidHostPattern, Versioning.Matches, Versioning.Overlaps, Paths.PathSpecificity;
    SpecificitySplits(Paths.PathSpecificity(a.path), Hosts.HostSpecificity(a.host),
                      Paths.PathSpecificity(b.path), Hosts.HostSpecificity(b.host));
    Paths.TiedPathsShareShapeKey(a.path, b.path, c.path);
    Hosts.TiedHostsShareKey(a.host, b.host, host);
    if t.versioning.Some? {
      var default := t.versioning.value.defaultVersion;
      assert Versioning.ServeCommonVersion(a.versioning, b.versioning, default);
      Versioning.OverlapsIffCommonVersion(a.versioning, b.versioning, default);
    }
  }

  lemma ConflictIsSymmetric(versioning: Option<ApiVersioning>, a: Route, b: Route)
    ensures Conflict(versioning, a, b) == Conflict(versioning, b, a)
    ensures Duplicates(versioning, a, b) == Duplicates(versioning, b, a)
  {
    if versioning.Some? {
      Versioning.OverlapIsSymmetric(a.versioning, b.versioning, versioning.value.defaultVersion);
    }
  }

  /** In a built application, two routes for the same method that accept the same
      request with equal specificity are one and the same, or in conflict. */
  lemma TiedRoutesAreOne(t: Table, host: Option<string>, c: Candidate, i: nat, j: nat)
    requires ValidTable(t) && UniqueRoutes(t) && i < |t.routes| && j < |t.routes|
    requires MatchesIn(t, WithHost(host), t.routes[i], c) && MatchesIn(t, WithHost(host), t.routes[j], c)
    requires Specificity(WithHost(host), t.routes[i]) == Specificity(WithHost(host), t.routes[j])
    requires t.routes[i].httpMethod == t.routes[j].httpMethod
    ensures i == j || Conflict(t.versioning, t.routes[i], t.routes[j])
  {
    hide MatchesIn, Specificity, Duplicates, Conflict, ValidRoute;
    TiedRoutesAreDuplicates(t, host, c, t.routes[i], t.routes[j]);
    ConflictIsSymmetric(t.versioning, t.routes[i], t.routes[j]);
  }

  /** In a built application at most one route among those with the same method, path
      shape and host shape serves any given version. */
  lemma OneRoutePerShapeAndVersion(t: Table, default: Option<string>, requested: Option<string>, i: nat, j: nat)
    requires UniqueRoutes(t) && t.versioning == Some(ApiVersioning(default)) && i < j < |t.routes|
    requires SameShape(t.routes[i], t.routes[j])
    ensures !(Versioning.Matches(t.routes[i].versioning, requested, default)
              && Versioning.Matches(t.routes[j].versioning, requested, default))
  {
    Versioning.OverlapsIffCommonVersion(t.routes[i].versioning, t.routes[j].versioning, default);
    assert !Duplicates(t.versioning, t.routes[i], t.routes[j]);
  }

  // ----- When the table order matters

  ghost predicate Reordering(t: Table, u: Table)
  {
    t.versioning == u.versioning && multiset(t.routes) == multiset(u.routes)
  }

  ghost predicate SameRoutes(t: Table, u: Table)
  {
    && t.versioning == u.versioning
    && (forall r :: r in t.routes <==> r in u.routes)
  }

  lemma ReorderingHasSameRoutes(t: Table, u: Table)
    requires Reordering(t, u)
    ensures SameRoutes(t, u)
  {
    assert forall r :: r in t.routes <==> r in multiset(t.routes);
    assert forall r :: r in u.routes <==> r in multiset(u.routes);
  }

  lemma MatchesInBoth(t: Table, u: Table, scope: Scope, route: Route, c: Candidate)
    requires t.versioning == u.versioning
    ensures MatchesIn(t, scope, route, c) == MatchesIn(u, scope, route, c)
  {
  }

  lemma BestInBoth(t: Table, u: Table, scope: Scope, cs: seq<Candidate>, a: Best, b: Best)
    requires SameRoutes(t, u) && IsBest(t, scope, cs, a) && IsBest(u, scope, cs, b)
    ensures a == b
  {
    BestCarriesOver(t, u, scope, cs, a);
    BestIsUnique(u, scope, cs, a, b);
  }

  lemma BestCarriesOver(t: Table, u: Table, scope: Scope, cs: seq<Candidate>, a: Best)
    requires SameRoutes(t, u) && IsBest(t, scope, cs, a)
    ensures IsBest(u, scope, cs, a)
  {
    hide Specificity, LexLess, MatchesPathAndVersion;
    SeenAll(t, cs);
    SeenAll(u, cs);
    forall c, r | Seen(u, cs, |cs|, 0, c, r) && MatchesIn(u, scope, u.routes[r], cs[c])
      ensures a.Some?
      ensures !LexLess(a.value.1, Specificity(scope, u.routes[r]))
      ensures c < a.value.0 ==> Specificity(scope, u.routes[r]) != a.value.1
    {
      assert u.routes[r] in t.routes;
      var k :| 0 <= k < |t.routes| && t.routes[k] == u.routes[r];
      MatchesInBoth(t, u, scope, u.routes[r], cs[c]);
      assert Seen(t, cs, |cs|, 0, c, k);
    }
    if a.Some? {
      var r :| Seen(t, cs, |cs|, 0, a.value.0, r)
        && MatchesIn(t, scope, t.routes[r], cs[a.value.0]) && Specificity(scope, t.routes[r]) == a.value.1;
      assert t.routes[r] in u.routes;
      var k :| 0 <= k < |u.routes| && u.routes[k] == t.routes[r];
      MatchesInBoth(t, u, scope, t.routes[r], cs[a.value.0]);
      assert Seen(u, cs, |cs|, 0, a.value.0, k);
    }
  }

  lemma EligibleInBoth(t: Table, u: Table, host: Option<string>, c: Candidate, sp: seq<nat>, i: nat) returns (k: nat)
    requires SameRoutes(t, u) && i < |t.routes| && Eligible(t, WithHost(host), c, sp, t.routes[i])
    ensures k < |u.routes| && u.routes[k] == t.routes[i] && Eligible(u, WithHost(host), c, sp, u.routes[k])
  {
    assert t.routes[i] in u.routes;
    k :| 0 <= k < |u.routes| && u.routes[k] == t.routes[i];
    MatchesInBoth(t, u, WithHost(host), t.routes[i], c);
  }

  /** Which of the three searches finds a route of this method. */
  function Suitability(routeMethod: HttpMethod, requested: HttpMethod): nat
  {
    if routeMethod == requested then 2 else if Accepts(routeMethod, requested) then 1 else 0
  }

  /** Route `i` is the first among the most suitable routes of greatest specificity. */
  ghost predicate FirstMostSuitable(t: Table, scope: Scope, c: Candidate, sp: seq<nat>, m: HttpMethod, i: nat)
  {
    && i < |t.routes| && Eligible(t, scope, c, sp, t.routes[i])
    && forall r :: 0 <= r < |t.routes| && Eligible(t, scope, c, sp, t.routes[r]) ==>
         var (x, y) := (Suitability(t.routes[r].httpMethod, m), Suitability(t.routes[i].httpMethod, m));
         x <= y && (r < i ==> x < y)
  }

  /** The three searches in turn come to the first most suitable route. */
  lemma DispatchesToMostSuitable(
    t: Table, cs: seq<Candidate>, host: Option<string>, m: HttpMethod, c: nat, sp: seq<nat>, i: nat)
    requires c < |cs|
    ensures DispatchesBy(t, cs, host, m, Some((c, sp)), Handled(i, c))
       <==> FirstMostSuitable(t, WithHost(host), cs[c], sp, m, i)
  {
    hide Eligible;
  }

  /** Another route that the request could as well go to: of the same specificity for the
      same candidate, and just as suitable. */
  ghost predicate Rival(t: Table, cs: seq<Candidate>, host: Option<string>, m: HttpMethod, d: Dispatched, r: nat)
    requires d.Handled? && d.index < |t.routes| && d.candidate < |cs|
  {
    var scope, chosen := WithHost(host), t.routes[d.index];
    && r < |t.routes| && t.routes[r] != chosen
    && Eligible(t, scope, cs[d.candidate], Specificity(scope, chosen), t.routes[r])
    && Suitability(t.routes[r].httpMethod, m) == Suitability(chosen.httpMethod, m)
  }

  ghost predicate GoesTo(t: Table, cs: seq<Candidate>, host: Option<string>, m: HttpMethod, route: Route)
  {
    forall d :: IsDispatch(t, cs, host, m, d) ==> d.Handled? && d.index < |t.routes| && t.routes[d.index] == route
  }

  lemma DispatchFacts(
    t: Table, cs: seq<Candidate>, host: Option<string>, m: HttpMethod, d: Dispatched) returns (best: Best)
    requires IsDispatch(t, cs, host, m, d) && d.Handled?
    ensures IsBest(t, WithHost(host), cs, best) && d.candidate < |cs| && d.index < |t.routes|
    ensures best == Some((d.candidate, Specificity(WithHost(host), t.routes[d.index])))
    ensures FirstMostSuitable(t, WithHost(host), cs[d.candidate], best.value.1, m, d.index)
  {
    hide IsBest;
    best :| IsBest(t, WithHost(host), cs, best) && DispatchesBy(t, cs, host, m, best, d);
    DispatchesToMostSuitable(t, cs, host, m, d.candidate, best.value.1, d.index);
  }

  lemma DispatchIs(t: Table, cs: seq<Candidate>, host: Option<string>, m: HttpMethod, c: nat, sp: seq<nat>, i: nat)
    requires c < |cs| && IsBest(t, WithHost(host), cs, Some((c, sp)))
    requires FirstMostSuitable(t, WithHost(host), cs[c], sp, m, i)
    ensures IsDispatch(t, cs, host, m, Handled(i, c))
  {
    hide IsBest;
    DispatchesToMostSuitable(t, cs, host, m, c, sp, i);
  }

  /** In another order the request goes to the same candidate, and to a route of the same
      specificity and suitability. */
  lemma DispatchInBoth(
    t: Table, u: Table, cs: seq<Candidate>, host: Option<string>, m: HttpMethod, d: Dispatched, e: Dispatched)
    requires SameRoutes(t, u) && IsDispatch(t, cs, host, m, d) && IsDispatch(u, cs, host, m, e) && d.Handled?
    ensures e.Handled? && e.candidate == d.candidate && d.candidate < |cs|
    ensures d.index < |t.routes| && e.index < |u.routes|
    ensures
      var scope, chosen, other := WithHost(host), t.routes[d.index], u.routes[e.index];
      && Eligible(t, scope, cs[d.candidate], Specificity(scope, chosen), other)
      && Suitability(other.httpMethod, m) == Suitability(chosen.httpMethod, m)
  {
    hide MatchesIn, Specificity, LexLess, IsBest, Suitability;
    var a := DispatchFacts(t, cs, host, m, d);
    var b :| IsBest(u, WithHost(host), cs, b) && DispatchesBy(u, cs, host, m, b, e);
    BestInBoth(t, u, WithHost(host), cs, a, b);
    b := DispatchFacts(u, cs, host, m, e);
    BestInBoth(t, u, WithHost(host), cs, a, b);
    var c, sp := cs[d.candidate], a.value.1;
    var k := EligibleInBoth(t, u, host, c, sp, d.index);
    var l := EligibleInBoth(u, t, host, c, sp, e.index);
    assert Suitability(t.routes[l].httpMethod, m) <= Suitability(t.routes[d.index].httpMethod, m);
    assert Suitability(u.routes[k].httpMethod, m) <= Suitability(u.routes[e.index].httpMethod, m);
  }

  function ToFront(t: Table, r: nat): (u: Table)
    requires r < |t.routes|
    ensures Reordering(t, u) && u.routes[0] == t.routes[r]
  {
    assert t.routes == t.routes[..r] + [t.routes[r]] + t.routes[r + 1..];
    Table([t.routes[r]] + t.routes[..r] + t.routes[r + 1..], t.versioning)
  }

  /** Moving a route to the front leaves a table that passes the uniqueness check. */
  lemma ToFrontStaysUnique(t: Table, r: nat)
    requires r < |t.routes| && UniqueRoutes(t)
    ensures UniqueRoutes(ToFront(t, r))
  {
    hide Duplicates;
    var u := ToFront(t, r);
    forall i, j | 0 <= j < i < |u.routes| ensures !Duplicates(u.versioning, u.routes[j], u.routes[i]) {
      var k := if i <= r then i - 1 else i;
      var l := if j == 0 then r else if j <= r then j - 1 else j;
      assert u.routes[i] == t.routes[k] && u.routes[j] == t.routes[l] && k != l;
      ConflictIsSymmetric(t.versioning, t.routes[k], t.routes[l]);
    }
  }

  /** With a rival moved to the front of the table, the request goes to the rival. */
  lemma RivalGoesFirst(t: Table, cs: seq<Candidate>, host: Option<string>, m: HttpMethod, d: Dispatched, r: nat)
    requires IsDispatch(t, cs, host, m, d) && d.Handled? && d.index < |t.routes| && d.candidate < |cs|
    requires Rival(t, cs, host, m, d, r)
    ensures IsDispatch(ToFront(t, r), cs, host, m, Handled(0, d.candidate))
    ensures !GoesTo(ToFront(t, r), cs, host, m, t.routes[d.index])
  {
    hide MatchesIn, Specificity, LexLess, IsBest, Suitability, ToFront, IsDispatch;
    var u := ToFront(t, r);
    var best := DispatchFacts(t, cs, host, m, d);
    ReorderingHasSameRoutes(t, u);
    BestCarriesOver(t, u, WithHost(host), cs, best);
    var c, sp := cs[d.candidate], best.value.1;
    MatchesInBoth(t, u, WithHost(host), t.routes[r], c);
    forall k | 0 <= k < |u.routes| && Eligible(u, WithHost(host), c, sp, u.routes[k])
      ensures Suitability(u.routes[k].httpMethod, m) <= Suitability(u.routes[0].httpMethod, m)
    {
      var l := EligibleInBoth(u, t, host, c, sp, k);
    }
    DispatchIs(u, cs, host, m, d.candidate, sp, 0);
  }

  /** The exact condition, for every table and request: the request goes to the same route
      in every order of the table exactly when the chosen route has no rival. */
  lemma OrderIsIrrelevantIff(t: Table, cs: seq<Candidate>, host: Option<string>, m: HttpMethod, d: Dispatched)
    requires IsDispatch(t, cs, host, m, d) && d.Handled?
    ensures d.index < |t.routes| && d.candidate < |cs|
    ensures (forall u :: Reordering(t, u) ==> GoesTo(u, cs, host, m, t.routes[d.index]))
       <==> (forall r :: 0 <= r < |t.routes| ==> !Rival(t, cs, host, m, d, r))
  {
    hide MatchesIn, Specificity, LexLess, IsBest, Suitability, ToFront, IsDispatch;
    var best := DispatchFacts(t, cs, host, m, d);
    forall r | 0 <= r < |t.routes| && Rival(t, cs, host, m, d, r)
      ensures Reordering(t, ToFront(t, r)) && !GoesTo(ToFront(t, r), cs, host, m, t.routes[d.index])
    {
      RivalGoesFirst(t, cs, host, m, d, r);
    }
    forall u, e | Reordering(t, u) && IsDispatch(u, cs, host, m, e)
      && (forall r :: 0 <= r < |t.routes| ==> !Rival(t, cs, host, m, d, r))
      ensures e.Handled? && e.index < |u.routes| && u.routes[e.index] == t.routes[d.index]
    {
      ReorderingHasSameRoutes(t, u);
      DispatchInBoth(t, u, cs, host, m, d, e);
      assert u.routes[e.index] in t.routes;
      var r :| 0 <= r < |t.routes| && t.routes[r] == u.routes[e.index];
      assert !Rival(t, cs, host, m, d, r);
    }
  }

  ghost predicate HasConflict(t: Table, cs: seq<Candidate>, host: Option<string>, d: Dispatched, r: nat)
    requires d.Handled? && d.index < |t.routes| && d.candidate < |cs|
  {
    var scope, chosen := WithHost(host), t.routes[d.index];
    && r < |t.routes| && Conflict(t.versioning, chosen, t.routes[r])
    && Eligible(t, scope, cs[d.candidate], Specificity(scope, chosen), t.routes[r])
  }

  /** In a built application, the rivals of a route that accepts the request are the routes
      in conflict with it that match the request as well. */
  lemma RivalIffConflict(t: Table, cs: seq<Candidate>, host: Option<string>, m: HttpMethod, d: Dispatched, r: nat)
    requires ValidTable(t) && UniqueRoutes(t) && IsDispatch(t, cs, host, m, d) && d.Handled?
    requires d.index < |t.routes| && d.candidate < |cs| && r < |t.routes|
    requires Accepts(t.routes[d.index].httpMethod, m)
    ensures Rival(t, cs, host, m, d, r) <==> HasConflict(t, cs, host, d, r)
  {
    hide MatchesIn, Specificity, LexLess, IsBest, UniqueRoutes, ValidTable, Paths.ShapeKey, Versioning.Overlaps,
         IsDispatch;
    var best := DispatchFacts(t, cs, host, m, d);
    if Rival(t, cs, host, m, d, r) {
      TiedRoutesAreOne(t, host, cs[d.candidate], d.index, r);
    }
  }

  /** So in a built application a request whose method the chosen route accepts goes to the
      same route in every order of the table exactly when no route in conflict with it
      matches the request with the same specificity. */
  lemma OrderIsIrrelevantIffNoConflict(t: Table, cs: seq<Candidate>, host: Option<string>, m: HttpMethod, d: Dispatched)
    requires ValidTable(t) && UniqueRoutes(t) && IsDispatch(t, cs, host, m, d) && d.Handled?
    requires d.index < |t.routes| ==> Accepts(t.routes[d.index].httpMethod, m)
    ensures d.index < |t.routes| && d.candidate < |cs|
    ensures (forall u :: Reordering(t, u) ==> GoesTo(u, cs, host, m, t.routes[d.index]))
       <==> (forall r :: 0 <= r < |t.routes| ==> !HasConflict(t, cs, host, d, r))
  {
    hide Rival, HasConflict, IsDispatch, GoesTo, UniqueRoutes, ValidTable, Reordering;
    OrderIsIrrelevantIff(t, cs, host, m, d);
    forall r | 0 <= r < |t.routes| ensures Rival(t, cs, host, m, d, r) <==> HasConflict(t, cs, host, d, r) {
      RivalIffConflict(t, cs, host, m, d, r);
    }
  }

  ghost predicate ConflictFree(t: Table)
  {
    forall i, j :: 0 <= i < |t.routes| && 0 <= j < |t.routes| ==> !Conflict(t.versioning, t.routes[i], t.routes[j])
  }

  /** A built application without conflicts dispatches every request that some most specific
      route accepts to the same route, whatever the order of its table. */
  lemma DispatchIgnoresTableOrder(
    t: Table, u: Table, cs: seq<Candidate>, host: Option<string>, m: HttpMethod, d: Dispatched)
    requires ValidTable(t) && UniqueRoutes(t) && ConflictFree(t) && Reordering(t, u)
    requires IsDispatch(t, cs, host, m, d) && d.Handled?
    requires d.index < |t.routes| ==> Accepts(t.routes[d.index].httpMethod, m)
    ensures d.index < |t.routes| && GoesTo(u, cs, host, m, t.routes[d.index])
  {
    hide Eligible, Specificity, Conflict, IsDispatch, GoesTo, UniqueRoutes, ValidTable, Reordering;
    OrderIsIrrelevantIffNoConflict(t, cs, host, m, d);
  }

  /** A request that the chosen route refuses is refused in every order of the table: no
      route of greatest specificity accepts its method. Which route refuses it is settled by
      the order, unless there is no rival. */
  lemma RefusalIgnoresTableOrder(
    t: Table, u: Table, cs: seq<Candidate>, host: Option<string>, m: HttpMethod, d: Dispatched, e: Dispatched)
    requires SameRoutes(t, u) && IsDispatch(t, cs, host, m, d) && IsDispatch(u, cs, host, m, e) && d.Handled?
    requires d.index < |t.routes| ==> !Accepts(t.routes[d.index].httpMethod, m)
    ensures e.Handled? && e.index < |u.routes| && e.candidate == d.candidate < |cs|
    ensures !Accepts(u.routes[e.index].httpMethod, m)
    ensures
      var sp := Specificity(WithHost(host), u.routes[e.index]);
      forall r :: 0 <= r < |t.routes| && Eligible(t, WithHost(host), cs[d.candidate], sp, t.routes[r]) ==>
        !Accepts(t.routes[r].httpMethod, m)
  {
    hide MatchesIn, Specificity, LexLess, IsBest, IsDispatch;
    DispatchInBoth(t, u, cs, host, m, d, e);
    var best := DispatchFacts(t, cs, host, m, d);
  }

  /** Conflicts are possible: for every unrestricted route and every single-parameter host
      pattern, the table with both passes the uniqueness check in either order, and a
      request that both accept goes to whichever comes first. */
  lemma AmbiguousHostsDependOnOrder(
    a: Route, pattern: string, versioning: Option<ApiVersioning>, c: Candidate, host: string)
    requires a.host.None? && Hosts.IsSingleParam(pattern) && |Hosts.RequestLabels(host)| == 1
    requires MatchesPathAndVersion(Table([a], versioning), a, c)
    ensures
      var b := a.(host := Some(pattern));
      && UniqueRoutes(Table([a, b], versioning)) && UniqueRoutes(Table([b, a], versioning))
      && IsDispatch(Table([a, b], versioning), [c], Some(host), a.httpMethod, Handled(0, 0))
      && IsDispatch(Table([b, a], versioning), [c], Some(host), a.httpMethod, Handled(0, 0))
      && a != b
  {
    hide Paths.MatchesPathShape, Paths.PathSpecificity, Paths.ShapeKey, Hosts.MatchesHost, Hosts.HostKey,
         Hosts.HostSpecificity,
         Hosts.IsSingleParam, Hosts.RequestLabels, Versioning.Matches, Versioning.Overlaps, IsDispatch;
    var b := a.(host := Some(pattern));
    Hosts.AmbiguousHostsTie(pattern, host);
    FirstOfTwoTied(a, b, versioning, c, Some(host));
    FirstOfTwoTied(b, a, versioning, c, Some(host));
  }

  lemma FirstOfTwoTied(a: Route, b: Route, versioning: Option<ApiVersioning>, c: Candidate, host: Option<string>)
    requires
      var t := Table([a, b], versioning);
      MatchesIn(t, WithHost(host), a, c) && MatchesIn(t, WithHost(host), b, c)
    requires Specificity(WithHost(host), a) == Specificity(WithHost(host), b)
    ensures IsDispatch(Table([a, b], versioning), [c], host, a.httpMethod, Handled(0, 0))
  {
    hide MatchesIn, Specificity;
    var t := Table([a, b], versioning);
    var sp := Specificity(WithHost(host), a);
    LexTotal(sp, sp);
    assert Seen(t, [c], 1, 0, 0, 0) && t.routes[0] == a;
    assert IsBest(t, WithHost(host), [c], Some((0, sp)));
    assert DispatchesBy(t, [c], host, a.httpMethod, Some((0, sp)), Handled(0, 0));
  }
}
