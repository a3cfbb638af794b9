/** What a lookup by path reports against what a call does: the lookup leaves out the host
    of a request and a version in its headers, and compares specificities without their host
    part. */
module RouteAgreement {
  import opened Results
  import opened Text
  import opened Dispatch
  import opened RouteLookup
  import Paths
  import Hosts
  import Versioning

  // ----- Routes of greatest specificity

  /** Some best match exists, and the route is one of the most specific ones for it. */
  ghost predicate Chosen(t: Table, scope: Scope, cs: seq<Candidate>, r: int)
  {
    exists best :: IsBest(t, scope, cs, best) && ChosenBy(t, scope, cs, best, r)
  }

  ghost predicate ChosenBy(t: Table, scope: Scope, cs: seq<Candidate>, best: Best, r: int)
  {
    && best.Some? && best.value.0 < |cs| && 0 <= r < |t.routes|
    && Eligible(t, scope, cs[best.value.0], best.value.1, t.routes[r])
  }

  lemma ChosenIsChosenBy(t: Table, scope: Scope, cs: seq<Candidate>, best: Best, r: int)
    requires IsBest(t, scope, cs, best)
    ensures Chosen(t, scope, cs, r) <==> ChosenBy(t, scope, cs, best, r)
  {
    hide IsBest, Eligible;
    if Chosen(t, scope, cs, r) {
      var b :| IsBest(t, scope, cs, b) && ChosenBy(t, scope, cs, b, r);
      BestIsUnique(t, scope, cs, best, b);
    }
  }

  /** A best match always exists, where there is no match the absent one. */
  lemma {:induction false} BestExists(t: Table, scope: Scope, cs: seq<Candidate>, i: nat, j: nat) returns (best: Best)
    requires i <= |cs| && j <= |t.routes| && (j > 0 ==> i < |cs|)
    ensures BestUpTo(t, scope, cs, i, j, best)
    decreases i, j
  {
    hide BestUpTo, MatchesIn, Specificity, LexLess;
    if j > 0 {
      var before := BestExists(t, scope, cs, i, j - 1);
      var sp := Specificity(scope, t.routes[j - 1]);
      best := if MatchesIn(t, scope, t.routes[j - 1], cs[i]) && (before.None? || LexLess(before.value.1, sp))
              then Some((i, sp)) else before;
      BestStep(t, scope, cs, i, j - 1, before, best);
    } else if i > 0 {
      best := BestExists(t, scope, cs, i - 1, |t.routes|);
      BestRow(t, scope, cs, i - 1, best);
    } else {
      best := None;
      NothingSeen(t, scope, cs);
    }
  }

  lemma NothingSeen(t: Table, scope: Scope, cs: seq<Candidate>)
    ensures BestUpTo(t, scope, cs, 0, 0, None)
  {
  }

  lemma TheBest(t: Table, scope: Scope, cs: seq<Candidate>) returns (best: Best)
    ensures IsBest(t, scope, cs, best)
  {
    best := BestExists(t, scope, cs, |cs|, 0);
  }

  /** When something matches, some route is chosen. */
  lemma SomethingChosen(t: Table, scope: Scope, cs: seq<Candidate>, c: nat, r: nat) returns (k: nat)
    requires c < |cs| && r < |t.routes| && MatchesIn(t, scope, t.routes[r], cs[c])
    ensures Chosen(t, scope, cs, k)
  {
    hide MatchesIn, Specificity, LexLess;
    var best := TheBest(t, scope, cs);
    SeenAll(t, cs);
    assert best.Some?;
    k := SomethingBest(t, scope, cs, best);
  }

  // ----- One route found by path and method

  /** No route that matches the request and its host is more specific. */
  ghost predicate Unbeaten(t: Table, cs: seq<Candidate>, host: Option<string>, sp: seq<nat>)
  {
    forall c, r :: Seen(t, cs, |cs|, 0, c, r) && MatchesIn(t, WithHost(host), t.routes[r], cs[c]) ==>
      !LexLess(sp, Specificity(WithHost(host), t.routes[r]))
  }

  ghost predicate Reached(t: Table, cs: seq<Candidate>, host: Option<string>, r: int)
    requires 0 <= r < |t.routes|
  {
    && Hosts.MatchesHost(t.routes[r].host, host)
    && Unbeaten(t, cs, host, Specificity(WithHost(host), t.routes[r]))
  }

  lemma SamePathPart(host: Option<string>, a: Route, b: Route)
    requires Specificity(WithHost(host), a) == Specificity(WithHost(host), b)
    ensures Specificity(PathOnly, a) == Specificity(PathOnly, b)
  {
    SpecificitySplits(Paths.PathSpecificity(a.path), Hosts.HostSpecificity(a.host),
                      Paths.PathSpecificity(b.path), Hosts.HostSpecificity(b.host));
  }

  lemma MatchesWithHost(t: Table, host: Option<string>, route: Route, c: Candidate)
    ensures MatchesIn(t, WithHost(host), route, c)
       <==> MatchesIn(t, PathOnly, route, c) && Hosts.MatchesHost(route.host, host)
  {
  }

  /** A most specific route by path that the call reaches settles the best match of the call. */
  lemma ReachedIsBest(t: Table, cs: seq<Candidate>, host: Option<string>, best: Best, r: nat)
    requires IsBest(t, PathOnly, cs, best) && ChosenBy(t, PathOnly, cs, best, r) && Reached(t, cs, host, r)
    ensures IsBest(t, WithHost(host), cs, Some((best.value.0, Specificity(WithHost(host), t.routes[r]))))
  {
    hide MatchesIn, Specificity, LexLess, Hosts.MatchesHost;
    var (c, p) := best.value;
    var sp := Specificity(WithHost(host), t.routes[r]);
    SeenAll(t, cs);
    MatchesWithHost(t, host, t.routes[r], cs[c]);
    assert Seen(t, cs, |cs|, 0, c, r);
    forall b, k | Seen(t, cs, |cs|, 0, b, k) && b < c && MatchesIn(t, WithHost(host), t.routes[k], cs[b])
      ensures Specificity(WithHost(host), t.routes[k]) != sp
    {
      MatchesWithHost(t, host, t.routes[k], cs[b]);
      if Specificity(WithHost(host), t.routes[k]) == sp {
        SamePathPart(host, t.routes[k], t.routes[r]);
      }
    }
  }

  lemma EligibleByPath(t: Table, host: Option<string>, c: Candidate, a: Route, b: Route)
    requires Eligible(t, WithHost(host), c, Specificity(WithHost(host), a), b)
    ensures Eligible(t, PathOnly, c, Specificity(PathOnly, a), b)
  {
    hide MatchesIn, Specificity, Hosts.MatchesHost;
    SamePathPart(host, a, b);
    MatchesWithHost(t, host, b, c);
  }

  /** What the call chooses, it reaches. */
  lemma CallReaches(t: Table, cs: seq<Candidate>, host: Option<string>, best: Best, r: nat)
    requires IsBest(t, WithHost(host), cs, best) && ChosenBy(t, WithHost(host), cs, best, r)
    ensures Reached(t, cs, host, r)
  {
    hide MatchesIn, Specificity, LexLess, Hosts.MatchesHost;
    MatchesWithHost(t, host, t.routes[r], cs[best.value.0]);
  }

  /** The exact condition, for every table: the route that a lookup by path and method finds
      is the one that the call is handed to if and only if its host restriction accepts the
      host and no route that matches the request is more specific by path and host. */
  lemma LookupAgreesWithCallIff(
    t: Table, cs: seq<Candidate>, host: Option<string>, m: HttpMethod, best: Best, found: nat, d: Dispatched)
    requires IsBest(t, PathOnly, cs, best) && IsRouteFor(t, cs, best, m, Some(found))
    requires IsDispatch(t, cs, host, m, d)
    ensures found < |t.routes|
    ensures d.Handled? && d.index == found <==> Reached(t, cs, host, found)
  {
    hide MatchesIn, Specificity, LexLess, IsBest, Hosts.MatchesHost, Reached;
    assert best.Some? && best.value.0 < |cs| && ChosenBy(t, PathOnly, cs, best, found);
    var c := cs[best.value.0];
    var b :| IsBest(t, WithHost(host), cs, b) && DispatchesBy(t, cs, host, m, b, d);
    if Reached(t, cs, host, found) {
      var sp := Specificity(WithHost(host), t.routes[found]);
      ReachedIsBest(t, cs, host, best, found);
      BestIsUnique(t, WithHost(host), cs, b, Some((best.value.0, sp)));
      ReachedMatches(t, cs, host, best, found);
      forall r | 0 <= r < |t.routes| && Eligible(t, WithHost(host), c, sp, t.routes[r])
        ensures Eligible(t, PathOnly, c, best.value.1, t.routes[r])
      {
        EligibleByPath(t, host, c, t.routes[found], t.routes[r]);
      }
      DispatchesToMostSuitable(t, cs, host, m, best.value.0, sp, found);
    }
    if d.Handled? && d.index == found {
      CallReaches(t, cs, host, b, found);
    }
  }

  lemma ReachedMatches(t: Table, cs: seq<Candidate>, host: Option<string>, best: Best, r: nat)
    requires ChosenBy(t, PathOnly, cs, best, r) && Reached(t, cs, host, r)
    ensures Eligible(t, WithHost(host), cs[best.value.0], Specificity(WithHost(host), t.routes[r]), t.routes[r])
  {
    hide Hosts.MatchesHost, Specificity;
    MatchesWithHost(t, host, t.routes[r], cs[best.value.0]);
  }

  // ----- The methods reported and the methods accepted

  ghost predicate Reported(t: Table, cs: seq<Candidate>, m: HttpMethod)
  {
    exists r :: Chosen(t, PathOnly, cs, r) && Accepts(t.routes[r].httpMethod, m)
  }

  ghost predicate AcceptedByCall(t: Table, cs: seq<Candidate>, host: Option<string>, m: HttpMethod)
  {
    exists r :: Chosen(t, WithHost(host), cs, r) && Accepts(t.routes[r].httpMethod, m)
  }

  /** The method list of a path holds a standard method exactly when it is reported. */
  lemma ReportedIs(t: Table, cs: seq<Candidate>, methods: seq<HttpMethod>, m: HttpMethod)
    requires AllowedAre(t, cs, methods) && m != All
    ensures m in methods <==> Reported(t, cs, m)
  {
    hide Eligible, IsBest, Chosen;
    var best :| IsBest(t, PathOnly, cs, best) && IsAllowed(t, cs, best, methods);
    forall r ensures Chosen(t, PathOnly, cs, r) <==> ChosenBy(t, PathOnly, cs, best, r) {
      ChosenIsChosenBy(t, PathOnly, cs, best, r);
    }
    StandardHolds(m);
    if Reported(t, cs, m) {
      var r :| Chosen(t, PathOnly, cs, r) && Accepts(t.routes[r].httpMethod, m);
      assert Registered(t, cs, best, t.routes[r].httpMethod);
    }
    if m in methods {
      var x := if Registered(t, cs, best, All) then All else m;
      assert Registered(t, cs, best, x);
      var r :| 0 <= r < |t.routes| && Eligible(t, PathOnly, cs[best.value.0], best.value.1, t.routes[r])
               && t.routes[r].httpMethod == x;
      assert ChosenBy(t, PathOnly, cs, best, r);
    }
  }

  /** The call is handed to a route that accepts its method exactly when some most specific
      route does. */
  lemma AcceptedIs(t: Table, cs: seq<Candidate>, host: Option<string>, m: HttpMethod, d: Dispatched)
    requires IsDispatch(t, cs, host, m, d)
    ensures d.Handled? ==> d.index < |t.routes|
    ensures d.Handled? && Accepts(t.routes[d.index].httpMethod, m) <==> AcceptedByCall(t, cs, host, m)
  {
    hide Eligible, IsBest, Chosen;
    var best :| IsBest(t, WithHost(host), cs, best) && DispatchesBy(t, cs, host, m, best, d);
    forall r ensures Chosen(t, WithHost(host), cs, r) <==> ChosenBy(t, WithHost(host), cs, best, r) {
      ChosenIsChosenBy(t, WithHost(host), cs, best, r);
    }
    if d.Handled? {
      DispatchesToMostSuitable(t, cs, host, m, d.candidate, best.value.1, d.index);
      assert ChosenBy(t, WithHost(host), cs, best, d.index);
    }
  }

  /** The tables differ at most in the methods of their routes. */
  ghost predicate SameButMethods(t: Table, u: Table)
  {
    && t.versioning == u.versioning && |t.routes| == |u.routes|
    && forall r :: 0 <= r < |t.routes| ==> u.routes[r] == t.routes[r].(httpMethod := u.routes[r].httpMethod)
  }

  lemma MethodsDoNotMatter(t: Table, u: Table, scope: Scope, cs: seq<Candidate>, r: int)
    requires SameButMethods(t, u)
    ensures Chosen(t, scope, cs, r) <==> Chosen(u, scope, cs, r)
  {
    hide Chosen, IsBest, Eligible;
    var best := TheBest(t, scope, cs);
    BestWithoutMethods(t, u, scope, cs, best);
    ChosenIsChosenBy(t, scope, cs, best, r);
    ChosenIsChosenBy(u, scope, cs, best, r);
    if 0 <= r < |t.routes| && best.Some? && best.value.0 < |cs| {
      RouteWithoutMethod(t, u, scope, r, cs[best.value.0], best.value.1);
    }
  }

  lemma RouteWithoutMethod(t: Table, u: Table, scope: Scope, r: nat, c: Candidate, sp: seq<nat>)
    requires SameButMethods(t, u) && r < |t.routes|
    ensures MatchesIn(t, scope, t.routes[r], c) == MatchesIn(u, scope, u.routes[r], c)
    ensures Specificity(scope, t.routes[r]) == Specificity(scope, u.routes[r])
    ensures Eligible(t, scope, c, sp, t.routes[r]) == Eligible(u, scope, c, sp, u.routes[r])
  {
  }

  lemma BestWithoutMethods(t: Table, u: Table, scope: Scope, cs: seq<Candidate>, best: Best)
    requires SameButMethods(t, u) && IsBest(t, scope, cs, best)
    ensures IsBest(u, scope, cs, best)
  {
    hide MatchesIn, Specificity, LexLess, SameButMethods, Eligible;
    assert |t.routes| == |u.routes| by {
      SameLength(t, u);
    }
    SeenAll(t, cs);
    SeenAll(u, cs);
    forall c, r | 0 <= c < |cs| && 0 <= r < |t.routes|
      ensures MatchesIn(t, scope, t.routes[r], cs[c]) == MatchesIn(u, scope, u.routes[r], cs[c])
      ensures Specificity(scope, t.routes[r]) == Specificity(scope, u.routes[r])
    {
      RouteWithoutMethod(t, u, scope, r, cs[c], []);
    }
  }

  lemma SameLength(t: Table, u: Table)
    requires SameButMethods(t, u)
    ensures |t.routes| == |u.routes|
  {
  }

  /** The table in which only the given route is for POST, and all others are for GET. */
  function OnlyPost(t: Table, r: int): (u: Table)
    ensures SameButMethods(t, u)
    ensures forall k :: 0 <= k < |t.routes| ==> u.routes[k].httpMethod == if k == r then Post else Get
  {
    Table(
      seq(|t.routes|, k requires 0 <= k < |t.routes| => t.routes[k].(httpMethod := if k == r then Post else Get)),
      t.versioning)
  }

  ghost predicate MethodsAgree(t: Table, cs: seq<Candidate>, ds: seq<Candidate>, host: Option<string>)
  {
    forall m: HttpMethod :: m != All ==> (Reported(t, cs, m) <==> AcceptedByCall(t, ds, host, m))
  }

  ghost predicate SameChoice(t: Table, cs: seq<Candidate>, ds: seq<Candidate>, host: Option<string>)
  {
    forall r :: Chosen(t, PathOnly, cs, r) <==> Chosen(t, WithHost(host), ds, r)
  }

  /** When path and request choose the same routes, a method is reported for the path exactly
      when a call with it is accepted. */
  lemma SameChoiceAgrees(t: Table, cs: seq<Candidate>, ds: seq<Candidate>, host: Option<string>)
    requires SameChoice(t, cs, ds, host)
    ensures MethodsAgree(t, cs, ds, host)
  {
    hide Chosen;
  }

  /** With POST for a route that only one of the two chooses, and GET for all others, path
      and request disagree about POST. */
  lemma OtherChoiceDisagrees(t: Table, cs: seq<Candidate>, ds: seq<Candidate>, host: Option<string>, r: int)
    requires Chosen(t, PathOnly, cs, r) != Chosen(t, WithHost(host), ds, r)
    ensures !MethodsAgree(OnlyPost(t, r), cs, ds, host)
  {
    var u := OnlyPost(t, r);
    MethodsDoNotMatter(t, u, PathOnly, cs, r);
    MethodsDoNotMatter(t, u, WithHost(host), ds, r);
    OnlyOneAccepts(u, PathOnly, cs, r);
    OnlyOneAccepts(u, WithHost(host), ds, r);
    hide Chosen, OnlyPost;
    assert Reported(u, cs, Post) != AcceptedByCall(u, ds, host, Post);
  }

  lemma OnlyOneAccepts(u: Table, scope: Scope, cs: seq<Candidate>, r: int)
    requires forall k :: 0 <= k < |u.routes| ==> u.routes[k].httpMethod == if k == r then Post else Get
    ensures (exists k :: Chosen(u, scope, cs, k) && Accepts(u.routes[k].httpMethod, Post)) <==> Chosen(u, scope, cs, r)
  {
    ChosenIsRoute(u, scope, cs);
    hide Chosen;
  }

  lemma ChosenIsRoute(t: Table, scope: Scope, cs: seq<Candidate>)
    ensures forall r :: Chosen(t, scope, cs, r) ==> 0 <= r < |t.routes|
  {
  }

  /** The exact condition for the methods, for every table, host and candidates: whatever
      methods its routes have, the methods reported for the path are those accepted by calls,
      if and only if path and request choose the same routes. */
  lemma MethodsAgreeIff(t: Table, cs: seq<Candidate>, ds: seq<Candidate>, host: Option<string>)
    ensures (forall u :: SameButMethods(t, u) ==> MethodsAgree(u, cs, ds, host)) <==> SameChoice(t, cs, ds, host)
  {
    hide Chosen, MethodsAgree, SameButMethods;
    forall u | SameButMethods(t, u) && SameChoice(t, cs, ds, host) ensures MethodsAgree(u, cs, ds, host) {
      forall r ensures Chosen(u, PathOnly, cs, r) <==> Chosen(u, WithHost(host), ds, r) {
        MethodsDoNotMatter(t, u, PathOnly, cs, r);
        MethodsDoNotMatter(t, u, WithHost(host), ds, r);
      }
      SameChoiceAgrees(u, cs, ds, host);
    }
    if !SameChoice(t, cs, ds, host) {
      var r :| Chosen(t, PathOnly, cs, r) != Chosen(t, WithHost(host), ds, r);
      OtherChoiceDisagrees(t, cs, ds, host, r);
      assert SameButMethods(t, OnlyPost(t, r));
    }
  }

  /** When the request carries its version in the path, or none, path and request choose the
      same routes exactly when the call reaches every most specific route by path: each
      accepts the host, and none is beaten once hosts are compared as well. */
  lemma SameChoiceIffReached(t: Table, cs: seq<Candidate>, host: Option<string>)
    ensures SameChoice(t, cs, cs, host)
       <==> (forall r :: Chosen(t, PathOnly, cs, r) ==> 0 <= r < |t.routes| && Reached(t, cs, host, r))
  {
    hide IsBest, Eligible, Chosen, Reached;
    var a := TheBest(t, PathOnly, cs);
    var b := TheBest(t, WithHost(host), cs);
    forall r ensures Chosen(t, PathOnly, cs, r) <==> ChosenBy(t, PathOnly, cs, a, r)
      ensures Chosen(t, WithHost(host), cs, r) <==> ChosenBy(t, WithHost(host), cs, b, r)
    {
      ChosenIsChosenBy(t, PathOnly, cs, a, r);
      ChosenIsChosenBy(t, WithHost(host), cs, b, r);
    }
    forall r | ChosenBy(t, WithHost(host), cs, b, r) ensures Reached(t, cs, host, r) {
      CallReaches(t, cs, host, b, r);
    }
    if forall r :: Chosen(t, PathOnly, cs, r) ==> 0 <= r < |t.routes| && Reached(t, cs, host, r) {
      AllReachedIsSame(t, cs, host, a, b);
    }
  }

  lemma AllReachedIsSame(t: Table, cs: seq<Candidate>, host: Option<string>, a: Best, b: Best)
    requires IsBest(t, PathOnly, cs, a) && IsBest(t, WithHost(host), cs, b)
    requires forall r :: ChosenBy(t, PathOnly, cs, a, r) ==> Reached(t, cs, host, r)
    ensures forall r :: ChosenBy(t, PathOnly, cs, a, r) <==> ChosenBy(t, WithHost(host), cs, b, r)
  {
    hide IsBest, Eligible, Reached;
    forall r | ChosenBy(t, PathOnly, cs, a, r) ensures ChosenBy(t, WithHost(host), cs, b, r) {
      ReachedIsBest(t, cs, host, a, r);
      BestIsUnique(t, WithHost(host), cs, b, Some((a.value.0, Specificity(WithHost(host), t.routes[r]))));
      ReachedMatches(t, cs, host, a, r);
    }
    forall r | ChosenBy(t, WithHost(host), cs, b, r) ensures ChosenBy(t, PathOnly, cs, a, r) {
      MatchedByPath(t, cs, host, b, r);
      var first := SomethingChosen(t, PathOnly, cs, b.value.0, r);
      ChosenIsChosenBy(t, PathOnly, cs, a, first);
      ReachedIsBest(t, cs, host, a, first);
      BestIsUnique(t, WithHost(host), cs, b, Some((a.value.0, Specificity(WithHost(host), t.routes[first]))));
      EligibleByPath(t, host, cs[a.value.0], t.routes[first], t.routes[r]);
      ChosenSpecificity(t, PathOnly, cs, a, first);
    }
  }

  lemma MatchedByPath(t: Table, cs: seq<Candidate>, host: Option<string>, b: Best, r: nat)
    requires ChosenBy(t, WithHost(host), cs, b, r)
    ensures MatchesIn(t, PathOnly, t.routes[r], cs[b.value.0])
  {
  }

  lemma ChosenSpecificity(t: Table, scope: Scope, cs: seq<Candidate>, best: Best, r: nat)
    requires ChosenBy(t, scope, cs, best, r)
    ensures Specificity(scope, t.routes[r]) == best.value.1
  {
  }

  // ----- Tables without host restrictions

  ghost predicate HostFree(t: Table)
  {
    forall r :: 0 <= r < |t.routes| ==> t.routes[r].host.None?
  }

  /** `p` is `q` continued by a parameter or wildcard: greater as a path specificity, but
      smaller once both are followed by the host part. */
  predicate Overtaken(p: seq<nat>, q: seq<nat>)
  {
    |q| < |p| && p[..|q|] == q && p[|q|] < 2
  }

  ghost predicate IsRanks(p: seq<nat>)
  {
    forall i :: 0 <= i < |p| ==> p[i] <= 2
  }

  /** How the host part of an unrestricted route changes the order of path specificities. */
  lemma {:induction false} OrderWithHostPart(p: seq<nat>, q: seq<nat>)
    requires IsRanks(p) && IsRanks(q)
    ensures LexLess(p + [2, 0], q + [2, 0]) <==> (LexLess(p, q) && !Overtaken(q, p)) || Overtaken(p, q)
    decreases |p|
  {
    var x, y := p + [2, 0], q + [2, 0];
    if p != [] && q != [] {
      assert x[1..] == p[1..] + [2, 0] && y[1..] == q[1..] + [2, 0];
      OrderWithHostPart(p[1..], q[1..]);
      OvertakenTail(p, q);
      OvertakenTail(q, p);
    } else if p == [] && q != [] {
      assert x == [2, 0] && x[1..] == [0] && y[1..] == q[1..] + [2, 0] && q[..0] == [];
      assert LexLess([0], y[1..]) by {
        assert [0][1..] == [];
      }
    } else if q == [] && p != [] {
      assert y == [2, 0] && y[1..] == [0] && x[1..] == p[1..] + [2, 0] && p[..0] == [];
      assert !LexLess(x[1..], [0]) by {
        assert [0][1..] == [];
      }
    } else {
      LexTotal(x, x);
    }
  }

  lemma OvertakenTail(p: seq<nat>, q: seq<nat>)
    requires p != [] && q != []
    ensures Overtaken(p, q) <==> p[0] == q[0] && Overtaken(p[1..], q[1..])
  {
    if |q| < |p| {
      assert p[..|q|] == [p[0]] + p[1..][..|q| - 1] && q == [q[0]] + q[1..];
    }
  }

  lemma HostFreeSpecificity(t: Table, host: Option<string>, r: nat, c: Candidate)
    requires HostFree(t) && r < |t.routes|
    ensures MatchesIn(t, WithHost(host), t.routes[r], c) == MatchesIn(t, PathOnly, t.routes[r], c)
    ensures Specificity(WithHost(host), t.routes[r]) == Specificity(PathOnly, t.routes[r]) + [2, 0]
    ensures IsRanks(Specificity(PathOnly, t.routes[r]))
  {
    var p := Paths.PathSpecificity(t.routes[r].path);
    assert p + [2] + [0] == p + [2, 0];
  }

  /** Some match is overtaken in this way by the best match by path. */
  ghost predicate SomeOvertaken(t: Table, cs: seq<Candidate>, p: seq<nat>)
  {
    exists c, r :: Seen(t, cs, |cs|, 0, c, r) && MatchesIn(t, PathOnly, t.routes[r], cs[c])
      && Overtaken(p, Specificity(PathOnly, t.routes[r]))
  }

  /** On a table without host restrictions, the call reaches the most specific routes by path
      exactly when none of them continues another match by a parameter or wildcard. */
  lemma HostFreeReachedIff(t: Table, cs: seq<Candidate>, host: Option<string>, best: Best, r: nat)
    requires HostFree(t) && IsBest(t, PathOnly, cs, best) && ChosenBy(t, PathOnly, cs, best, r)
    ensures Reached(t, cs, host, r) <==> !SomeOvertaken(t, cs, best.value.1)
  {
    hide MatchesIn, Specificity, LexLess, IsRanks, Overtaken;
    var p := best.value.1;
    HostFreeSpecificity(t, host, r, cs[best.value.0]);
    assert Hosts.MatchesHost(t.routes[r].host, host);
    forall c, k | Seen(t, cs, |cs|, 0, c, k)
      ensures MatchesIn(t, WithHost(host), t.routes[k], cs[c]) == MatchesIn(t, PathOnly, t.routes[k], cs[c])
      ensures MatchesIn(t, PathOnly, t.routes[k], cs[c]) ==>
                (LexLess(p + [2, 0], Specificity(WithHost(host), t.routes[k]))
                 <==> Overtaken(p, Specificity(PathOnly, t.routes[k])))
    {
      HostFreeSpecificity(t, host, k, cs[c]);
      OrderWithHostPart(p, Specificity(PathOnly, t.routes[k]));
    }
    hide HostFree;
  }

  /** So there, whatever methods the routes have, the methods reported are those accepted,
      if and only if the best match by path overtakes no other. */
  lemma HostFreeMethodsAgreeIff(t: Table, cs: seq<Candidate>, host: Option<string>, best: Best)
    requires HostFree(t) && IsBest(t, PathOnly, cs, best) && best.Some?
    ensures (forall u :: SameButMethods(t, u) ==> MethodsAgree(u, cs, cs, host))
       <==> !SomeOvertaken(t, cs, best.value.1)
  {
    hide IsBest, Eligible, Chosen, Reached, HostFree, SameButMethods, MethodsAgree, SomeOvertaken, SameChoice;
    MethodsAgreeIff(t, cs, cs, host);
    SameChoiceIffReached(t, cs, host);
    forall r | Chosen(t, PathOnly, cs, r)
      ensures 0 <= r < |t.routes| && (Reached(t, cs, host, r) <==> !SomeOvertaken(t, cs, best.value.1))
    {
      ChosenIsChosenBy(t, PathOnly, cs, best, r);
      HostFreeReachedIff(t, cs, host, best, r);
    }
    var first := SomethingBest(t, PathOnly, cs, best);
  }

  lemma SomethingBest(t: Table, scope: Scope, cs: seq<Candidate>, best: Best) returns (r: nat)
    requires IsBest(t, scope, cs, best) && best.Some?
    ensures Chosen(t, scope, cs, r)
  {
    hide MatchesIn, Specificity, LexLess;
    SeenAll(t, cs);
    r :| Seen(t, cs, |cs|, 0, best.value.0, r)
      && MatchesIn(t, scope, t.routes[r], cs[best.value.0]) && Specificity(scope, t.routes[r]) == best.value.1;
    assert ChosenBy(t, scope, cs, best, r);
  }

  /** A method list and a call, on a table without host restrictions that overtakes nothing. */
  lemma HostFreeReportIsAccepted(
    t: Table, cs: seq<Candidate>, host: Option<string>, methods: seq<HttpMethod>, m: HttpMethod, d: Dispatched)
    requires HostFree(t) && AllowedAre(t, cs, methods) && IsDispatch(t, cs, host, m, d) && m != All
    requires forall best :: IsBest(t, PathOnly, cs, best) && best.Some? ==> !SomeOvertaken(t, cs, best.value.1)
    ensures d.Handled? ==> d.index < |t.routes|
    ensures m in methods <==> d.Handled? && Accepts(t.routes[d.index].httpMethod, m)
  {
    hide IsBest, Eligible, Chosen, Reached, HostFree, SomeOvertaken, IsDispatch, AllowedAre, Reported, AcceptedByCall;
    var best := TheBest(t, PathOnly, cs);
    forall r | Chosen(t, PathOnly, cs, r) ensures 0 <= r < |t.routes| && Reached(t, cs, host, r) {
      ChosenIsChosenBy(t, PathOnly, cs, best, r);
      HostFreeReachedIff(t, cs, host, best, r);
    }
    SameChoiceIffReached(t, cs, host);
    SameChoiceAgrees(t, cs, cs, host);
    ReportedIs(t, cs, methods, m);
    AcceptedIs(t, cs, host, m, d);
  }

  /** The case occurs: a wildcard route that takes no segment overtakes the route without
      it, so that the path allows only a method that a call then has refused. */
  lemma AllowedMethodCanBeRefused()
    ensures
      var t := Table([PLAIN, CATCH_ALL], None);
      var cs := [Candidate("/a", None)];
      AllowedAre(t, cs, [Post]) && IsDispatch(t, cs, None, Post, Handled(0, 0)) &&
        !Accepts(t.routes[0].httpMethod, Post)
  {
    var t := Table([PLAIN, CATCH_ALL], None);
    var c := Candidate("/a", None);
    TwoRoutes(t, c);
    hide MatchesIn, Specificity, LexLess;
    BestOfTwo(t, PathOnly, c, 1, 0);
    BestOfTwo(t, WithHost(None), c, 0, 1);
    hide IsBest;
    AllowsPost(t, c);
    GoesToPlain(t, c);
  }

  lemma GoesToPlain(t: Table, c: Candidate)
    requires t == Table([PLAIN, CATCH_ALL], None) && IsBest(t, WithHost(None), [c], Some((0, [2, 2, 0])))
    requires MatchesIn(t, WithHost(None), PLAIN, c)
    requires Specificity(WithHost(None), PLAIN) == [2, 2, 0] && Specificity(WithHost(None), CATCH_ALL) == [2, 0, 2, 0]
    ensures IsDispatch(t, [c], None, Post, Handled(0, 0))
  {
    hide MatchesIn, Specificity, IsBest;
    assert t.routes[0] == PLAIN && t.routes[1] == CATCH_ALL;
    assert [2, 2, 0][1] != [2, 0, 2, 0][1];
    assert Eligible(t, WithHost(None), c, [2, 2, 0], PLAIN) && !Eligible(t, WithHost(None), c, [2, 2, 0], CATCH_ALL);
    DispatchIs(t, [c], None, Post, 0, [2, 2, 0], 0);
  }

  lemma AllowsPost(t: Table, c: Candidate)
    requires t == Table([PLAIN, CATCH_ALL], None) && IsBest(t, PathOnly, [c], Some((0, [2, 0])))
    requires MatchesIn(t, PathOnly, CATCH_ALL, c)
    requires Specificity(PathOnly, PLAIN) == [2] && Specificity(PathOnly, CATCH_ALL) == [2, 0]
    ensures AllowedAre(t, [c], [Post])
  {
    hide MatchesIn, Specificity, IsBest;
    assert t.routes[1] == CATCH_ALL && Eligible(t, PathOnly, c, [2, 0], CATCH_ALL);
    assert !Eligible(t, PathOnly, c, [2, 0], PLAIN);
    hide Eligible;
    assert RegisteredUpTo(t, c, [2, 0], Post, 2);
    assert IsAllowed(t, [c], Some((0, [2, 0])), [Post]);
  }

  const PLAIN := Route(Get, "/a", None, Versioning.Unspecified)
  const CATCH_ALL := Route(Post, "/a/{*r}", None, Versioning.Unspecified)

  /** Of two matching routes for one candidate, the more specific one is the best. */
  lemma BestOfTwo(t: Table, scope: Scope, c: Candidate, winner: nat, loser: nat)
    requires |t.routes| == 2 && winner < 2 && loser < 2 && winner != loser
    requires MatchesIn(t, scope, t.routes[winner], c)
    requires LexLess(Specificity(scope, t.routes[loser]), Specificity(scope, t.routes[winner]))
    ensures IsBest(t, scope, [c], Some((0, Specificity(scope, t.routes[winner]))))
  {
    hide MatchesIn, Specificity, LexLess;
    LexTotal(Specificity(scope, t.routes[loser]), Specificity(scope, t.routes[winner]));
    LexTotal(Specificity(scope, t.routes[winner]), Specificity(scope, t.routes[winner]));
    assert Seen(t, [c], 1, 0, 0, winner);
  }

  lemma TwoRoutes(t: Table, c: Candidate)
    requires t == Table([PLAIN, CATCH_ALL], None) && c == Candidate("/a", None)
    ensures forall scope, r :: scope in {PathOnly, WithHost(None)} && 0 <= r < 2 ==> MatchesIn(t, scope, t.routes[r], c)
    ensures Specificity(PathOnly, PLAIN) == [2] && Specificity(PathOnly, CATCH_ALL) == [2, 0]
    ensures Specificity(WithHost(None), PLAIN) == [2, 2, 0]
    ensures Specificity(WithHost(None), CATCH_ALL) == [2, 0, 2, 0]
    ensures LexLess([2], [2, 0]) && LexLess([2, 0, 2, 0], [2, 2, 0])
  {
    PlainPattern();
    CatchAllPattern();
    hide Paths.Pattern, Paths.SplitPath, Paths.Matches, Paths.Ranks, Paths.MatchesPathShape;
    assert [2][1..] == [] && [2, 0][1..] == [0];
    assert [2, 2, 0][1..] == [2, 0] && [2, 0, 2, 0][1..] == [0, 2, 0];
  }

  lemma PlainPattern()
    ensures Paths.SplitPath("/a") == ["a"]
    ensures Paths.MatchesPathShape("/a", "/a") && Paths.PathSpecificity("/a") == [2]
  {
    assert "/a"[1..] == "a";
    SplitWithoutSeparator("a", '/');
    assert Paths.SplitPath("/a") == ["a"];
    var pattern := Paths.Pattern("/a");
    assert pattern == [Paths.Literal("a")];
    assert pattern[1..] == [] && ["a"][1..] == [];
    assert Paths.Ranks(pattern) == [2];
  }

  lemma CatchAllPattern()
    ensures Paths.MatchesPathShape("/a/{*r}", "/a") && Paths.PathSpecificity("/a/{*r}") == [2, 0]
  {
    PlainPattern();
    CatchAllSegments();
    hide Paths.SplitPath, Paths.Classify;
    var pattern := Paths.Pattern("/a/{*r}");
    assert pattern == [Paths.Literal("a"), Paths.Wildcard("r")];
    assert pattern[1..] == [Paths.Wildcard("r")];
    assert Paths.Ranks(pattern) == [2, 0];
  }

  lemma CatchAllSegments()
    ensures Paths.SplitPath("/a/{*r}") == ["a", "{*r}"]
    ensures Paths.Classify("a") == Paths.Literal("a") && Paths.Classify("{*r}") == Paths.Wildcard("r")
  {
    assert "/a/{*r}"[1..] == "a" + ['/'] + "{*r}";
    SplitAtSeparator("a", '/', "{*r}");
    SplitWithoutSeparator("{*r}", '/');
    assert "{*r}"[2..3] == "r" && "{*r}"[..2] == "{*";
  }

  // ----- The other two causes

  /** For every route whose path matches and whose host restriction does not, the path
      reports the route's methods, and the call finds nothing. */
  lemma ReportedForAnotherHost(
    route: Route, versioning: Option<Dispatch.ApiVersioning>, c: Candidate, host: Option<string>, m: HttpMethod)
    requires
      var t := Table([route], versioning);
      MatchesPathAndVersion(t, route, c) && !Hosts.MatchesHost(route.host, host)
    ensures
      var t := Table([route], versioning);
      AllowedAre(t, [c], if route.httpMethod.All? then STANDARD else [route.httpMethod])
      && IsDispatch(t, [c], host, m, NotFound)
  {
    var t := Table([route], versioning);
    OneRouteReported(t, c);
    MatchesWithHost(t, host, route, c);
    hide MatchesIn;
    assert IsBest(t, WithHost(host), [c], None);
    assert DispatchesBy(t, [c], host, m, None, NotFound);
  }

  lemma OneRouteReported(t: Table, c: Candidate)
    requires |t.routes| == 1 && MatchesIn(t, PathOnly, t.routes[0], c)
    ensures AllowedAre(t, [c], if t.routes[0].httpMethod.All? then STANDARD else [t.routes[0].httpMethod])
  {
    hide MatchesIn, Specificity;
    var sp := Specificity(PathOnly, t.routes[0]);
    OneRouteBest(t, PathOnly, c);
    assert Eligible(t, PathOnly, c, sp, t.routes[0]);
    hide Eligible, IsBest;
    assert RegisteredUpTo(t, c, sp, t.routes[0].httpMethod, 1);
    assert IsAllowed(t, [c], Some((0, sp)), if t.routes[0].httpMethod.All? then STANDARD else [t.routes[0].httpMethod]);
  }

  lemma OneRouteBest(t: Table, scope: Scope, c: Candidate)
    requires |t.routes| == 1 && MatchesIn(t, scope, t.routes[0], c)
    ensures IsBest(t, scope, [c], Some((0, Specificity(scope, t.routes[0]))))
  {
    hide MatchesIn, Specificity;
    var sp := Specificity(scope, t.routes[0]);
    LexTotal(sp, sp);
    assert Seen(t, [c], 1, 0, 0, 0);
  }

  /** For every unrestricted route that serves a version but no request without one: when the
      version travels in a header, the path reports nothing, and the call is accepted. */
  lemma HeaderVersionIsNotReported(
    route: Route, versioning: Option<Dispatch.ApiVersioning>, path: string, version: string)
    requires route.host.None?
    requires
      var t := Table([route], versioning);
      MatchesPathAndVersion(t, route, Candidate(path, Some(version)))
      && !MatchesPathAndVersion(t, route, Candidate(path, None))
    ensures
      var t := Table([route], versioning);
      AllowedAre(t, [Candidate(path, None)], [])
      && IsDispatch(t, [Candidate(path, Some(version))], None, route.httpMethod, Handled(0, 0))
  {
    var t := Table([route], versioning);
    var c := Candidate(path, Some(version));
    MatchesWithHost(t, None, route, c);
    assert IsBest(t, PathOnly, [Candidate(path, None)], None);
    assert IsAllowed(t, [Candidate(path, None)], None, []);
    OneRouteBest(t, WithHost(None), c);
    hide MatchesIn, Specificity, IsBest;
    assert FirstMostSuitable(t, WithHost(None), c, Specificity(WithHost(None), route), route.httpMethod, 0);
    DispatchIs(t, [c], None, route.httpMethod, 0, Specificity(WithHost(None), route), 0);
  }
}
