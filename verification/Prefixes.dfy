/** Route prefixes that can be put in front of one another: when joining them succeeds, and
    which parameters the result has. */
module Prefixes {
  import opened Results
  import opened Text
  import opened Paths

  /** The parameter names of a list of segments. */
  function SegmentParams(segments: seq<string>): set<string>
  {
    if segments == [] then {}
    else
      (match Classify(segments[0])
       case Literal(_) => {}
       case Param(name) => {name}
       case Wildcard(name) => {name})
      + SegmentParams(segments[1..])
  }

  function PathParams(path: string): set<string>
  {
    SegmentParams(SplitPath(path))
  }

  ghost predicate NoWildcard(segments: seq<string>)
  {
    forall s :: s in segments ==> !Classify(s).Wildcard?
  }

  /** Segments that may stand in front of others. */
  ghost predicate OpenSegments(segments: seq<string>)
  {
    ValidSegments(segments, {}) && NoWildcard(segments)
  }

  /** A prefix that may stand in front of others: valid and without a wildcard, or empty. */
  ghost predicate Joinable(path: string)
  {
    path != "" ==> ValidRoutePath(path) && NoWildcard(SplitPath(path))
  }

  // ----- Segments put together

  lemma {:induction false} ParamsConcat(a: seq<string>, b: seq<string>)
    ensures SegmentParams(a + b) == SegmentParams(a) + SegmentParams(b)
  {
    if a == [] {
      assert a + b == b;
    } else {
      ParamsConcat(a[1..], b);
      assert (a + b)[1..] == a[1..] + b;
    }
  }

  /** Segments stay valid behind further names that they do not use. */
  lemma {:induction false} ValidBehind(b: seq<string>, used: set<string>, more: set<string>)
    requires ValidSegments(b, used) && SegmentParams(b) !! more
    ensures ValidSegments(b, used + more)
  {
    if b != [] && HasBrace(b[0]) {
      match Classify(b[0])
      case Param(name) =>
        ValidBehind(b[1..], used + {name}, more);
        assert used + {name} + more == used + more + {name};
      case _ =>
    } else if b != [] {
      ValidBehind(b[1..], used, more);
    }
  }

  lemma {:induction false} ValidConcat(a: seq<string>, b: seq<string>, used: set<string>)
    requires ValidSegments(a, used) && NoWildcard(a) && ValidSegments(b, {})
    requires SegmentParams(b) !! used + SegmentParams(a)
    ensures ValidSegments(a + b, used)
  {
    if a == [] {
      ValidBehind(b, {}, used);
      assert a + b == b && {} + used == used;
    } else {
      assert (a + b)[1..] == a[1..] + b && a[0] in a;
      if HasBrace(a[0]) {
        ValidConcat(a[1..], b, used + {Classify(a[0]).name});
      } else {
        PlainHasNoParam(a[0]);
        ValidConcat(a[1..], b, used);
      }
    }
  }

  lemma PlainHasNoParam(s: string)
    requires !HasBrace(s)
    ensures Classify(s).Literal?
  {
  }

  /** The front of a valid list of segments is valid. */
  lemma {:induction false} ValidFront(a: seq<string>, b: seq<string>, used: set<string>)
    requires ValidSegments(a + b, used)
    ensures ValidSegments(a, used)
  {
    if a != [] {
      assert (a + b)[1..] == a[1..] + b;
      if HasBrace(a[0]) {
        match Classify(a[0])
        case Param(name) => ValidFront(a[1..], b, used + {name});
        case _ => assert a == [a[0]];
      } else {
        ValidFront(a[1..], b, used);
      }
    }
  }

  lemma {:induction false} UsedIsUnused(b: seq<string>, used: set<string>)
    requires ValidSegments(b, used)
    ensures SegmentParams(b) !! used
  {
    if b != [] && HasBrace(b[0]) {
      match Classify(b[0])
      case Param(name) => UsedIsUnused(b[1..], used + {name});
      case Wildcard(_) => assert |b| == 1;
      case Literal(_) =>
    } else if b != [] {
      PlainHasNoParam(b[0]);
      UsedIsUnused(b[1..], used);
    }
  }

  /** In a valid list no parameter occurs twice. */
  lemma {:induction false} ValidMeansDisjoint(a: seq<string>, b: seq<string>, used: set<string>)
    requires ValidSegments(a + b, used)
    ensures SegmentParams(a) !! SegmentParams(b)
  {
    if a != [] {
      assert (a + b)[1..] == a[1..] + b;
      if HasBrace(a[0]) {
        match Classify(a[0])
        case Param(name) =>
          ValidMeansDisjoint(a[1..], b, used + {name});
          UsedIsUnused(a[1..] + b, used + {name});
          ParamsConcat(a[1..], b);
        case Wildcard(_) => assert |a + b| == 1;
        case Literal(_) =>
      } else {
        PlainHasNoParam(a[0]);
        ValidMeansDisjoint(a[1..], b, used);
      }
    }
  }

  // ----- Slashes at the ends

  ghost predicate AllEmpty(segments: seq<string>)
  {
    forall s :: s in segments ==> s == ""
  }

  lemma {:induction false} EmptySegmentsAreNothing(e: seq<string>, a: seq<string>, used: set<string>)
    requires AllEmpty(e)
    ensures ValidSegments(e + a, used) == ValidSegments(a, used) && SegmentParams(e + a) == SegmentParams(a)
  {
    if e == [] {
      assert e + a == a;
    } else {
      assert e[0] in e && e[0] == "" && !HasBrace(e[0]);
      PlainHasNoParam(e[0]);
      assert (e + a)[1..] == e[1..] + a;
      assert forall s :: s in e[1..] ==> s in e;
      EmptySegmentsAreNothing(e[1..], a, used);
    }
  }

  /** A slash more at the end adds only empty segments. */
  lemma SlashAtEnd(x: string) returns (e: seq<string>)
    requires x != "" ==> x[0] == '/'
    ensures AllEmpty(e) && SplitPath(x + "/") == SplitPath(x) + e
  {
    if x == "" {
      e := [];
      assert x + "/" == "/";
    } else {
      assert (x + "/")[1..] == x[1..] + ['/'] + "";
      SplitConcat(x[1..], '/', "");
      assert Split("", '/') == [""];
      e := if x[1..] == "" then ["", ""] else [""];
    }
  }

  /** A slash more at the start adds only empty segments. */
  lemma SlashAtStart(z: string) returns (e: seq<string>)
    ensures AllEmpty(e) && SplitPath("/" + ("/" + z)) == e + SplitPath("/" + z)
  {
    assert ("/" + ("/" + z))[1..] == "/" + z && ("/" + z)[1..] == z;
    assert Split("/" + z, '/') == [""] + Split(z, '/');
    e := if z == "" then ["", ""] else [""];
    assert z == "" ==> Split(z, '/') == [""];
  }

  lemma {:induction false} TrimmedEndIsOpen(s: string)
    requires s != "" && s[0] == '/' && OpenSegments(SplitPath(s))
    ensures
      var segments := SplitPath(TrimSlashesEnd(s));
      OpenSegments(segments) && SegmentParams(segments) == PathParams(s)
  {
    if s[|s| - 1] == '/' {
      var x := s[..|s| - 1];
      assert s == x + "/";
      var e := SlashAtEnd(x);
      ValidFront(SplitPath(x), e, {});
      ParamsConcat(SplitPath(x), e);
      EmptySegmentsAreNothing(e, [], {});
      assert e + [] == e;
      if x != "" {
        TrimmedEndIsOpen(x);
      }
    }
  }

  lemma {:induction false} TrimmedStartIsOpen(y: string)
    requires OpenSegments(SplitPath("/" + y))
    ensures
      var segments := SplitPath("/" + TrimSlashesStart(y));
      OpenSegments(segments) && SegmentParams(segments) == PathParams("/" + y)
  {
    if y != "" && y[0] == '/' {
      var z := y[1..];
      assert y == "/" + z;
      var e := SlashAtStart(z);
      EmptySegmentsAreNothing(e, SplitPath("/" + z), {});
      assert forall s :: s in SplitPath("/" + z) ==> s in e + SplitPath("/" + z);
      TrimmedStartIsOpen(z);
    }
  }

  // ----- Joining

  /** Prefixes that may stand in front of others and share no parameter always join, to one
      that has the parameters of both. */
  lemma JoinablePathsJoin(prefix: string, path: string)
    requires Joinable(prefix) && Joinable(path) && path != "" && PathParams(prefix) !! PathParams(path)
    ensures JoinPaths(prefix, path).Ok?
    ensures
      var joined := JoinPaths(prefix, path).value;
      Joinable(joined) && PathParams(joined) == PathParams(prefix) + PathParams(path)
  {
    var base, tail := TrimSlashesEnd(prefix), TrimSlashesStart(path);
    var y := path[1..];
    assert path == "/" + y && TrimSlashesStart(path) == TrimSlashesStart(y);
    TrimmedStartIsOpen(y);
    TrimmedStart(path);
    BaseIsOpen(prefix);
    JoinedTextSegments(base, tail);
    var a, b := SplitPath(base), SplitPath("/" + tail);
    ValidConcat(a, b, {});
    ParamsConcat(a, b);
    var joined := if base == "" || tail != "" then base + "/" + tail else base;
    hide ValidSegments, SplitPath, SegmentParams;
    assert joined[0] == '/' && '?' !in joined && '#' !in joined;
    assert ValidRoutePath(joined) && NoWildcard(SplitPath(joined));
    assert NormalizePrefix(prefix) == Ok(base);
    assert base == "" ==> joined == "/" + tail;
  }

  lemma BaseIsOpen(prefix: string)
    requires Joinable(prefix)
    ensures
      var base := TrimSlashesEnd(prefix);
      && OpenSegments(SplitPath(base)) && SegmentParams(SplitPath(base)) == PathParams(prefix)
      && (base != "" ==> base[0] == '/' && base[|base| - 1] != '/')
      && '?' !in base && '#' !in base
      && NormalizePrefix(prefix) == Ok(base)
  {
    TrimmedEnd(prefix);
    TrimmedEndIsSolid(prefix);
    if prefix != "" {
      TrimmedEndIsOpen(prefix);
    }
  }

  /** And those that do share one never join. */
  lemma JoinablePathsJoinIff(prefix: string, path: string)
    requires Joinable(prefix) && Joinable(path) && path != ""
    ensures JoinPaths(prefix, path).Ok? <==> PathParams(prefix) !! PathParams(path)
  {
    if PathParams(prefix) !! PathParams(path) {
      JoinablePathsJoin(prefix, path);
    }
    if JoinPaths(prefix, path).Ok? {
      JoinedSegments(prefix, path);
      var y := path[1..];
      assert path == "/" + y && TrimSlashesStart(path) == TrimSlashesStart(y);
      TrimmedStartIsOpen(y);
      BaseIsOpen(prefix);
      TrimmedStart(path);
      JoinedIsValid(prefix, path);
      ValidMeansDisjoint(SplitPath(TrimSlashesEnd(prefix)), SplitPath("/" + TrimSlashesStart(path)), {});
    }
  }

  lemma JoinedIsValid(prefix: string, path: string)
    requires Joinable(prefix) && Joinable(path) && path != "" && JoinPaths(prefix, path).Ok?
    ensures ValidSegments(SplitPath(JoinPaths(prefix, path).value), {})
  {
    var y := path[1..];
    assert path == "/" + y && TrimSlashesStart(path) == TrimSlashesStart(y);
    TrimmedStartIsOpen(y);
  }
}
