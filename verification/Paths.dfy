/** Route path patterns: validation, prefix joining, matching by shape, shape
    keys and specificity. */
module Paths {
  import opened Results
  import opened Text

  /** A pattern segment: `{*name}`, `{name}`, or literal text. */
  datatype Segment = Wildcard(name: string) | Param(name: string) | Literal(text: string)

  predicate HasBrace(s: string)
  {
    '{' in s || '}' in s
  }

  predicate IsWildcardSegment(s: string)
  {
    && |s| > 3 && s[..2] == "{*" && s[|s| - 1] == '}'
    && !HasBrace(s[2..|s| - 1]) && '*' !in s[2..|s| - 1]
  }

  predicate IsParamSegment(s: string)
  {
    && |s| > 2 && s[0] == '{' && s[|s| - 1] == '}'
    && s[1] != '*' && !HasBrace(s[1..|s| - 1])
  }

  function Classify(s: string): Segment
  {
    if IsWildcardSegment(s) then Wildcard(s[2..|s| - 1])
    else if IsParamSegment(s) then Param(s[1..|s| - 1])
    else Literal(s)
  }

  function SplitPath(path: string): seq<string>
  {
    var stripped := if path != "" && path[0] == '/' then path[1..] else path;
    if stripped == "" then [] else Split(stripped, '/')
  }

  function Pattern(path: string): (pattern: seq<Segment>)
    ensures |pattern| == |SplitPath(path)|
    ensures forall i :: 0 <= i < |pattern| ==> pattern[i] == Classify(SplitPath(path)[i])
  {
    ClassifyAll(SplitPath(path))
  }

  function ClassifyAll(segments: seq<string>): (pattern: seq<Segment>)
    ensures |pattern| == |segments|
    ensures forall i :: 0 <= i < |pattern| ==> pattern[i] == Classify(segments[i])
  {
    if segments == [] then [] else [Classify(segments[0])] + ClassifyAll(segments[1..])
  }

  /** Whether the segments may follow, in this order, the parameter names in `used`. */
  predicate ValidSegments(segments: seq<string>, used: set<string>)
  {
    if segments == [] then true
    else if !HasBrace(segments[0]) then ValidSegments(segments[1..], used)
    else
      match Classify(segments[0])
      case Literal(_) => false
      case Wildcard(name) => |segments| == 1 && name !in used
      case Param(name) => name !in used && ValidSegments(segments[1..], used + {name})
  }

  predicate ValidRoutePath(path: string)
  {
    && path != "" && path[0] == '/' && '?' !in path && '#' !in path
    && ValidSegments(SplitPath(path), {})
  }

  function TrimSlashesStart(s: string): string
  {
    if s != "" && s[0] == '/' then TrimSlashesStart(s[1..]) else s
  }

  function TrimSlashesEnd(s: string): string
  {
    if s != "" && s[|s| - 1] == '/' then TrimSlashesEnd(s[..|s| - 1]) else s
  }

  function NormalizePrefix(prefix: string): (r: Result<string>)
    ensures r.Err? ==> r.error == InvalidRoutePath(prefix) && !ValidRoutePath(prefix)
  {
    if prefix == "" || prefix == "/" then Ok("")
    else if !ValidRoutePath(prefix) then Err(InvalidRoutePath(prefix))
    else Ok(TrimSlashesEnd(prefix))
  }

  function JoinPaths(prefix: string, path: string): (r: Result<string>)
    ensures r.Err? ==> r.error.InvalidRoutePath? && !ValidRoutePath(r.error.path)
  {
    if !ValidRoutePath(path) then Err(InvalidRoutePath(path))
    else
      match NormalizePrefix(prefix)
      case Err(e) => Err(e)
      case Ok(base) =>
        var tail := TrimSlashesStart(path);
        if base == "" then Ok("/" + tail)
        else
          var joined := if tail == "" then base else base + "/" + tail;
          if ValidRoutePath(joined) then Ok(joined) else Err(InvalidRoutePath(joined))
  }

  lemma {:induction false} TrimmedStart(s: string)
    ensures forall c :: c in TrimSlashesStart(s) ==> c in s
  {
    if s != "" && s[0] == '/' {
      TrimmedStart(s[1..]);
    }
  }

  lemma {:induction false} TrimmedEnd(s: string)
    ensures TrimSlashesEnd(s) <= s
  {
    if s != "" && s[|s| - 1] == '/' {
      TrimmedEnd(s[..|s| - 1]);
    }
  }

  lemma {:induction false} TrimmedEndIsSolid(s: string)
    ensures TrimSlashesEnd(s) != "" ==> TrimSlashesEnd(s)[|TrimSlashesEnd(s)| - 1] != '/'
  {
    if s != "" && s[|s| - 1] == '/' {
      TrimmedEndIsSolid(s[..|s| - 1]);
    }
  }

  /** A joined path has the segments of the prefix followed by those of the path, slashes
      between the two aside. */
  lemma JoinedSegments(prefix: string, path: string)
    requires JoinPaths(prefix, path).Ok?
    ensures SplitPath(JoinPaths(prefix, path).value)
         == SplitPath(TrimSlashesEnd(prefix)) + SplitPath("/" + TrimSlashesStart(path))
  {
    hide ValidRoutePath;
    var base, tail := TrimSlashesEnd(prefix), TrimSlashesStart(path);
    TrimmedEnd(prefix);
    TrimmedEndIsSolid(prefix);
    if prefix != "" && prefix != "/" {
      ValidStartsWithSlash(prefix);
    }
    JoinedTextSegments(base, tail);
  }

  lemma JoinedTextSegments(base: string, tail: string)
    requires base != "" ==> base[0] == '/' && base[|base| - 1] != '/'
    ensures
      var joined := if base == "" || tail != "" then base + "/" + tail else base;
      SplitPath(joined) == SplitPath(base) + SplitPath("/" + tail)
  {
    assert ("/" + tail)[1..] == tail;
    if base != "" && tail != "" {
      assert (base + "/" + tail)[1..] == base[1..] + ['/'] + tail;
      SplitConcat(base[1..], '/', tail);
    }
  }

  lemma ValidStartsWithSlash(path: string)
    requires ValidRoutePath(path)
    ensures path != "" && path[0] == '/'
  {
  }

  /** Whether the request segments have the shape of the pattern. */
  predicate Matches(pattern: seq<Segment>, segments: seq<string>)
  {
    if pattern == [] then segments == []
    else if pattern[0].Wildcard? then true
    else
      && segments != []
      && (pattern[0].Literal? ==> pattern[0].text == segments[0])
      && Matches(pattern[1..], segments[1..])
  }

  predicate MatchesPathShape(route: string, path: string)
  {
    Matches(Pattern(route), SplitPath(path))
  }

  /** The scan that the router runs, proved to decide `MatchesPathShape`. */
  method MatchPathShape(route: string, path: string) returns (matched: bool)
    ensures matched == MatchesPathShape(route, path)
  {
    hide Pattern, SplitPath;
    var pattern := Pattern(route);
    var segments := SplitPath(path);
    var index := 0;
    assert pattern[0..] == pattern && segments[0..] == segments;
    while index < |pattern|
      invariant 0 <= index <= |pattern| && index <= |segments|
      invariant MatchesPathShape(route, path) == Matches(pattern[index..], segments[index..])
    {
      if pattern[index].Wildcard? {
        return true;
      }
      if index == |segments| {
        return false;
      }
      if pattern[index].Literal? && pattern[index].text != segments[index] {
        return false;
      }
      assert pattern[index..][1..] == pattern[index + 1..];
      assert segments[index..][1..] == segments[index + 1..];
      index := index + 1;
    }
    return index == |segments|;
  }

  // ----- Which route paths are valid

  predicate IsTemplate(s: string)
  {
    IsParamSegment(s) || IsWildcardSegment(s)
  }

  function TemplateName(s: string): string
    requires IsTemplate(s)
  {
    if IsWildcardSegment(s) then s[2..|s| - 1] else s[1..|s| - 1]
  }

  /** Segments without braces, parameters, and at most at the end a wildcard; no name twice,
      and none of the names in `used`. */
  ghost predicate WellFormedSegments(segments: seq<string>, used: set<string>)
  {
    && (forall i :: 0 <= i < |segments| ==> !HasBrace(segments[i]) || IsTemplate(segments[i]))
    && (forall i :: 0 <= i < |segments| - 1 ==> !IsWildcardSegment(segments[i]))
    && (forall i :: 0 <= i < |segments| && IsTemplate(segments[i]) ==> TemplateName(segments[i]) !in used)
    && (forall i, j :: 0 <= i < j < |segments| && IsTemplate(segments[i]) && IsTemplate(segments[j]) ==>
          TemplateName(segments[i]) != TemplateName(segments[j]))
  }

  lemma {:induction false} SegmentsValidIff(segments: seq<string>, used: set<string>)
    ensures ValidSegments(segments, used) <==> WellFormedSegments(segments, used)
  {
    if segments != [] {
      var first, rest := segments[0], segments[1..];
      SegmentsValidIff(rest, used);
      TemplateKinds(first);
      if IsTemplate(first) {
        SegmentsValidIff(rest, used + {TemplateName(first)});
      }
      hide IsParamSegment, IsWildcardSegment, HasBrace, TemplateName;
      FirstAndRest(segments, used);
    }
  }

  lemma TemplateKinds(s: string)
    ensures IsTemplate(s) ==> HasBrace(s)
    ensures Classify(s).Literal? <==> !IsTemplate(s)
    ensures Classify(s).Wildcard? <==> IsWildcardSegment(s)
    ensures IsTemplate(s) ==> Classify(s).name == TemplateName(s)
  {
  }

  lemma FirstAndRest(segments: seq<string>, used: set<string>)
    requires segments != []
    requires IsTemplate(segments[0]) ==> HasBrace(segments[0])
    ensures
      var first, rest := segments[0], segments[1..];
      WellFormedSegments(segments, used) <==>
        if !HasBrace(first) then WellFormedSegments(rest, used)
        else
          && IsTemplate(first) && TemplateName(first) !in used
          && (IsWildcardSegment(first) ==> rest == [])
          && WellFormedSegments(rest, used + {TemplateName(first)})
  {
    hide IsParamSegment, IsWildcardSegment, HasBrace, TemplateName;
    var rest := segments[1..];
    assert forall i :: 0 <= i < |rest| ==> rest[i] == segments[i + 1];
    assert forall i :: 1 <= i < |segments| ==> segments[i] == rest[i - 1];
  }

  /** A route path is valid exactly when it is rooted, has no query and no fragment, and its
      segments are well formed. */
  lemma RoutePathValidIff(path: string)
    ensures ValidRoutePath(path) <==>
            && path != "" && path[0] == '/' && '?' !in path && '#' !in path
            && WellFormedSegments(SplitPath(path), {})
  {
    SegmentsValidIff(SplitPath(path), {});
  }

  // ----- What a route path matches

  predicate IsName(name: string)
  {
    name != "" && !HasBrace(name) && '*' !in name
  }

  /** How the two kinds of parameter are written. */
  lemma WrittenSegments(name: string)
    requires IsName(name)
    ensures Classify("{" + name + "}") == Param(name)
    ensures Classify("{*" + name + "}") == Wildcard(name)
    ensures Classify(name) == Literal(name)
  {
    var p, w := "{" + name + "}", "{*" + name + "}";
    assert p[1..|p| - 1] == name && p[1] == name[0] && name[0] in name;
    assert w[2..|w| - 1] == name && w[..2] == "{*";
    assert p[..2] == "{" + name[..1];
    assert p[..2][1] != '*';
  }

  /** Segment by segment: a parameter takes any segment, a literal only itself, and a
      wildcard at the end any number of segments, also none. */
  lemma {:induction false} MatchesIff(p: seq<Segment>, s: seq<string>)
    requires forall i :: 0 <= i < |p| - 1 ==> !p[i].Wildcard?
    ensures Matches(p, s) <==>
            var open := p != [] && p[|p| - 1].Wildcard?;
            && (if open then |p| - 1 <= |s| else |p| == |s|)
            && forall i :: 0 <= i < |p| && i < |s| ==> p[i].Param? || p[i].Wildcard? || p[i] == Literal(s[i])
  {
    if p != [] && !p[0].Wildcard? && s != [] {
      MatchesIff(p[1..], s[1..]);
      assert forall i :: 1 <= i < |p| ==> p[i] == p[1..][i - 1];
      assert forall i :: 1 <= i < |s| ==> s[i] == s[1..][i - 1];
    }
  }

  predicate IsOpen(segments: seq<string>)
  {
    segments != [] && IsWildcardSegment(segments[|segments| - 1])
  }

  /** The given segments fill the route's: as many of them, or at least as many as stand
      before a wildcard at the end; and equal ones wherever the route has no parameter. */
  ghost predicate Fills(given: seq<string>, route: seq<string>)
  {
    && (if IsOpen(route) then |route| - 1 <= |given| else |given| == |route|)
    && forall i :: 0 <= i < |route| && i < |given| && !IsParamSegment(route[i]) && !IsWildcardSegment(route[i]) ==>
         given[i] == route[i]
  }

  /** A valid route path matches exactly the paths whose segments fill its own. */
  lemma RouteMatchesIff(route: string, path: string)
    requires ValidRoutePath(route)
    ensures MatchesPathShape(route, path) <==> Fills(SplitPath(path), SplitPath(route))
  {
    var segments, pattern := SplitPath(route), Pattern(route);
    forall i | 0 <= i < |segments| - 1 ensures !pattern[i].Wildcard? {
      WildcardIsLast(segments, {}, i);
    }
    MatchesIff(pattern, SplitPath(path));
    hide SplitPath, Pattern, Matches, ValidRoutePath;
    FillsIff(SplitPath(path), segments, pattern);
  }

  lemma FillsIff(given: seq<string>, segments: seq<string>, pattern: seq<Segment>)
    requires |pattern| == |segments| && forall i :: 0 <= i < |pattern| ==> pattern[i] == Classify(segments[i])
    ensures Fills(given, segments) <==>
            var open := pattern != [] && pattern[|pattern| - 1].Wildcard?;
            && (if open then |pattern| - 1 <= |given| else |pattern| == |given|)
            && forall i :: 0 <= i < |pattern| && i < |given| ==>
                 pattern[i].Param? || pattern[i].Wildcard? || pattern[i] == Literal(given[i])
  {
    forall i | 0 <= i < |segments|
      ensures pattern[i].Wildcard? <==> IsWildcardSegment(segments[i])
      ensures pattern[i].Param? || pattern[i].Wildcard?
         <==> IsParamSegment(segments[i]) || IsWildcardSegment(segments[i])
      ensures pattern[i].Literal? ==> pattern[i] == Literal(segments[i])
    {
      KindOfSegment(segments[i]);
    }
    hide Classify, IsParamSegment, IsWildcardSegment;
  }

  lemma KindOfSegment(s: string)
    ensures Classify(s).Wildcard? <==> IsWildcardSegment(s)
    ensures Classify(s).Param? || Classify(s).Wildcard? <==> IsParamSegment(s) || IsWildcardSegment(s)
    ensures Classify(s).Literal? ==> Classify(s) == Literal(s)
  {
  }

  /** So filling the parameters of a route path with any slash-free texts, and its wildcard
      with any number of them, gives a path that the route matches. (A single empty segment
      is not a path of its own: it is the root.) */
  lemma FilledPathMatches(route: string, given: seq<string>)
    requires ValidRoutePath(route) && Fills(given, SplitPath(route))
    requires given != [""] && forall s :: s in given ==> '/' !in s
    ensures MatchesPathShape(route, "/" + Join(given, "/"))
  {
    var path := "/" + Join(given, "/");
    assert path[1..] == Join(given, "/");
    if given != [] {
      SplitUndoesJoin(given, '/');
      assert Join(given, "/") == "" ==> Split("", '/') == [""];
    }
    assert SplitPath(path) == given;
    RouteMatchesIff(route, path);
  }

  function ShapeText(segment: Segment): string
  {
    match segment
    case Wildcard(_) => "{*}"
    case Param(_) => "{}"
    case Literal(text) => text
  }

  function ShapeTexts(pattern: seq<Segment>): (texts: seq<string>)
    ensures |texts| == |pattern|
    ensures forall i :: 0 <= i < |texts| ==> texts[i] == ShapeText(pattern[i])
  {
    if pattern == [] then [] else [ShapeText(pattern[0])] + ShapeTexts(pattern[1..])
  }

  function ShapeKey(path: string): string
  {
    "/" + Join(ShapeTexts(Pattern(path)), "/")
  }

  function Rank(segment: Segment): nat
  {
    match segment
    case Wildcard(_) => 0
    case Param(_) => 1
    case Literal(_) => 2
  }

  function Ranks(pattern: seq<Segment>): (ranks: seq<nat>)
    ensures |ranks| == |pattern|
    ensures forall i :: 0 <= i < |ranks| ==> ranks[i] == Rank(pattern[i])
  {
    if pattern == [] then [] else [Rank(pattern[0])] + Ranks(pattern[1..])
  }

  function PathSpecificity(path: string): seq<nat>
  {
    Ranks(Pattern(path))
  }

  lemma {:induction false} WildcardIsLast(segments: seq<string>, used: set<string>, i: nat)
    requires ValidSegments(segments, used) && i < |segments| - 1
    ensures !Classify(segments[i]).Wildcard?
  {
    if HasBrace(segments[0]) {
      if i > 0 {
        WildcardIsLast(segments[1..], used + {Classify(segments[0]).name}, i - 1);
      }
    } else if i > 0 {
      WildcardIsLast(segments[1..], used, i - 1);
    }
  }

  lemma {:induction false} LiteralHasNoBrace(segments: seq<string>, used: set<string>, i: nat)
    requires ValidSegments(segments, used) && i < |segments|
    requires Classify(segments[i]).Literal?
    ensures !HasBrace(segments[i])
  {
    if HasBrace(segments[0]) {
      if i > 0 {
        LiteralHasNoBrace(segments[1..], used + {Classify(segments[0]).name}, i - 1);
      }
    } else if i > 0 {
      LiteralHasNoBrace(segments[1..], used, i - 1);
    }
  }

  /** Two patterns of equal specificity that accept the same request have the same shape. */
  lemma {:induction false} TiedPatternsShareShape(p: seq<Segment>, q: seq<Segment>, segments: seq<string>)
    requires Matches(p, segments) && Matches(q, segments)
    requires Ranks(p) == Ranks(q)
    requires forall i :: 0 <= i < |p| - 1 ==> !p[i].Wildcard?
    ensures ShapeTexts(p) == ShapeTexts(q)
  {
    assert |p| == |Ranks(p)| == |q|;
    if p != [] {
      assert Rank(p[0]) == Ranks(p)[0] == Rank(q[0]);
      if p[0].Wildcard? {
        assert |p| == 1;
      } else {
        assert Ranks(p[1..]) == Ranks(p)[1..] == Ranks(q)[1..] == Ranks(q[1..]);
        TiedPatternsShareShape(p[1..], q[1..], segments[1..]);
      }
    }
  }

  /** Two valid route paths that match the same request with equal specificity
      have equal shape keys. */
  lemma TiedPathsShareShapeKey(p: string, q: string, path: string)
    requires ValidRoutePath(p)
    requires MatchesPathShape(p, path) && MatchesPathShape(q, path)
    requires PathSpecificity(p) == PathSpecificity(q)
    ensures ShapeKey(p) == ShapeKey(q)
  {
    forall i | 0 <= i < |Pattern(p)| - 1 ensures !Pattern(p)[i].Wildcard? {
      WildcardIsLast(SplitPath(p), {}, i);
    }
    TiedPatternsShareShape(Pattern(p), Pattern(q), SplitPath(path));
  }

  lemma SplitPathParts(path: string)
    ensures forall part :: part in SplitPath(path) ==> '/' !in part
    ensures SplitPath(path) != [""]
  {
    var stripped := if path != "" && path[0] == '/' then path[1..] else path;
    if stripped != "" {
      JoinUndoesSplit(stripped, '/');
    }
  }

  /** The shape texts of a valid path can be read back from its key. */
  lemma ShapeTextsFromKey(p: string)
    requires ValidRoutePath(p)
    ensures
      var texts := ShapeTexts(Pattern(p));
      if texts == [] then ShapeKey(p) == "/"
      else ShapeKey(p) != "/" && Split(ShapeKey(p)[1..], '/') == texts
  {
    var texts := ShapeTexts(Pattern(p));
    SplitPathParts(p);
    if texts != [] {
      forall i | 0 <= i < |texts| ensures '/' !in texts[i] {
        assert SplitPath(p)[i] in SplitPath(p);
      }
      SplitUndoesJoin(texts, '/');
      assert ShapeKey(p)[1..] == Join(texts, "/");
      assert |texts| == 1 ==> texts[0] != "";
    }
  }

  ghost predicate LiteralsArePlain(pattern: seq<Segment>)
  {
    forall i :: 0 <= i < |pattern| && pattern[i].Literal? ==> !HasBrace(pattern[i].text)
  }

  lemma ValidLiteralsArePlain(p: string)
    requires ValidRoutePath(p)
    ensures LiteralsArePlain(Pattern(p))
  {
    forall i | 0 <= i < |Pattern(p)| && Pattern(p)[i].Literal? ensures !HasBrace(Pattern(p)[i].text) {
      LiteralHasNoBrace(SplitPath(p), {}, i);
    }
  }

  lemma {:induction false} SameShapeSameMatches(p: seq<Segment>, q: seq<Segment>, segments: seq<string>)
    requires ShapeTexts(p) == ShapeTexts(q) && LiteralsArePlain(p) && LiteralsArePlain(q)
    ensures Matches(p, segments) == Matches(q, segments)
  {
    assert |p| == |ShapeTexts(p)| == |q|;
    if p != [] {
      assert ShapeText(p[0]) == ShapeTexts(p)[0] == ShapeText(q[0]);
      assert HasBrace("{*}") && HasBrace("{}") && "{*}"[1] == '*' && "{}"[1] == '}';
      if !p[0].Wildcard? && segments != [] {
        assert ShapeTexts(p[1..]) == ShapeTexts(p)[1..] == ShapeTexts(q)[1..] == ShapeTexts(q[1..]);
        SameShapeSameMatches(p[1..], q[1..], segments[1..]);
      }
    }
  }

  /** Equal shape keys mean that exactly the same request paths match: rejecting
      a second route with the same key rejects a genuine conflict. */
  lemma SameKeyMatchesSamePaths(p: string, q: string, path: string)
    requires ValidRoutePath(p) && ValidRoutePath(q)
    requires ShapeKey(p) == ShapeKey(q)
    ensures MatchesPathShape(p, path) == MatchesPathShape(q, path)
  {
    hide ValidRoutePath, ShapeKey, Matches, LiteralsArePlain, SplitPath, Pattern, ShapeTexts, Split;
    ShapeTextsFromKey(p);
    ShapeTextsFromKey(q);
    ValidLiteralsArePlain(p);
    ValidLiteralsArePlain(q);
    SameShapeSameMatches(Pattern(p), Pattern(q), SplitPath(path));
  }
}
