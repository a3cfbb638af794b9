/** Host patterns: splitting, header normalisation, matching by shape, shape keys and
    specificity. */
module Hosts {
  import opened Results
  import opened Text

  /** The non-empty labels between dots. */
  function SplitHost(host: string): seq<string>
  {
    NonEmpty(Split(host, '.'))
  }

  predicate PlainName(name: string)
  {
    name != "" && '{' !in name && '}' !in name && ':' !in name && '.' !in name
  }

  /** `{name}` or `:name`. */
  predicate IsHostParam(part: string)
  {
    if |part| >= 2 && part[0] == '{' && part[|part| - 1] == '}' then PlainName(part[1..|part| - 1])
    else part != "" && part[0] == ':' && PlainName(part[1..])
  }

  function HostParamName(part: string): string
    requires IsHostParam(part)
  {
    if part[0] == '{' then part[1..|part| - 1] else part[1..]
  }

  predicate IsPlainLabel(part: string)
  {
    '{' !in part && '}' !in part && ':' !in part
  }

  /** Labels are plain or parameters, and no parameter name repeats. */
  predicate ValidLabels(labels: seq<string>, used: set<string>)
  {
    if labels == [] then true
    else if IsPlainLabel(labels[0]) then ValidLabels(labels[1..], used)
    else
      && IsHostParam(labels[0])
      && HostParamName(labels[0]) !in used
      && ValidLabels(labels[1..], used + {HostParamName(labels[0])})
  }

  predicate ValidHostPattern(pattern: string)
  {
    && !IsBlank(pattern)
    && '/' !in pattern && '?' !in pattern && '#' !in pattern
    && (forall i :: 0 <= i < |pattern| ==> !IsWhitespace(pattern[i]))
    && ValidLabels(SplitHost(pattern), {})
  }

  /** The host part of a Host header: without port, or what stands between brackets. */
  function NormalizeHostHeader(value: string): Option<string>
  {
    var trimmed := Trim(value);
    if trimmed == "" then None
    else if trimmed[0] == '[' then
      match SplitOnce(trimmed[1..], ']')
      case None => None
      case Some((inside, _)) => Some(inside)
    else
      var host := match SplitOnce(trimmed, ':') case None => trimmed case Some((before, _)) => before;
      if host == "" then None else Some(host)
  }

  function LowerChar(c: char): char
  {
    if 'A' <= c <= 'Z' then (c as int + 32) as char else c
  }

  function Lower(s: string): (r: string)
    ensures |r| == |s|
    ensures forall i :: 0 <= i < |s| ==> r[i] == LowerChar(s[i])
  {
    if s == "" then "" else [LowerChar(s[0])] + Lower(s[1..])
  }

  predicate EqIgnoreCase(a: string, b: string)
  {
    Lower(a) == Lower(b)
  }

  predicate LabelsMatch(pattern: seq<string>, labels: seq<string>)
  {
    && |pattern| == |labels|
    && forall i :: 0 <= i < |pattern| ==> IsHostParam(pattern[i]) || EqIgnoreCase(pattern[i], labels[i])
  }

  function RequestLabels(host: string): seq<string>
  {
    match NormalizeHostHeader(host)
    case None => SplitHost(host)
    case Some(h) => SplitHost(h)
  }

  predicate MatchesHostShape(pattern: string, host: string)
  {
    LabelsMatch(SplitHost(pattern), RequestLabels(host))
  }

  /** Whether a route restricted to `pattern` (if any) accepts the request's host (if known). */
  predicate MatchesHost(pattern: Option<string>, host: Option<string>)
  {
    pattern.Some? ==> host.Some? && MatchesHostShape(pattern.value, host.value)
  }

  // ----- What a host header is taken for

  predicate IsHostName(host: string)
  {
    host != "" && host[0] != '[' && ':' !in host && forall c :: c in host ==> !IsWhitespace(c)
  }

  /** A port is ignored, and so are the brackets of an address and what follows them. */
  lemma HostOfHeader(host: string, port: string, inside: string, after: string)
    requires IsHostName(host) && forall c :: c in port ==> !IsWhitespace(c)
    requires ']' !in inside && forall c :: c in inside || c in after ==> !IsWhitespace(c)
    ensures NormalizeHostHeader(host) == Some(host)
    ensures NormalizeHostHeader(host + ":" + port) == Some(host)
    ensures NormalizeHostHeader("[" + inside + "]" + after) == Some(inside)
  {
    TrimKeepsSolid(host);
    NoPort(host);
    var withPort := host + ":" + port;
    assert withPort == host + [':'] + port;
    TrimKeepsSolid(withPort);
    SplitOnceAtSeparator(host, ':', port);
    var bracketed := "[" + inside + "]" + after;
    TrimKeepsSolid(bracketed);
    assert bracketed[1..] == inside + [']'] + after;
    SplitOnceAtSeparator(inside, ']', after);
  }

  lemma {:induction false} NoPort(host: string)
    requires ':' !in host
    ensures SplitOnce(host, ':') == None
  {
    if host != "" {
      NoPort(host[1..]);
    }
  }

  /** ASCII letters are compared without regard to case, everything else as it is. */
  lemma CaseIsIgnored(c: char, d: char)
    ensures EqIgnoreCase([c], [d]) <==>
            || c == d
            || ('A' <= c <= 'Z' && d as int == c as int + 32)
            || ('A' <= d <= 'Z' && c as int == d as int + 32)
  {
    assert Lower([c]) == [LowerChar(c)] && Lower([d]) == [LowerChar(d)];
    assert [LowerChar(c)] == [LowerChar(d)] <==> LowerChar(c) == LowerChar(d);
  }

  lemma EqIgnoreCaseIff(a: string, b: string)
    ensures EqIgnoreCase(a, b) <==> |a| == |b| && forall i :: 0 <= i < |a| ==> EqIgnoreCase([a[i]], [b[i]])
  {
    forall i | 0 <= i < |a| && i < |b| ensures EqIgnoreCase([a[i]], [b[i]]) <==> LowerChar(a[i]) == LowerChar(b[i]) {
      CaseIsIgnored(a[i], b[i]);
      assert Lower([a[i]]) == [LowerChar(a[i])] && Lower([b[i]]) == [LowerChar(b[i])];
    }
    if Lower(a) == Lower(b) {
      forall i | 0 <= i < |a| ensures LowerChar(a[i]) == LowerChar(b[i]) {
        assert Lower(a)[i] == Lower(b)[i];
      }
    }
  }

  // ----- What a host pattern matches

  /** How the two kinds of parameter are written. */
  lemma WrittenHostParams(name: string)
    requires PlainName(name)
    ensures IsHostParam("{" + name + "}") && HostParamName("{" + name + "}") == name
    ensures IsHostParam(":" + name) && HostParamName(":" + name) == name
    ensures !IsHostParam(name) && IsPlainLabel(name)
  {
    var braced, coloned := "{" + name + "}", ":" + name;
    assert braced[1..|braced| - 1] == name && coloned[1..] == name;
    assert name[0] in name;
  }

  ghost predicate AreLabels(labels: seq<string>)
  {
    labels != [] && forall l :: l in labels ==> l != "" && '.' !in l
  }

  lemma {:induction false} NothingIsEmpty(labels: seq<string>)
    requires forall l :: l in labels ==> l != ""
    ensures NonEmpty(labels) == labels
  {
    if labels != [] {
      assert labels[0] in labels && forall l :: l in labels[1..] ==> l in labels;
      NothingIsEmpty(labels[1..]);
      assert labels == [labels[0]] + labels[1..];
    }
  }

  lemma JoinedLabelsSplit(labels: seq<string>)
    requires AreLabels(labels)
    ensures SplitHost(Join(labels, ".")) == labels
  {
    SplitUndoesJoin(labels, '.');
    NothingIsEmpty(labels);
  }

  /** As many labels, that agree, letter case aside, wherever the pattern has no parameter. */
  ghost predicate LabelsFit(pattern: seq<string>, labels: seq<string>)
  {
    && |labels| == |pattern|
    && forall i :: 0 <= i < |labels| && !IsHostParam(pattern[i]) ==> EqIgnoreCase(pattern[i], labels[i])
  }

  lemma FitIsMatch(pattern: seq<string>, labels: seq<string>)
    ensures LabelsFit(pattern, labels) <==> LabelsMatch(pattern, labels)
  {
  }

  /** A pattern accepts a host, with or without a port, exactly when the labels fit. */
  lemma HostMatchesIff(pattern: seq<string>, labels: seq<string>, port: string)
    requires AreLabels(pattern) && AreLabels(labels) && IsHostName(Join(labels, "."))
    requires forall c :: c in port ==> !IsWhitespace(c)
    ensures MatchesHost(Some(Join(pattern, ".")), Some(Join(labels, "."))) <==> LabelsFit(pattern, labels)
    ensures MatchesHost(Some(Join(pattern, ".")), Some(Join(labels, ".") + ":" + port)) <==> LabelsFit(pattern, labels)
  {
    hide RequestLabels, SplitHost, Join, IsHostName, AreLabels, LabelsFit, LabelsMatch;
    JoinedLabelsSplit(pattern);
    LabelsOfRequest(labels, port);
    FitIsMatch(pattern, labels);
  }

  lemma LabelsOfRequest(labels: seq<string>, port: string)
    requires AreLabels(labels) && IsHostName(Join(labels, "."))
    requires forall c :: c in port ==> !IsWhitespace(c)
    ensures RequestLabels(Join(labels, ".")) == labels
    ensures RequestLabels(Join(labels, ".") + ":" + port) == labels
  {
    JoinedLabelsSplit(labels);
    HostOfHeader(Join(labels, "."), port, "", "");
    hide NormalizeHostHeader, SplitHost, Join, IsHostName, AreLabels;
  }

  /** A route without a restriction accepts every host, one with it none that is unknown. */
  lemma HostNeeded(pattern: string, host: Option<string>)
    ensures MatchesHost(None, host) && !MatchesHost(Some(pattern), None)
  {
  }

  /** Labels are plain or parameters, and no parameter name occurs twice or in `used`. */
  ghost predicate WellFormedLabels(labels: seq<string>, used: set<string>)
  {
    && (forall i :: 0 <= i < |labels| ==> IsPlainLabel(labels[i]) || IsHostParam(labels[i]))
    && (forall i :: 0 <= i < |labels| && IsHostParam(labels[i]) ==> HostParamName(labels[i]) !in used)
    && (forall i, j :: 0 <= i < j < |labels| && IsHostParam(labels[i]) && IsHostParam(labels[j]) ==>
          HostParamName(labels[i]) != HostParamName(labels[j]))
  }

  lemma {:induction false} LabelsValidIff(labels: seq<string>, used: set<string>)
    ensures ValidLabels(labels, used) <==> WellFormedLabels(labels, used)
  {
    if labels != [] {
      var first, rest := labels[0], labels[1..];
      LabelsValidIff(rest, used);
      ParamIsNotPlain(first);
      if IsHostParam(first) {
        LabelsValidIff(rest, used + {HostParamName(first)});
      }
      hide IsHostParam, IsPlainLabel, HostParamName;
      assert forall i :: 0 <= i < |rest| ==> rest[i] == labels[i + 1];
      assert forall i :: 1 <= i < |labels| ==> labels[i] == rest[i - 1];
    }
  }

  lemma ParamIsNotPlain(part: string)
    ensures IsHostParam(part) ==> !IsPlainLabel(part)
  {
  }

  /** A host pattern is valid exactly when it is not blank, has no whitespace and none of the
      characters of a path, and its labels are well formed. */
  lemma HostPatternValidIff(pattern: string)
    ensures ValidHostPattern(pattern) <==>
            && !IsBlank(pattern) && '/' !in pattern && '?' !in pattern && '#' !in pattern
            && (forall c :: c in pattern ==> !IsWhitespace(c))
            && WellFormedLabels(SplitHost(pattern), {})
  {
    LabelsValidIff(SplitHost(pattern), {});
  }

  function LabelText(part: string): string
  {
    if IsHostParam(part) then "{}" else Lower(part)
  }

  function LabelTexts(labels: seq<string>): (texts: seq<string>)
    ensures |texts| == |labels|
    ensures forall i :: 0 <= i < |labels| ==> texts[i] == LabelText(labels[i])
  {
    if labels == [] then [] else [LabelText(labels[0])] + LabelTexts(labels[1..])
  }

  function HostKey(pattern: string): string
  {
    Join(LabelTexts(SplitHost(pattern)), ".")
  }

  function HostKeyOf(host: Option<string>): Option<string>
  {
    match host
    case None => None
    case Some(pattern) => Some(HostKey(pattern))
  }

  function LabelRanks(labels: seq<string>): (ranks: seq<nat>)
    ensures |ranks| == |labels|
    ensures forall i :: 0 <= i < |labels| ==> ranks[i] == if IsHostParam(labels[i]) then 0 else 1
  {
    if labels == [] then [] else [if IsHostParam(labels[0]) then 0 else 1] + LabelRanks(labels[1..])
  }

  function HostSpecificity(host: Option<string>): (ranks: seq<nat>)
    ensures forall i :: 0 <= i < |ranks| ==> ranks[i] <= 1
  {
    match host
    case None => [0]
    case Some(pattern) => LabelRanks(SplitHost(pattern))
  }

  /** Host restrictions that match the same hosts with equal specificity although their
      shape keys differ: no restriction, and a pattern that is a single parameter. */
  predicate HostsAmbiguous(a: Option<string>, b: Option<string>)
  {
    || (a.None? && b.Some? && IsSingleParam(b.value))
    || (b.None? && a.Some? && IsSingleParam(a.value))
  }

  predicate IsSingleParam(pattern: string)
  {
    |SplitHost(pattern)| == 1 && IsHostParam(SplitHost(pattern)[0])
  }

  /** Two host restrictions that accept the same host with equal specificity have equal
      shape keys, unless one is absent and the other is a single parameter. */
  lemma TiedHostsShareKey(a: Option<string>, b: Option<string>, host: Option<string>)
    requires MatchesHost(a, host) && MatchesHost(b, host)
    requires HostSpecificity(a) == HostSpecificity(b)
    ensures HostKeyOf(a) == HostKeyOf(b) || HostsAmbiguous(a, b)
  {
    if a.Some? && b.Some? {
      var p, q := SplitHost(a.value), SplitHost(b.value);
      var labels := RequestLabels(host.value);
      forall i | 0 <= i < |p| ensures LabelText(p[i]) == LabelText(q[i]) {
        assert LabelRanks(p)[i] == LabelRanks(q)[i];
      }
      assert LabelTexts(p) == LabelTexts(q);
    } else if a.None? && b.Some? {
      assert LabelRanks(SplitHost(b.value))[0] == 0;
    } else if a.Some? && b.None? {
      assert LabelRanks(SplitHost(a.value))[0] == 0;
    }
  }

  /** The exception is real: an unrestricted route and a single-parameter host tie on
      every host that has exactly one part. */
  lemma AmbiguousHostsTie(pattern: string, host: string)
    requires IsSingleParam(pattern) && |RequestLabels(host)| == 1
    ensures MatchesHost(None, Some(host)) && MatchesHost(Some(pattern), Some(host))
    ensures HostSpecificity(None) == HostSpecificity(Some(pattern))
    ensures HostKeyOf(None) != HostKeyOf(Some(pattern))
  {
  }

  lemma {:induction false} ValidLabelIsPlain(labels: seq<string>, used: set<string>, i: nat)
    requires ValidLabels(labels, used) && i < |labels|
    ensures IsHostParam(labels[i]) || IsPlainLabel(labels[i])
  {
    if i > 0 {
      if IsPlainLabel(labels[0]) {
        ValidLabelIsPlain(labels[1..], used, i - 1);
      } else {
        ValidLabelIsPlain(labels[1..], used + {HostParamName(labels[0])}, i - 1);
      }
    }
  }

  lemma SplitHostParts(pattern: string)
    ensures forall part :: part in SplitHost(pattern) ==> part != "" && '.' !in part
  {
    JoinUndoesSplit(pattern, '.');
  }

  lemma LabelTextsFromKey(pattern: string)
    ensures
      var texts := LabelTexts(SplitHost(pattern));
      if texts == [] then HostKey(pattern) == ""
      else HostKey(pattern) != "" && Split(HostKey(pattern), '.') == texts
  {
    var labels := SplitHost(pattern);
    var texts := LabelTexts(labels);
    SplitHostParts(pattern);
    if texts != [] {
      forall i | 0 <= i < |texts| ensures texts[i] != "" && '.' !in texts[i] {
        assert labels[i] in labels;
        LowerHasNoDot(labels[i]);
      }
      SplitUndoesJoin(texts, '.');
      assert |texts| == 1 ==> texts[0] != "";
    }
  }

  lemma LowerHasNoDot(s: string)
    requires '.' !in s
    ensures '.' !in Lower(s)
  {
    forall i | 0 <= i < |s| ensures Lower(s)[i] != '.' {
      assert s[i] in s;
    }
  }

  lemma LowerKeepsBrace(s: string)
    requires '{' !in s
    ensures '{' !in Lower(s)
  {
    forall i | 0 <= i < |s| ensures Lower(s)[i] != '{' {
      assert s[i] in s;
    }
  }

  /** Equal shape keys of valid patterns mean that exactly the same hosts match. */
  lemma SameHostKeyMatchesSameHosts(a: string, b: string, host: string)
    requires ValidHostPattern(a) && ValidHostPattern(b) && HostKey(a) == HostKey(b)
    ensures MatchesHostShape(a, host) == MatchesHostShape(b, host)
  {
    hide Split, NonEmpty, NormalizeHostHeader, IsHostParam, RequestLabels;
    LabelTextsFromKey(a);
    LabelTextsFromKey(b);
    var p, q, labels := SplitHost(a), SplitHost(b), RequestLabels(host);
    assert LabelTexts(p) == LabelTexts(q);
    assert |p| == |q|;
    forall i | 0 <= i < |p|
      ensures IsHostParam(p[i]) == IsHostParam(q[i])
      ensures !IsHostParam(p[i]) ==> Lower(p[i]) == Lower(q[i])
    {
      assert LabelText(p[i]) == LabelTexts(p)[i] == LabelText(q[i]);
      ValidLabelIsPlain(p, {}, i);
      ValidLabelIsPlain(q, {}, i);
      assert "{}"[0] == '{';
      if IsHostParam(p[i]) && !IsHostParam(q[i]) {
        LowerKeepsBrace(q[i]);
      }
      if !IsHostParam(p[i]) && IsHostParam(q[i]) {
        LowerKeepsBrace(p[i]);
      }
    }
  }
}
