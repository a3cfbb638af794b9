/** API versions of routes: which requested versions a route serves, and when two
    routes could both serve one. */
module Versioning {
  import opened Results

  type Version = string

  datatype RouteVersioning = Unspecified | Versions(versions: seq<Version>) | Neutral

  /** Each version stands where it first occurs in the list; the places go up. */
  ghost predicate FirstPlaces(normalized: seq<Version>, versions: seq<Version>, places: seq<nat>)
  {
    && |places| == |versions|
    && (forall j :: 0 <= j < |places| ==> places[j] < |normalized|)
    && (forall j, k :: 0 <= j < k < |places| ==> places[j] < places[k])
    && (forall j :: 0 <= j < |places| ==>
          normalized[places[j]] == versions[j] && versions[j] !in normalized[..places[j]])
  }

  /** Keep the first occurrence of every non-empty (already normalised) version. */
  method BuildVersions(normalized: seq<Version>) returns (r: RouteVersioning)
    ensures r.Versions?
    ensures forall i, j :: 0 <= i < j < |r.versions| ==> r.versions[i] != r.versions[j]
    ensures forall v :: v in r.versions <==> v in normalized && v != ""
    ensures exists places :: FirstPlaces(normalized, r.versions, places)
  {
    var values: seq<Version> := [];
    ghost var places: seq<nat> := [];
    for i := 0 to |normalized|
      invariant forall j, k :: 0 <= j < k < |values| ==> values[j] != values[k]
      invariant forall v :: v in values <==> v in normalized[..i] && v != ""
      invariant FirstPlaces(normalized, values, places) && forall j :: 0 <= j < |places| ==> places[j] < i
    {
      var version := normalized[i];
      if version != "" && version !in values {
        values := values + [version];
        places := places + [i];
      }
    }
    r := Versions(values);
  }

  predicate Matches(v: RouteVersioning, requested: Option<Version>, default: Option<Version>)
  {
    match v
    case Neutral => true
    case Unspecified => requested.None? || requested == default
    case Versions(versions) =>
      var wanted := if requested.Some? then requested else default;
      wanted.Some? && wanted.value in versions
  }

  /** What each kind of route serves: a neutral one every request; an unspecified one those
      without a version and those for the default version; one with a list those for a listed
      version, and those without a version when the default is listed. */
  lemma ServesWhat(versions: seq<Version>, v: Version, d: Version)
    ensures Matches(Neutral, None, None) && Matches(Neutral, Some(v), Some(d))
    ensures Matches(Unspecified, None, Some(d)) && Matches(Unspecified, None, None)
    ensures Matches(Unspecified, Some(v), Some(d)) <==> v == d
    ensures !Matches(Unspecified, Some(v), None)
    ensures Matches(Versions(versions), Some(v), Some(d)) <==> v in versions
    ensures Matches(Versions(versions), Some(v), None) <==> v in versions
    ensures Matches(Versions(versions), None, Some(d)) <==> d in versions
    ensures !Matches(Versions(versions), None, None)
  {
  }

  predicate Overlaps(a: RouteVersioning, b: RouteVersioning, default: Option<Version>)
  {
    match (a, b)
    case (Neutral, _) => true
    case (_, Neutral) => true
    case (Unspecified, Unspecified) => true
    case (Unspecified, Versions(versions)) => default.Some? && default.value in versions
    case (Versions(versions), Unspecified) => default.Some? && default.value in versions
    case (Versions(left), Versions(right)) => exists i :: 0 <= i < |left| && left[i] in right
  }

  lemma OverlapIsSymmetric(a: RouteVersioning, b: RouteVersioning, default: Option<Version>)
    ensures Overlaps(a, b, default) == Overlaps(b, a, default)
  {
    if a.Versions? && b.Versions? {
      if i :| 0 <= i < |a.versions| && a.versions[i] in b.versions {
        var j :| 0 <= j < |b.versions| && b.versions[j] == a.versions[i];
        assert b.versions[j] in a.versions;
      }
      if i :| 0 <= i < |b.versions| && b.versions[i] in a.versions {
        var j :| 0 <= j < |a.versions| && a.versions[j] == b.versions[i];
        assert a.versions[j] in b.versions;
      }
    }
  }

  /** A version-neutral route against a route with an empty version list, which serves nothing. */
  predicate NeutralAgainstNothing(a: RouteVersioning, b: RouteVersioning)
  {
    (a.Neutral? && b == Versions([])) || (b.Neutral? && a == Versions([]))
  }

  ghost predicate ServeCommonVersion(a: RouteVersioning, b: RouteVersioning, default: Option<Version>)
  {
    exists requested :: Matches(a, requested, default) && Matches(b, requested, default)
  }

  /** `Overlaps` holds exactly when some requested version, possibly none, is served by
      both routes; the one exception is a neutral route against an empty list. */
  lemma OverlapsIffCommonVersion(a: RouteVersioning, b: RouteVersioning, default: Option<Version>)
    ensures Overlaps(a, b, default) <==> ServeCommonVersion(a, b, default) || NeutralAgainstNothing(a, b)
    ensures NeutralAgainstNothing(a, b) ==> !ServeCommonVersion(a, b, default)
  {
    if Overlaps(a, b, default) && !NeutralAgainstNothing(a, b) {
      var requested := CommonVersion(a, b, default);
      assert Matches(a, requested, default) && Matches(b, requested, default);
    }
  }

  /** A version that two overlapping routes both serve. */
  ghost function CommonVersion(a: RouteVersioning, b: RouteVersioning, default: Option<Version>): (r: Option<Version>)
    requires Overlaps(a, b, default) && !NeutralAgainstNothing(a, b)
    ensures Matches(a, r, default) && Matches(b, r, default)
  {
    match (a, b)
    case (Versions(left), Versions(right)) =>
      var i :| 0 <= i < |left| && left[i] in right;
      Some(left[i])
    case (Neutral, Versions(versions)) => Some(versions[0])
    case (Versions(versions), Neutral) => Some(versions[0])
    case _ => None
  }
}
