/** Splitting, joining and trimming of character and byte sequences, with the
    inverse laws that the codecs and the route tables rest on. */
module Text {
  import opened Results

  /** The pieces of `s` between occurrences of `sep`; never empty. */
  function Split<T(==)>(s: seq<T>, sep: T): (parts: seq<seq<T>>)
    ensures |parts| >= 1
  {
    if s == [] then [[]]
    else
      var rest := Split(s[1..], sep);
      if s[0] == sep then [[]] + rest else [[s[0]] + rest[0]] + rest[1..]
  }

  function Join<T>(parts: seq<seq<T>>, sep: seq<T>): seq<T>
  {
    if |parts| == 0 then []
    else if |parts| == 1 then parts[0]
    else parts[0] + sep + Join(parts[1..], sep)
  }

  /** The parts that are not empty, in order. */
  function NonEmpty(labels: seq<string>): (r: seq<string>)
    ensures forall l :: l in r ==> l != "" && l in labels
  {
    if labels == [] then []
    else if labels[0] == "" then NonEmpty(labels[1..])
    else [labels[0]] + NonEmpty(labels[1..])
  }

  /** The parts before and after the first `sep`, when there is one. */
  function SplitOnce<T(==)>(s: seq<T>, sep: T): Option<(seq<T>, seq<T>)>
  {
    if s == [] then None
    else if s[0] == sep then Some(([], s[1..]))
    else
      match SplitOnce(s[1..], sep)
      case None => None
      case Some((left, right)) => Some(([s[0]] + left, right))
  }

  lemma {:induction false} SplitAtSeparator<T>(x: seq<T>, sep: T, rest: seq<T>)
    requires sep !in x
    ensures Split(x + [sep] + rest, sep) == [x] + Split(rest, sep)
  {
    if x == [] {
      assert ([] + [sep] + rest)[1..] == rest;
    } else {
      SplitAtSeparator(x[1..], sep, rest);
      assert (x + [sep] + rest)[1..] == x[1..] + [sep] + rest;
      assert [x[0]] + x[1..] == x;
    }
  }

  lemma {:induction false} SplitWithoutSeparator<T>(x: seq<T>, sep: T)
    requires sep !in x
    ensures Split(x, sep) == [x]
  {
    if x != [] {
      SplitWithoutSeparator(x[1..], sep);
      assert [x[0]] + x[1..] == x;
    }
  }

  /** Splitting undoes joining when no part holds the separator. */
  lemma {:induction false} SplitUndoesJoin<T>(parts: seq<seq<T>>, sep: T)
    requires |parts| >= 1
    requires forall part :: part in parts ==> sep !in part
    ensures Split(Join(parts, [sep]), sep) == parts
  {
    if |parts| == 1 {
      SplitWithoutSeparator(parts[0], sep);
    } else {
      SplitUndoesJoin(parts[1..], sep);
      SplitAtSeparator(parts[0], sep, Join(parts[1..], [sep]));
    }
  }

  /** Joining undoes splitting, and no part of a split holds the separator. */
  lemma {:induction false} JoinUndoesSplit<T>(s: seq<T>, sep: T)
    ensures Join(Split(s, sep), [sep]) == s
    ensures forall part :: part in Split(s, sep) ==> sep !in part
  {
    if s != [] {
      var rest := Split(s[1..], sep);
      JoinUndoesSplit(s[1..], sep);
      if s[0] == sep {
        assert Join([[]] + rest, [sep]) == [] + [sep] + Join(rest, [sep]) by {
          assert ([[]] + rest)[1..] == rest;
        }
      } else {
        var parts := [[s[0]] + rest[0]] + rest[1..];
        assert parts[1..] == rest[1..];
        assert Join(parts, [sep]) == [s[0]] + Join(rest, [sep]);
      }
    }
  }

  lemma {:induction false} JoinConcat<T>(a: seq<seq<T>>, b: seq<seq<T>>, sep: seq<T>)
    requires a != [] && b != []
    ensures Join(a + b, sep) == Join(a, sep) + sep + Join(b, sep)
  {
    if |a| == 1 {
      assert (a + b)[1..] == b;
    } else {
      JoinConcat(a[1..], b, sep);
      assert (a + b)[1..] == a[1..] + b;
    }
  }

  /** Splitting at a separator splits both sides. */
  lemma SplitConcat<T>(x: seq<T>, sep: T, y: seq<T>)
    ensures Split(x + [sep] + y, sep) == Split(x, sep) + Split(y, sep)
  {
    hide Split, Join;
    var left, right := Split(x, sep), Split(y, sep);
    JoinUndoesSplit(x, sep);
    JoinUndoesSplit(y, sep);
    JoinConcat(left, right, [sep]);
    SplitUndoesJoin(left + right, sep);
  }

  /** The characters of a piece come from what was split. */
  lemma {:induction false} SplitPartsFrom(s: string, sep: char, part: string)
    requires part in Split(s, sep)
    ensures forall c :: c in part ==> c in s
  {
    if s != "" {
      var rest := Split(s[1..], sep);
      if s[0] == sep {
        if part in rest {
          SplitPartsFrom(s[1..], sep, part);
        }
      } else if part in rest[1..] {
        SplitPartsFrom(s[1..], sep, part);
      } else {
        assert part == [s[0]] + rest[0];
        SplitPartsFrom(s[1..], sep, rest[0]);
      }
    }
  }

  lemma {:induction false} SplitOnceAtSeparator<T>(x: seq<T>, sep: T, rest: seq<T>)
    requires sep !in x
    ensures SplitOnce(x + [sep] + rest, sep) == Some((x, rest))
  {
    if x == [] {
      assert ([] + [sep] + rest)[1..] == rest;
    } else {
      SplitOnceAtSeparator(x[1..], sep, rest);
      assert (x + [sep] + rest)[1..] == x[1..] + [sep] + rest;
      assert [x[0]] + x[1..] == x;
    }
  }

  /** The characters with Unicode's White_Space property. */
  predicate IsWhitespace(c: char)
  {
    || '\U{0009}' <= c <= '\U{000D}' || c == '\U{0020}' || c == '\U{0085}' || c == '\U{00A0}'
    || c == '\U{1680}' || '\U{2000}' <= c <= '\U{200A}' || c == '\U{2028}' || c == '\U{2029}'
    || c == '\U{202F}' || c == '\U{205F}' || c == '\U{3000}'
  }

  function TrimStart(s: string): string
  {
    if s != [] && IsWhitespace(s[0]) then TrimStart(s[1..]) else s
  }

  function TrimEnd(s: string): string
  {
    if s != [] && IsWhitespace(s[|s| - 1]) then TrimEnd(s[..|s| - 1]) else s
  }

  function Trim(s: string): string
  {
    TrimEnd(TrimStart(s))
  }

  predicate IsBlank(s: string)
  {
    Trim(s) == ""
  }

  lemma TrimKeepsSolid(s: string)
    requires forall c :: c in s ==> !IsWhitespace(c)
    ensures Trim(s) == s
  {
  }

  predicate AllWhitespace(s: string)
  {
    forall c :: c in s ==> IsWhitespace(c)
  }

  /** Trimming takes all whitespace off both ends, and nothing else. */
  lemma TrimTakesEnds(before: string, s: string, after: string)
    requires AllWhitespace(before) && AllWhitespace(after)
    requires s != "" ==> !IsWhitespace(s[0]) && !IsWhitespace(s[|s| - 1])
    ensures Trim(before + s + after) == s
  {
    TrimStartTakes(before, s + after);
    assert before + s + after == before + (s + after);
    if s == "" {
      TrimStartTakes(after, "");
      assert s + after == after + "";
    } else {
      TrimEndTakes(s, after);
    }
  }

  lemma {:induction false} TrimStartTakes(before: string, s: string)
    requires AllWhitespace(before)
    ensures TrimStart(before + s) == TrimStart(s)
  {
    if before == "" {
      assert before + s == s;
    } else {
      TrimStartTakes(before[1..], s);
      assert (before + s)[1..] == before[1..] + s && before[0] in before;
    }
  }

  lemma {:induction false} TrimEndTakes(s: string, after: string)
    requires AllWhitespace(after) && s != "" && !IsWhitespace(s[|s| - 1])
    ensures TrimEnd(s + after) == s
    decreases |after|
  {
    if after == "" {
      assert s + after == s;
    } else {
      var front, last := after[..|after| - 1], after[|after| - 1];
      TrimEndTakes(s, front);
      assert (s + after)[..|s + after| - 1] == s + front && last in after;
    }
  }

  lemma TrimmedEnds(s: string)
    ensures Trim(s) != "" ==> !IsWhitespace(Trim(s)[0]) && !IsWhitespace(Trim(s)[|Trim(s)| - 1])
  {
    StartIsSolid(s);
    EndIsSolid(TrimStart(s));
  }

  lemma {:induction false} StartIsSolid(s: string)
    ensures TrimStart(s) != "" ==> !IsWhitespace(TrimStart(s)[0])
  {
    if s != "" && IsWhitespace(s[0]) {
      StartIsSolid(s[1..]);
    }
  }

  lemma {:induction false} EndIsSolid(s: string)
    ensures TrimEnd(s) <= s
    ensures TrimEnd(s) != "" ==> !IsWhitespace(TrimEnd(s)[|TrimEnd(s)| - 1])
  {
    if s != "" && IsWhitespace(s[|s| - 1]) {
      EndIsSolid(s[..|s| - 1]);
    }
  }

  /** Trimming again changes nothing. */
  lemma TrimTwice(s: string)
    ensures Trim(Trim(s)) == Trim(s)
  {
    TrimmedEnds(s);
  }

  // ----- Decimal numerals

  function Digit(d: nat): char
    requires d < 10
  {
    ('0' as int + d) as char
  }

  function ToDecimal(n: nat): (s: string)
    ensures s != ""
  {
    if n < 10 then [Digit(n)] else ToDecimal(n / 10) + [Digit(n % 10)]
  }

  predicate AllDigits(s: string)
  {
    s != "" && forall i :: 0 <= i < |s| ==> '0' <= s[i] <= '9'
  }

  function ParseDecimal(s: string): nat
    requires forall i :: 0 <= i < |s| ==> '0' <= s[i] <= '9'
  {
    if s == "" then 0 else 10 * ParseDecimal(s[..|s| - 1]) + (s[|s| - 1] as int - '0' as int)
  }

  lemma {:induction false} DecimalRoundTrip(n: nat)
    ensures AllDigits(ToDecimal(n)) && ParseDecimal(ToDecimal(n)) == n
  {
    if n >= 10 {
      DecimalRoundTrip(n / 10);
      var s := ToDecimal(n);
      assert s[..|s| - 1] == ToDecimal(n / 10);
    } else {
      assert ToDecimal(n)[..0] == "";
    }
  }
}
