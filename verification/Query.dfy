/** Percent-encoding and query strings, on bytes: validation against the grammar of
    section 2.1 of RFC 3986, and parsing as the inverse of the serializer of
    section 5.2 of the URL Standard. */
module Query {
  import opened Results
  import opened Text

  type byte = b: nat | b < 256
  type Bytes = seq<byte>

  const PERCENT: byte := 0x25
  const AMPERSAND: byte := 0x26
  const PLUS: byte := 0x2B
  const EQUALS: byte := 0x3D
  const QUESTION: byte := 0x3F
  const SPACE: byte := 0x20

  // ----- Percent-encoding

  predicate IsHexDigit(b: byte)
  {
    0x30 <= b <= 0x39 || 0x41 <= b <= 0x46 || 0x61 <= b <= 0x66
  }

  function HexValue(b: byte): (v: nat)
    requires IsHexDigit(b)
    ensures v < 16
  {
    if b <= 0x39 then b - 0x30 else if b <= 0x46 then b - 0x41 + 10 else b - 0x61 + 10
  }

  predicate ValidPercent(s: Bytes)
  {
    if s == [] then true
    else if s[0] != PERCENT then ValidPercent(s[1..])
    else |s| >= 3 && IsHexDigit(s[1]) && IsHexDigit(s[2]) && ValidPercent(s[3..])
  }

  method ValidatePercentEncoding(s: Bytes) returns (r: Result<()>)
    ensures r.Ok? <==> ValidPercent(s)
    ensures r.Err? ==> r.error.BadRequest?
  {
    var index := 0;
    assert s[0..] == s;
    while index < |s|
      invariant 0 <= index <= |s|
      invariant ValidPercent(s) == ValidPercent(s[index..])
    {
      if s[index] == PERCENT {
        if index + 2 >= |s| || !IsHexDigit(s[index + 1]) || !IsHexDigit(s[index + 2]) {
          return Err(BadRequest("invalid percent encoding"));
        }
        assert s[index..][3..] == s[index + 3..];
        index := index + 3;
      } else {
        assert s[index..][1..] == s[index + 1..];
        index := index + 1;
      }
    }
    return Ok(());
  }

  /** The grammar: a sequence of plain bytes and `%HH` triples. */
  datatype Unit = Plain(b: byte) | Triple(high: byte, low: byte)

  predicate WellFormedUnit(u: Unit)
  {
    match u
    case Plain(b) => b != PERCENT
    case Triple(high, low) => IsHexDigit(high) && IsHexDigit(low)
  }

  function Spell(units: seq<Unit>): Bytes
  {
    if units == [] then []
    else (match units[0] case Plain(b) => [b] case Triple(high, low) => [PERCENT, high, low]) + Spell(units[1..])
  }

  ghost predicate IsSpelling(s: Bytes, units: seq<Unit>)
  {
    Spell(units) == s && forall u :: u in units ==> WellFormedUnit(u)
  }

  lemma {:induction false} SpellingIsValid(units: seq<Unit>)
    requires forall u :: u in units ==> WellFormedUnit(u)
    ensures ValidPercent(Spell(units))
  {
    if units != [] {
      SpellingIsValid(units[1..]);
      var s := Spell(units);
      assert WellFormedUnit(units[0]);
      if units[0].Plain? {
        assert s[1..] == Spell(units[1..]);
      } else {
        assert s[3..] == Spell(units[1..]);
      }
    }
  }

  lemma {:induction false} ValidHasSpelling(s: Bytes) returns (units: seq<Unit>)
    requires ValidPercent(s)
    ensures IsSpelling(s, units)
  {
    if s == [] {
      units := [];
    } else if s[0] != PERCENT {
      var rest := ValidHasSpelling(s[1..]);
      units := [Plain(s[0])] + rest;
      assert s == [s[0]] + s[1..];
    } else {
      var rest := ValidHasSpelling(s[3..]);
      units := [Triple(s[1], s[2])] + rest;
      assert s == [PERCENT, s[1], s[2]] + s[3..];
    }
  }

  /** Validation accepts exactly the strings built from bytes other than `%` and `%HH`
      triples. */
  lemma ValidIffSpelled(s: Bytes)
    ensures ValidPercent(s) <==> exists units :: IsSpelling(s, units)
  {
    if ValidPercent(s) {
      var units := ValidHasSpelling(s);
    }
    forall units | IsSpelling(s, units) ensures ValidPercent(s) {
      SpellingIsValid(units);
    }
  }

  /** Replace every `%HH` by its byte; anything else stands for itself. */
  function PercentDecode(s: Bytes): Bytes
  {
    if s == [] then []
    else if s[0] == PERCENT && |s| >= 3 && IsHexDigit(s[1]) && IsHexDigit(s[2]) then
      [16 * HexValue(s[1]) + HexValue(s[2])] + PercentDecode(s[3..])
    else [s[0]] + PercentDecode(s[1..])
  }

  predicate IsContinuation(b: byte)
  {
    0x80 <= b <= 0xBF
  }

  /** Well-formed UTF-8. */
  predicate IsUtf8(s: Bytes)
  {
    if s == [] then true
    else if s[0] < 0x80 then IsUtf8(s[1..])
    else if 0xC2 <= s[0] <= 0xDF then |s| >= 2 && IsContinuation(s[1]) && IsUtf8(s[2..])
    else if 0xE0 <= s[0] <= 0xEF then
      && |s| >= 3 && IsContinuation(s[1]) && IsContinuation(s[2])
      && (s[0] == 0xE0 ==> s[1] >= 0xA0) && (s[0] == 0xED ==> s[1] <= 0x9F)
      && IsUtf8(s[3..])
    else
      && 0xF0 <= s[0] <= 0xF4
      && |s| >= 4 && IsContinuation(s[1]) && IsContinuation(s[2]) && IsContinuation(s[3])
      && (s[0] == 0xF0 ==> s[1] >= 0x90) && (s[0] == 0xF4 ==> s[1] <= 0x8F)
      && IsUtf8(s[4..])
  }

  // ----- UTF-8, as section 3 of RFC 3629 encodes characters

  predicate IsScalar(cp: nat)
  {
    cp < 0xD800 || 0xE000 <= cp < 0x11_0000
  }

  function EncodeScalar(cp: nat): Bytes
    requires IsScalar(cp)
  {
    if cp < 0x80 then [cp]
    else if cp < 0x800 then [0xC0 + cp / 64, 0x80 + cp % 64]
    else if cp < 0x1_0000 then [0xE0 + cp / 64 / 64, 0x80 + cp / 64 % 64, 0x80 + cp % 64]
    else [0xF0 + cp / 64 / 64 / 64, 0x80 + cp / 64 / 64 % 64, 0x80 + cp / 64 % 64, 0x80 + cp % 64]
  }

  ghost predicate AreScalars(cps: seq<nat>)
  {
    forall i :: 0 <= i < |cps| ==> IsScalar(cps[i])
  }

  ghost function EncodeScalars(cps: seq<nat>): Bytes
    requires AreScalars(cps)
  {
    if cps == [] then [] else EncodeScalar(cps[0]) + EncodeScalars(cps[1..])
  }

  lemma ScalarIsUtf8(cp: nat, rest: Bytes)
    requires IsScalar(cp)
    ensures IsUtf8(EncodeScalar(cp) + rest) <==> IsUtf8(rest)
  {
    var e := EncodeScalar(cp);
    var s := e + rest;
    assert s[|e|..] == rest;
    assert forall i :: 0 <= i < |e| ==> s[i] == e[i];
  }

  lemma {:induction false} ScalarsAreUtf8(cps: seq<nat>)
    requires AreScalars(cps)
    ensures IsUtf8(EncodeScalars(cps))
  {
    if cps != [] {
      ScalarsAreUtf8(cps[1..]);
      ScalarIsUtf8(cps[0], EncodeScalars(cps[1..]));
    }
  }

  /** The first character of a well-formed text, and the bytes after it. */
  lemma FirstScalar(s: Bytes) returns (cp: nat, rest: Bytes)
    requires s != [] && IsUtf8(s)
    ensures IsScalar(cp) && s == EncodeScalar(cp) + rest && IsUtf8(rest) && |rest| < |s|
  {
    var b0: int := s[0];
    if b0 < 0x80 {
      cp, rest := b0, s[1..];
      assert s == [s[0]] + rest;
    } else if b0 <= 0xDF {
      cp := SixMore(b0 - 0xC0, s[1]);
      rest := s[2..];
      assert s == [s[0], s[1]] + rest;
    } else if b0 <= 0xEF {
      var high := SixMore(b0 - 0xE0, s[1]);
      cp := SixMore(high, s[2]);
      rest := s[3..];
      assert s == [s[0], s[1], s[2]] + rest;
    } else {
      var top := SixMore(b0 - 0xF0, s[1]);
      var high := SixMore(top, s[2]);
      cp := SixMore(high, s[3]);
      rest := s[4..];
      assert s == [s[0], s[1], s[2], s[3]] + rest;
    }
  }

  /** A continuation byte adds six bits. */
  lemma SixMore(high: nat, b: byte) returns (cp: nat)
    requires IsContinuation(b)
    ensures cp / 64 == high && 0x80 + cp % 64 == b && cp == 64 * high + (b as int - 0x80)
  {
    cp := 64 * high + (b as int - 0x80);
  }

  ghost predicate Encodes(s: Bytes, cps: seq<nat>)
  {
    AreScalars(cps) && EncodeScalars(cps) == s
  }

  lemma {:induction false} Utf8HasScalars(s: Bytes) returns (cps: seq<nat>)
    requires IsUtf8(s)
    ensures Encodes(s, cps)
    decreases |s|
  {
    if s == [] {
      cps := [];
    } else {
      var cp, rest := FirstScalar(s);
      var more := Utf8HasScalars(rest);
      cps := [cp] + more;
      assert cps[1..] == more;
    }
  }

  /** Well-formed are exactly the encodings of sequences of Unicode scalar values. */
  lemma Utf8Iff(s: Bytes)
    ensures IsUtf8(s) <==> exists cps :: Encodes(s, cps)
  {
    if IsUtf8(s) {
      var cps := Utf8HasScalars(s);
    }
    forall cps | Encodes(s, cps) ensures IsUtf8(s) {
      ScalarsAreUtf8(cps);
    }
  }

  function DecodePercentEncoded(s: Bytes): Result<Bytes>
  {
    if !ValidPercent(s) then Err(BadRequest("invalid percent encoding"))
    else if !IsUtf8(PercentDecode(s)) then Err(BadRequest("invalid UTF-8"))
    else Ok(PercentDecode(s))
  }

  // ----- Query strings

  function PlusToSpace(s: Bytes): Bytes
  {
    if s == [] then [] else [if s[0] == PLUS then SPACE else s[0]] + PlusToSpace(s[1..])
  }

  function DecodeQueryPart(s: Bytes): Result<Bytes>
  {
    DecodePercentEncoded(PlusToSpace(s))
  }

  type Pair = (Bytes, Bytes)

  function DecodePair(pair: Bytes): Result<Pair>
  {
    var (name, value) := match SplitOnce(pair, EQUALS) case None => (pair, []) case Some(parts) => parts;
    match DecodeQueryPart(name)
    case Err(e) => Err(e)
    case Ok(n) =>
      match DecodeQueryPart(value)
      case Err(e) => Err(e)
      case Ok(v) => Ok((n, v))
  }

  /** Decode the non-empty pieces in order; the first error wins. */
  function DecodePairs(pieces: seq<Bytes>): Result<seq<Pair>>
  {
    if pieces == [] then Ok([])
    else if pieces[0] == [] then DecodePairs(pieces[1..])
    else
      match DecodePair(pieces[0])
      case Err(e) => Err(e)
      case Ok(pair) =>
        match DecodePairs(pieces[1..])
        case Err(e) => Err(e)
        case Ok(rest) => Ok([pair] + rest)
  }

  function ParseQueryPairs(query: Bytes): Result<seq<Pair>>
  {
    if query == [] then Ok([]) else DecodePairs(Split(query, AMPERSAND))
  }

  /** The later of two pairs with one name wins; a malformed query counts as empty. */
  function ToMap(pairs: seq<Pair>): map<Bytes, Bytes>
  {
    if pairs == [] then map[] else ToMap(pairs[..|pairs| - 1])[pairs[|pairs| - 1].0 := pairs[|pairs| - 1].1]
  }

  function ParseQuery(query: Bytes): map<Bytes, Bytes>
  {
    match ParseQueryPairs(query)
    case Err(_) => map[]
    case Ok(pairs) => ToMap(pairs)
  }

  function SplitPathQuery(value: Bytes): (Bytes, Option<Bytes>, map<Bytes, Bytes>)
  {
    match SplitOnce(value, QUESTION)
    case None => (value, None, map[])
    case Some((path, query)) => (path, Some(query), ParseQuery(query))
  }

  // ----- The standard's serializer

  predicate IsUnreserved(b: byte)
  {
    b == 0x2A || b == 0x2D || b == 0x2E || 0x30 <= b <= 0x39 || 0x41 <= b <= 0x5A || b == 0x5F || 0x61 <= b <= 0x7A
  }

  function HexDigit(v: nat): (b: byte)
    requires v < 16
    ensures IsHexDigit(b) && HexValue(b) == v
  {
    if v < 10 then 0x30 + v else 0x41 + v - 10
  }

  function EncodeByte(b: byte): Bytes
  {
    if b == SPACE then [PLUS]
    else if IsUnreserved(b) then [b]
    else [PERCENT, HexDigit(b / 16), HexDigit(b % 16)]
  }

  function EncodePart(s: Bytes): Bytes
  {
    if s == [] then [] else EncodeByte(s[0]) + EncodePart(s[1..])
  }

  function EncodePair(pair: Pair): Bytes
  {
    EncodePart(pair.0) + [EQUALS] + EncodePart(pair.1)
  }

  function EncodePairs(pairs: seq<Pair>): (r: seq<Bytes>)
    ensures |r| == |pairs|
    ensures forall i :: 0 <= i < |pairs| ==> r[i] == EncodePair(pairs[i])
  {
    if pairs == [] then [] else [EncodePair(pairs[0])] + EncodePairs(pairs[1..])
  }

  function Serialize(pairs: seq<Pair>): Bytes
  {
    Join(EncodePairs(pairs), [AMPERSAND])
  }

  // ----- Parsing undoes serializing

  lemma EncodedByte(b: byte, rest: Bytes)
    ensures
      var (text, tail) := (PlusToSpace(EncodeByte(b) + rest), PlusToSpace(rest));
      ValidPercent(text) == ValidPercent(tail) && PercentDecode(text) == [b] + PercentDecode(tail)
  {
    var e := EncodeByte(b) + rest;
    if b == SPACE || IsUnreserved(b) {
      assert e[1..] == rest;
      assert PlusToSpace(e) == [b] + PlusToSpace(rest);
      assert PlusToSpace(e)[1..] == PlusToSpace(rest);
    } else {
      TripleKept(HexDigit(b / 16), HexDigit(b % 16), rest);
      assert 16 * (b / 16) + b % 16 == b;
    }
  }

  lemma {:induction false} EncodedPart(s: Bytes)
    ensures AMPERSAND !in EncodePart(s) && EQUALS !in EncodePart(s)
    ensures ValidPercent(PlusToSpace(EncodePart(s)))
    ensures PercentDecode(PlusToSpace(EncodePart(s))) == s
  {
    if s != [] {
      EncodedPart(s[1..]);
      EncodedByte(s[0], EncodePart(s[1..]));
      hide ValidPercent, PercentDecode, PlusToSpace;
      assert s == [s[0]] + s[1..];
    }
  }

  lemma TripleKept(high: byte, low: byte, rest: Bytes)
    requires IsHexDigit(high) && IsHexDigit(low)
    ensures PlusToSpace([PERCENT, high, low] + rest) == [PERCENT, high, low] + PlusToSpace(rest)
    ensures ([PERCENT, high, low] + PlusToSpace(rest))[3..] == PlusToSpace(rest)
  {
    var tail := [low] + rest;
    assert tail[1..] == rest;
    assert PlusToSpace(tail) == [low] + PlusToSpace(rest);
    assert ([high] + tail)[1..] == tail;
    assert PlusToSpace([high] + tail) == [high] + PlusToSpace(tail);
    assert [PERCENT, high, low] + rest == [PERCENT] + ([high] + tail);
    assert ([PERCENT] + ([high] + tail))[1..] == [high] + tail;
  }

  lemma EncodedPairDecodes(pair: Pair)
    requires IsUtf8(pair.0) && IsUtf8(pair.1)
    ensures DecodePair(EncodePair(pair)) == Ok(pair)
    ensures EncodePair(pair) != [] && AMPERSAND !in EncodePair(pair)
  {
    EncodedPart(pair.0);
    EncodedPart(pair.1);
    SplitOnceAtSeparator(EncodePart(pair.0), EQUALS, EncodePart(pair.1));
  }

  lemma {:induction false} EncodedPairsDecode(pairs: seq<Pair>)
    requires forall p :: p in pairs ==> IsUtf8(p.0) && IsUtf8(p.1)
    ensures DecodePairs(EncodePairs(pairs)) == Ok(pairs)
  {
    hide EncodePair, DecodePair, DecodePairs, IsUtf8;
    NothingDecodes();
    if pairs != [] {
      EncodedPairDecodes(pairs[0]);
      EncodedPairsDecode(pairs[1..]);
      FirstPairDecodes(EncodePair(pairs[0]), EncodePairs(pairs[1..]), pairs[0], pairs[1..]);
      assert pairs == [pairs[0]] + pairs[1..];
    }
  }

  lemma NothingDecodes()
    ensures DecodePairs([]) == Ok([])
  {
  }

  lemma FirstPairDecodes(piece: Bytes, pieces: seq<Bytes>, pair: Pair, pairs: seq<Pair>)
    requires piece != [] && DecodePair(piece) == Ok(pair) && DecodePairs(pieces) == Ok(pairs)
    ensures DecodePairs([piece] + pieces) == Ok([pair] + pairs)
  {
    hide DecodePair;
    assert ([piece] + pieces)[1..] == pieces;
  }

  /** For every list of names and values (valid UTF-8, as all Rust strings are), parsing
      the form-urlencoded text gives back the list, in order. */
  lemma ParseUndoesSerialize(pairs: seq<Pair>)
    requires forall p :: p in pairs ==> IsUtf8(p.0) && IsUtf8(p.1)
    ensures ParseQueryPairs(Serialize(pairs)) == Ok(pairs)
    ensures ParseQuery(Serialize(pairs)) == ToMap(pairs)
  {
    if pairs != [] {
      var pieces := EncodePairs(pairs);
      forall i | 0 <= i < |pieces| ensures AMPERSAND !in pieces[i] && pieces[i] != [] {
        assert pairs[i] in pairs;
        EncodedPairDecodes(pairs[i]);
      }
      SplitUndoesJoin(pieces, AMPERSAND);
      EncodedPairsDecode(pairs);
      assert |Join(pieces, [AMPERSAND])| >= |pieces[0]|;
    }
  }

  /** A query is refused exactly when the name or the value of some non-empty piece is not
      validly percent-encoded or not valid UTF-8 once decoded. */
  lemma RefusedIff(query: Bytes)
    ensures ParseQueryPairs(query).Err? <==> SomeMalformed(Split(query, AMPERSAND))
  {
    hide SomeMalformed, DecodePairs;
    PiecesRefusedIff(Split(query, AMPERSAND));
    if query == [] {
      EmptyPieceIsFine();
    }
  }

  ghost predicate SomeMalformed(pieces: seq<Bytes>)
  {
    exists i :: 0 <= i < |pieces| && Malformed(pieces[i])
  }

  lemma EmptyPieceIsFine()
    ensures Split<byte>([], AMPERSAND) == [[]] && !SomeMalformed([[]])
  {
  }

  predicate Malformed(piece: Bytes)
  {
    var (name, value) := match SplitOnce(piece, EQUALS) case None => (piece, []) case Some(parts) => parts;
    piece != [] && !(WellEncoded(PlusToSpace(name)) && WellEncoded(PlusToSpace(value)))
  }

  predicate WellEncoded(part: Bytes)
  {
    ValidPercent(part) && IsUtf8(PercentDecode(part))
  }

  lemma {:induction false} PiecesRefusedIff(pieces: seq<Bytes>)
    ensures DecodePairs(pieces).Err? <==> SomeMalformed(pieces)
  {
    if pieces == [] {
      assert !SomeMalformed(pieces);
    } else {
      PiecesRefusedIff(pieces[1..]);
      MalformedIff(pieces[0]);
      OneOrRest(pieces);
      hide DecodePair, Malformed, SomeMalformed;
    }
  }

  lemma OneOrRest(pieces: seq<Bytes>)
    requires pieces != []
    ensures SomeMalformed(pieces) <==> Malformed(pieces[0]) || SomeMalformed(pieces[1..])
  {
    if i :| 0 <= i < |pieces| && Malformed(pieces[i]) {
      assert i > 0 ==> pieces[1..][i - 1] == pieces[i];
    }
    if i :| 0 <= i < |pieces[1..]| && Malformed(pieces[1..][i]) {
      assert pieces[i + 1] == pieces[1..][i];
    }
  }

  lemma MalformedIff(piece: Bytes)
    ensures Malformed(piece) <==> piece != [] && DecodePair(piece).Err?
  {
  }

  /** A path without `?` and a serialized query are told apart again. */
  lemma SplitRecoversQuery(path: Bytes, pairs: seq<Pair>)
    requires QUESTION !in path && forall p :: p in pairs ==> IsUtf8(p.0) && IsUtf8(p.1)
    ensures SplitPathQuery(path + [QUESTION] + Serialize(pairs)) == (path, Some(Serialize(pairs)), ToMap(pairs))
  {
    SplitOnceAtSeparator(path, QUESTION, Serialize(pairs));
    ParseUndoesSerialize(pairs);
  }

  /** A piece without an equals sign is a name with an empty value. */
  lemma PieceWithoutValue(piece: Bytes)
    requires EQUALS !in piece
    ensures
      match DecodeQueryPart(piece)
      case Ok(name) => DecodePair(piece) == Ok((name, []))
      case Err(e) => DecodePair(piece) == Err(e)
  {
    NotSplit(piece, EQUALS);
    assert DecodeQueryPart([]) == Ok([]);
  }

  lemma {:induction false} NotSplit(s: Bytes, sep: byte)
    requires sep !in s
    ensures SplitOnce(s, sep) == None
  {
    if s != [] {
      NotSplit(s[1..], sep);
    }
  }

  /** Only the first equals sign of a piece separates. */
  lemma FirstEqualsSeparates(name: Bytes, value: Bytes)
    requires EQUALS !in name
    ensures
      match (DecodeQueryPart(name), DecodeQueryPart(value))
      case (Ok(n), Ok(v)) => DecodePair(name + [EQUALS] + value) == Ok((n, v))
      case _ => DecodePair(name + [EQUALS] + value).Err?
  {
    SplitOnceAtSeparator(name, EQUALS, value);
  }

  /** A malformed query counts as one without pairs; behind a path its text is kept. */
  lemma MalformedQueryIsEmpty(path: Bytes, query: Bytes)
    requires QUESTION !in path && ParseQueryPairs(query).Err?
    ensures ParseQuery(query) == map[]
    ensures SplitPathQuery(path + [QUESTION] + query) == (path, Some(query), map[])
  {
    SplitOnceAtSeparator(path, QUESTION, query);
  }

  /** Empty pieces are skipped, wherever they stand. */
  lemma {:induction false} EmptyPieceIsSkipped(front: seq<Bytes>, back: seq<Bytes>)
    ensures DecodePairs(front + [[]] + back) == DecodePairs(front + back)
  {
    hide DecodePair;
    if front == [] {
      assert ([] + [[]] + back)[1..] == back && [] + back == back;
    } else {
      EmptyPieceIsSkipped(front[1..], back);
      assert (front + [[]] + back)[1..] == front[1..] + [[]] + back;
      assert (front + back)[1..] == front[1..] + back;
    }
  }

  /** A value without a question mark is a path, with no query. */
  lemma PathWithoutQuery(value: Bytes)
    requires QUESTION !in value
    ensures SplitPathQuery(value) == (value, None, map[])
  {
    NotSplit(value, QUESTION);
  }

  /** A percent triple is the byte that its two digits name, in upper and lower case alike. */
  lemma TripleIsByte(high: nat, low: nat, rest: Bytes)
    requires high < 16 && low < 16
    ensures forall h: byte, l: byte :: h in DigitsOf(high) && l in DigitsOf(low) ==>
              PercentDecode([PERCENT, h, l] + rest) == [16 * high + low] + PercentDecode(rest)
  {
    forall h: byte, l: byte | h in DigitsOf(high) && l in DigitsOf(low)
      ensures PercentDecode([PERCENT, h, l] + rest) == [16 * high + low] + PercentDecode(rest)
    {
      DigitValue(high, h);
      DigitValue(low, l);
      hide DigitsOf, HexValue, IsHexDigit;
      assert ([PERCENT, h, l] + rest)[3..] == rest;
    }
  }

  lemma DigitValue(v: nat, b: byte)
    requires v < 16 && b in DigitsOf(v)
    ensures IsHexDigit(b) && HexValue(b) == v
  {
  }

  /** The bytes that stand for a hexadecimal digit: `0` to `9`, or `A` to `F` and `a` to `f`. */
  function DigitsOf(v: nat): set<byte>
    requires v < 16
  {
    if v < 10 then {0x30 + v} else {0x41 + (v - 10), 0x61 + (v - 10)}
  }

  /** Bytes other than the percent sign stand for themselves, and a plus for a space. */
  lemma PlainBytesDecode(s: Bytes)
    requires PERCENT !in s
    ensures PercentDecode(s) == s && ValidPercent(s)
    ensures |PlusToSpace(s)| == |s|
    ensures forall i :: 0 <= i < |s| ==> PlusToSpace(s)[i] == if s[i] == PLUS then SPACE else s[i]
  {
  }

  /** A parsed query maps each name to the value of its last occurrence. */
  lemma {:induction false} LastValueWins(pairs: seq<Pair>, i: nat)
    requires i < |pairs| && forall j :: i < j < |pairs| ==> pairs[j].0 != pairs[i].0
    ensures pairs[i].0 in ToMap(pairs) && ToMap(pairs)[pairs[i].0] == pairs[i].1
  {
    if i < |pairs| - 1 {
      var front := pairs[..|pairs| - 1];
      assert front[i] == pairs[i];
      LastValueWins(front, i);
    }
  }
}
