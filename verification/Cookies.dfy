/** Cookies: validating and printing Set-Cookie headers, and parsing Cookie headers. */
module Cookies {
  import opened Results
  import opened Text

  datatype SameSite = Strict | Lax | NoRestriction

  function SameSiteText(s: SameSite): string
  {
    match s
    case Strict => "Strict"
    case Lax => "Lax"
    case NoRestriction => "None"
  }

  datatype CookieOptions = CookieOptions(
    path: Option<string>, domain: Option<string>, maxAge: Option<nat>,
    httpOnly: bool, secure: bool, sameSite: Option<SameSite>)

  predicate IsNameChar(c: char)
  {
    || c in "!#$%&'*+-.^_`|~"
    || '0' <= c <= '9' || 'a' <= c <= 'z' || 'A' <= c <= 'Z'
  }

  predicate IsValueChar(c: char)
  {
    || c == '\U{21}' || '\U{23}' <= c <= '\U{2B}' || '\U{2D}' <= c <= '\U{3A}'
    || '\U{3C}' <= c <= '\U{5B}' || '\U{5D}' <= c <= '\U{7E}'
  }

  predicate ValidName(name: string)
  {
    name != "" && forall i :: 0 <= i < |name| ==> IsNameChar(name[i])
  }

  predicate ValidValue(value: string)
  {
    forall i :: 0 <= i < |value| ==> IsValueChar(value[i])
  }

  predicate ValidAttribute(value: string)
  {
    value != "" && forall i :: 0 <= i < |value| ==> ' ' <= value[i] <= '~' && value[i] != ';'
  }

  function Part(title: string, value: Option<string>): seq<string>
  {
    if value.Some? then [title + value.value] else []
  }

  function Flag(title: string, enabled: bool): seq<string>
  {
    if enabled then [title] else []
  }

  /** The pair, then one part per enabled attribute in the order in which they are printed. */
  function HeaderParts(name: string, value: string, o: CookieOptions, maxAge: Option<nat>): seq<string>
  {
    [name + "=" + value] + Part(" Path=", o.path) + Part(" Domain=", o.domain) + Part(" Max-Age=", AgeText(maxAge))
    + Flag(" HttpOnly", o.httpOnly) + Flag(" Secure", o.secure) + Part(" SameSite=", SameSiteOption(o))
  }

  function AgeText(maxAge: Option<nat>): Option<string>
  {
    if maxAge.Some? then Some(ToDecimal(maxAge.value)) else None
  }

  function SameSiteOption(o: CookieOptions): Option<string>
  {
    if o.sameSite.Some? then Some(SameSiteText(o.sameSite.value)) else None
  }

  predicate ValidOptions(o: CookieOptions)
  {
    && (o.path.Some? ==> ValidAttribute(o.path.value))
    && (o.domain.Some? ==> ValidAttribute(o.domain.value))
  }

  /** A header line is its parts joined by semicolons. */
  function HeaderOf(name: string, value: string, o: CookieOptions, maxAge: Option<nat>): string
  {
    Join(HeaderParts(name, value, o, maxAge), ";")
  }

  lemma {:induction false} JoinAppend(parts: seq<string>, part: string)
    requires parts != []
    ensures Join(parts + [part], ";") == Join(parts, ";") + ";" + part
  {
    if |parts| == 1 {
      assert (parts + [part])[1..] == [part];
    } else {
      assert (parts + [part])[1..] == parts[1..] + [part];
      JoinAppend(parts[1..], part);
    }
  }

  method PushParts(cookie: string, ghost parts: seq<string>, more: seq<string>) returns (r: string)
    requires parts != [] && cookie == Join(parts, ";") && |more| <= 1
    ensures r == Join(parts + more, ";")
  {
    r := cookie;
    assert more == [] ==> parts + more == parts;
    if |more| == 1 {
      assert more == [more[0]];
      JoinAppend(parts, more[0]);
      r := r + ";" + more[0];
    }
  }

  method CookieHeader(o: CookieOptions, name: string, value: string, maxAge: Option<nat>) returns (r: Result<string>)
    ensures r.Ok? <==> ValidOptions(o)
    ensures r.Ok? ==> r.value == HeaderOf(name, value, o, maxAge)
    ensures r.Err? ==> r.error.Internal?
  {
    hide Join, ValidAttribute, AgeText, SameSiteOption;
    var cookie := name + "=" + value;
    ghost var parts := [cookie];
    SingleJoin(cookie);
    if o.path.Some? && !ValidAttribute(o.path.value) {
      return Err(Internal("cookie path"));
    }
    cookie := PushParts(cookie, parts, Part(" Path=", o.path));
    parts := parts + Part(" Path=", o.path);
    if o.domain.Some? && !ValidAttribute(o.domain.value) {
      return Err(Internal("cookie domain"));
    }
    cookie := PushParts(cookie, parts, Part(" Domain=", o.domain));
    parts := parts + Part(" Domain=", o.domain);
    cookie := PushParts(cookie, parts, Part(" Max-Age=", AgeText(maxAge)));
    parts := parts + Part(" Max-Age=", AgeText(maxAge));
    cookie := PushParts(cookie, parts, Flag(" HttpOnly", o.httpOnly));
    parts := parts + Flag(" HttpOnly", o.httpOnly);
    cookie := PushParts(cookie, parts, Flag(" Secure", o.secure));
    parts := parts + Flag(" Secure", o.secure);
    cookie := PushParts(cookie, parts, Part(" SameSite=", SameSiteOption(o)));
    parts := parts + Part(" SameSite=", SameSiteOption(o));
    assert parts == HeaderParts(name, value, o, maxAge);
    return Ok(cookie);
  }

  lemma SingleJoin(s: string)
    ensures Join([s], ";") == s
  {
  }

  method SetCookieHeader(o: CookieOptions, name: string, value: string) returns (r: Result<string>)
    ensures r.Ok? <==> ValidName(name) && ValidValue(value) && ValidOptions(o)
    ensures r.Ok? ==> r.value == HeaderOf(name, value, o, o.maxAge)
  {
    if !ValidName(name) {
      return Err(Internal("cookie name"));
    }
    if !ValidValue(value) {
      return Err(Internal("cookie value"));
    }
    r := CookieHeader(o, name, value, o.maxAge);
  }

  method DeleteCookieHeader(o: CookieOptions, name: string) returns (r: Result<string>)
    ensures r.Ok? <==> ValidName(name) && ValidOptions(o)
    ensures r.Ok? ==> r.value == HeaderOf(name, "", o, Some(0))
  {
    if !ValidName(name) {
      return Err(Internal("cookie name"));
    }
    r := CookieHeader(o, name, "", Some(0));
  }

  // ----- The parts of a printed header

  /** The characters of a name are those of a token: visible ASCII other than separators. */
  lemma NameCharsAreToken(c: char)
    ensures IsNameChar(c) <==> '!' <= c <= '~' && c !in "()<>@,;:\\\"/[]?={}"
  {
  }

  /** The characters of a value are visible ASCII other than the quote, comma, semicolon and
      backslash. */
  lemma ValueChars(c: char)
    ensures IsValueChar(c) <==> '!' <= c <= '~' && c !in "\",;\\"
  {
  }

  /** Paths and domains are valid when they are not empty and consist of ASCII from the space
      to the tilde, other than semicolons. */
  lemma AttributeValues(value: string)
    ensures ValidAttribute(value) <==>
            |value| > 0 && ';' !in value && forall c :: c in value ==> c == ' ' || '!' <= c <= '~'
  {
    assert forall i :: 0 <= i < |value| ==> value[i] in value;
  }

  lemma ValidHasNoSemicolon(name: string, value: string)
    requires ValidName(name) && ValidValue(value)
    ensures ';' !in name && '=' !in name && ';' !in value && '"' !in value
    ensures forall c :: c in name || c in value ==> !IsWhitespace(c)
  {
  }

  ghost predicate Clean(parts: seq<string>)
  {
    forall part :: part in parts ==> ';' !in part
  }

  lemma CleanConcat(a: seq<string>, b: seq<string>)
    requires Clean(a) && Clean(b)
    ensures Clean(a + b)
  {
  }

  lemma PartIsClean(title: string, value: Option<string>, enabled: bool)
    requires ';' !in title && (value.Some? ==> ';' !in value.value)
    ensures Clean(Part(title, value)) && Clean(Flag(title, enabled))
  {
  }

  lemma PartsAreClean(name: string, value: string, o: CookieOptions, maxAge: Option<nat>)
    requires ValidName(name) && ValidValue(value) && ValidOptions(o)
    ensures Clean(HeaderParts(name, value, o, maxAge))
  {
    ValidHasNoSemicolon(name, value);
    if maxAge.Some? {
      DecimalRoundTrip(maxAge.value);
    }
    PartIsClean(" Path=", o.path, false);
    PartIsClean(" Domain=", o.domain, false);
    PartIsClean(" Max-Age=", AgeText(maxAge), false);
    PartIsClean(" HttpOnly", None, o.httpOnly);
    PartIsClean(" Secure", None, o.secure);
    PartIsClean(" SameSite=", SameSiteOption(o), false);
    var p0 := [name + "=" + value];
    assert Clean(p0);
    var p1 := p0 + Part(" Path=", o.path);
    var p2 := p1 + Part(" Domain=", o.domain);
    var p3 := p2 + Part(" Max-Age=", AgeText(maxAge));
    var p4 := p3 + Flag(" HttpOnly", o.httpOnly);
    var p5 := p4 + Flag(" Secure", o.secure);
    hide Clean, Part, Flag, ToDecimal, ValidName, ValidValue, ValidOptions, SameSiteOption, AgeText;
    CleanConcat(p0, Part(" Path=", o.path));
    CleanConcat(p1, Part(" Domain=", o.domain));
    CleanConcat(p2, Part(" Max-Age=", AgeText(maxAge)));
    CleanConcat(p3, Flag(" HttpOnly", o.httpOnly));
    CleanConcat(p4, Flag(" Secure", o.secure));
    CleanConcat(p5, Part(" SameSite=", SameSiteOption(o)));
  }

  function CountEnabled(o: CookieOptions, maxAge: Option<nat>): nat
  {
    (if o.path.Some? then 1 else 0) + (if o.domain.Some? then 1 else 0) + (if maxAge.Some? then 1 else 0)
    + (if o.httpOnly then 1 else 0) + (if o.secure then 1 else 0) + (if o.sameSite.Some? then 1 else 0)
  }

  /** Splitting a produced Set-Cookie header at its semicolons gives exactly `name=value`
      first and then one part per enabled attribute: no name, value or attribute can
      smuggle in another part. */
  lemma HeaderSplitsIntoParts(name: string, value: string, o: CookieOptions, maxAge: Option<nat>)
    requires ValidName(name) && ValidValue(value) && ValidOptions(o)
    ensures Split(HeaderOf(name, value, o, maxAge), ';') == HeaderParts(name, value, o, maxAge)
    ensures Split(HeaderOf(name, value, o, maxAge), ';')[0] == name + "=" + value
    ensures |Split(HeaderOf(name, value, o, maxAge), ';')| == 1 + CountEnabled(o, maxAge)
  {
    PartsAreClean(name, value, o, maxAge);
    SplitUndoesJoin(HeaderParts(name, value, o, maxAge), ';');
  }

  /** Which text stands for which attribute: a header with just that attribute has it as its
      only further part. */
  lemma AttributeTexts(name: string, value: string, text: string, age: nat, o: CookieOptions)
    requires o == CookieOptions(None, None, None, false, false, None)
    ensures HeaderParts(name, value, o, None) == [name + "=" + value]
    ensures HeaderParts(name, value, o.(path := Some(text)), None) == [name + "=" + value, " Path=" + text]
    ensures HeaderParts(name, value, o.(domain := Some(text)), None) == [name + "=" + value, " Domain=" + text]
    ensures HeaderParts(name, value, o, Some(age)) == [name + "=" + value, " Max-Age=" + ToDecimal(age)]
    ensures HeaderParts(name, value, o.(httpOnly := true), None) == [name + "=" + value, " HttpOnly"]
    ensures HeaderParts(name, value, o.(secure := true), None) == [name + "=" + value, " Secure"]
    ensures HeaderParts(name, value, o.(sameSite := Some(Strict)), None) == [name + "=" + value, " SameSite=Strict"]
    ensures HeaderParts(name, value, o.(sameSite := Some(Lax)), None) == [name + "=" + value, " SameSite=Lax"]
    ensures HeaderParts(name, value, o.(sameSite := Some(NoRestriction)), None)
         == [name + "=" + value, " SameSite=None"]
  {
    assert " SameSite=" + "Strict" == " SameSite=Strict" && " SameSite=" + "Lax" == " SameSite=Lax";
    assert " SameSite=" + "None" == " SameSite=None";
  }

  /** With all of them, they come in this order. */
  lemma AttributesInOrder(name: string, value: string, path: string, domain: string, age: nat)
    ensures HeaderParts(name, value, CookieOptions(Some(path), Some(domain), None, true, true, Some(Strict)), Some(age))
         == [name + "=" + value, " Path=" + path, " Domain=" + domain, " Max-Age=" + ToDecimal(age), " HttpOnly",
             " Secure", " SameSite=" + "Strict"]
  {
  }

  // ----- Cookie headers

  type Cookie = (string, string)

  function Unquote(value: string): string
  {
    if |value| >= 2 && value[0] == '"' && value[|value| - 1] == '"' then value[1..|value| - 1] else value
  }

  function ParsePair(pair: string): Result<Cookie>
  {
    match SplitOnce(pair, '=')
    case None => Err(BadRequest("invalid cookie pair"))
    case Some((name, value)) =>
      if Trim(name) == "" then Err(BadRequest("cookie name cannot be empty"))
      else Ok((Trim(name), Unquote(Trim(value))))
  }

  /** Blank pieces are skipped; the first malformed one fails the whole header. */
  function ParsePieces(pieces: seq<string>): Result<seq<Cookie>>
  {
    if pieces == [] then Ok([])
    else if Trim(pieces[0]) == "" then ParsePieces(pieces[1..])
    else
      match ParsePair(Trim(pieces[0]))
      case Err(e) => Err(e)
      case Ok(cookie) =>
        match ParsePieces(pieces[1..])
        case Err(e) => Err(e)
        case Ok(rest) => Ok([cookie] + rest)
  }

  function ParseHeaders(values: seq<string>): Result<seq<Cookie>>
  {
    if values == [] then Ok([])
    else
      match ParsePieces(Split(values[0], ';'))
      case Err(e) => Err(e)
      case Ok(first) =>
        match ParseHeaders(values[1..])
        case Err(e) => Err(e)
        case Ok(rest) => Ok(first + rest)
  }

  /** What remains to be done, put behind the cookies found so far. */
  function Found(cookies: seq<Cookie>, rest: Result<seq<Cookie>>): Result<seq<Cookie>>
  {
    match rest
    case Err(e) => Err(e)
    case Ok(more) => Ok(cookies + more)
  }

  /** The parser's nested loops over header values and their pieces. */
  method ParseCookieHeaderValues(values: seq<string>) returns (r: Result<seq<Cookie>>)
    ensures r == ParseHeaders(values)
  {
    hide ParsePair, Split, Trim;
    var cookies: seq<Cookie> := [];
    assert values[0..] == values;
    assert Found([], ParseHeaders(values)) == ParseHeaders(values) by {
      assert ParseHeaders(values).Ok? ==> [] + ParseHeaders(values).value == ParseHeaders(values).value;
    }
    for i := 0 to |values|
      invariant ParseHeaders(values) == Found(cookies, ParseHeaders(values[i..]))
    {
      assert values[i..][0] == values[i] && values[i..][1..] == values[i + 1..];
      var pieces := Split(values[i], ';');
      ghost var later := ParseHeaders(values[i + 1..]);
      FoundTwice(cookies, ParsePieces(pieces), later);
      assert pieces[0..] == pieces;
      for k := 0 to |pieces|
        invariant ParseHeaders(values) == FoundThen(cookies, ParsePieces(pieces[k..]), later)
      {
        assert pieces[k..][0] == pieces[k] && pieces[k..][1..] == pieces[k + 1..];
        var pair := Trim(pieces[k]);
        if pair != "" {
          var cookie := ParsePair(pair);
          if cookie.Err? {
            return Err(cookie.error);
          }
          FoundOne(cookies, cookie.value, ParsePieces(pieces[k + 1..]), later);
          cookies := cookies + [cookie.value];
        }
      }
      assert cookies + [] == cookies;
    }
    assert cookies + [] == cookies;
    return Ok(cookies);
  }

  function FoundThen(cookies: seq<Cookie>, first: Result<seq<Cookie>>, later: Result<seq<Cookie>>): Result<seq<Cookie>>
  {
    match first
    case Err(e) => Err(e)
    case Ok(more) => Found(cookies + more, later)
  }

  lemma FoundTwice(cookies: seq<Cookie>, first: Result<seq<Cookie>>, later: Result<seq<Cookie>>)
    ensures
      Found(cookies,
            match first
            case Err(e) => Err(e)
            case Ok(a) => match later case Err(e) => Err(e) case Ok(b) => Ok(a + b))
      == FoundThen(cookies, first, later)
  {
    if first.Ok? && later.Ok? {
      assert cookies + (first.value + later.value) == cookies + first.value + later.value;
    }
  }

  lemma FoundOne(cookies: seq<Cookie>, cookie: Cookie, rest: Result<seq<Cookie>>, later: Result<seq<Cookie>>)
    ensures
      FoundThen(cookies, match rest case Err(e) => Err(e) case Ok(more) => Ok([cookie] + more), later)
      == FoundThen(cookies + [cookie], rest, later)
  {
    if rest.Ok? {
      assert cookies + ([cookie] + rest.value) == cookies + [cookie] + rest.value;
    }
  }

  function PrintPairs(cookies: seq<Cookie>): (r: seq<string>)
    ensures |r| == |cookies|
    ensures forall i :: 0 <= i < |cookies| ==> r[i] == cookies[i].0 + "=" + cookies[i].1
  {
    if cookies == [] then [] else [cookies[0].0 + "=" + cookies[0].1] + PrintPairs(cookies[1..])
  }

  /** The Cookie header of section 4.2.1 of RFC 6265. */
  function PrintHeader(cookies: seq<Cookie>): string
  {
    Join(PrintPairs(cookies), "; ")
  }

  lemma PrintedPairParses(cookie: Cookie)
    requires ValidName(cookie.0) && ValidValue(cookie.1)
    ensures
      var pair := cookie.0 + "=" + cookie.1;
      Trim(pair) == pair && pair != "" && ';' !in pair && ParsePair(pair) == Ok(cookie)
  {
    var (name, value) := cookie;
    ValidHasNoSemicolon(name, value);
    var pair := name + "=" + value;
    assert pair == name + ['='] + value;
    SplitOnceAtSeparator(name, '=', value);
    forall c | c in pair ensures !IsWhitespace(c) {
      assert c in name || c == '=' || c in value;
    }
    TrimKeepsSolid(pair);
    TrimKeepsSolid(name);
    TrimKeepsSolid(value);
  }

  lemma QuotedPairParses(name: string, value: string)
    requires ValidName(name) && ValidValue(value)
    ensures
      var pair := name + "=\"" + value + "\"";
      Trim(pair) == pair && pair != "" && ';' !in pair && ParsePair(pair) == Ok((name, value))
  {
    ValidHasNoSemicolon(name, value);
    var quoted := "\"" + value + "\"";
    var pair := name + "=\"" + value + "\"";
    assert pair == name + ['='] + quoted;
    SplitOnceAtSeparator(name, '=', quoted);
    TrimKeepsSolid(name);
    TrimKeepsSolid(quoted);
    TrimKeepsSolid(pair);
    assert quoted[1..|quoted| - 1] == value;
  }

  /** A value in double quotes is received without them. */
  lemma QuotesAreRemoved(name: string, value: string)
    requires ValidName(name) && ValidValue(value)
    ensures ParseHeaders([name + "=\"" + value + "\""]) == Ok([(name, value)])
  {
    hide ParsePair, ParsePieces, ParseHeaders, Trim;
    var pair := name + "=\"" + value + "\"";
    QuotedPairParses(name, value);
    SplitWithoutSeparator(pair, ';');
    NoPieces();
    FirstPieceParses(pair, [], (name, value), []);
    assert [pair] + [] == [pair] && [(name, value)] + [] == [(name, value)];
    OneValue(pair, [(name, value)]);
  }

  /** A second header value continues the list, and its errors count. */
  lemma SecondValue(a: string, b: string, first: seq<Cookie>, second: seq<Cookie>)
    requires ParseHeaders([a]) == Ok(first) && ParseHeaders([b]) == Ok(second)
    ensures ParseHeaders([a, b]) == Ok(first + second)
  {
    hide ParsePieces, Split;
    assert [a, b][1..] == [b] && [a][1..] == [];
    assert ParseHeaders([]) == Ok([]);
    assert ParsePieces(Split(a, ';')) == Ok(first) by {
      assert ParsePieces(Split(a, ';')).Ok? ==>
          ParseHeaders([a]) == Ok(ParsePieces(Split(a, ';')).value + [])
          && ParsePieces(Split(a, ';')).value + [] == ParsePieces(Split(a, ';')).value;
    }
  }

  /** A blank piece is skipped, wherever it stands. */
  lemma {:induction false} BlankPieceIsSkipped(front: seq<string>, blank: string, back: seq<string>)
    requires Trim(blank) == ""
    ensures ParsePieces(front + [blank] + back) == ParsePieces(front + back)
  {
    hide ParsePair, Trim;
    if front == [] {
      assert ([] + [blank] + back)[1..] == back && [] + back == back;
    } else {
      BlankPieceIsSkipped(front[1..], blank, back);
      assert (front + [blank] + back)[1..] == front[1..] + [blank] + back;
      assert (front + back)[1..] == front[1..] + back;
    }
  }

  /** A piece that is not blank and has no equals sign, or nothing before it, fails the whole
      header, wherever it stands. */
  lemma {:induction false} MalformedPieceFails(front: seq<string>, piece: string, back: seq<string>)
    requires Trim(piece) != ""
    requires '=' !in Trim(piece) || exists rest :: Trim(piece) == "=" + rest
    ensures ParsePieces(front + [piece] + back).Err?
  {
    if front == [] {
      NoEquals(Trim(piece));
      if rest :| Trim(piece) == "=" + rest {
        assert Trim(piece) == [] + ['='] + rest;
        SplitOnceAtSeparator([], '=', rest);
        assert Trim("") == "";
      }
      hide Trim;
      assert ([] + [piece] + back)[0] == piece;
    } else {
      MalformedPieceFails(front[1..], piece, back);
      hide Trim, ParsePair;
      assert (front + [piece] + back)[1..] == front[1..] + [piece] + back;
    }
  }

  lemma {:induction false} NoEquals(s: string)
    ensures '=' !in s ==> SplitOnce(s, '=') == None
  {
    if s != "" {
      NoEquals(s[1..]);
    }
  }

  /** Spaces around the equals sign do not belong to name or value. */
  lemma SpacesAreTrimmed(name: string, value: string)
    requires ValidName(name) && ValidValue(value)
    ensures ParsePair(name + " = " + value) == Ok((name, value))
  {
    ValidHasNoSemicolon(name, value);
    assert name + " = " + value == (name + " ") + ['='] + (" " + value);
    SplitOnceAtSeparator(name + " ", '=', " " + value);
    TrimLeadingSpace(value);
    TrimKeepsSolid(value);
    TrimTrailingSpace(name);
  }

  lemma TrimTrailingSpace(s: string)
    requires s != "" && forall c :: c in s ==> !IsWhitespace(c)
    ensures Trim(s + " ") == s
  {
    TrimKeepsSolid(s);
    assert TrimStart(s + " ") == s + " ";
    assert (s + " ")[..|s|] == s;
    assert !IsWhitespace(s[|s| - 1]);
  }

  lemma TrimLeadingSpace(s: string)
    ensures Trim(" " + s) == Trim(s)
  {
    assert (" " + s)[1..] == s;
  }

  /** Splitting a printed header at semicolons gives the printed pairs, each but the
      first behind a space. */
  lemma {:induction false} PrintedPieces(pairs: seq<string>)
    requires pairs != [] && forall p :: p in pairs ==> ';' !in p
    ensures Split(Join(pairs, "; "), ';') == [pairs[0]] + Spaced(pairs[1..])
  {
    if |pairs| == 1 {
      SplitWithoutSeparator(pairs[0], ';');
    } else {
      var rest := Join(pairs[1..], "; ");
      PrintedPieces(pairs[1..]);
      assert Join(pairs, "; ") == pairs[0] + [';'] + (" " + rest);
      SplitAtSeparator(pairs[0], ';', " " + rest);
      assert (" " + rest)[1..] == rest;
      assert Split(" " + rest, ';') == [" " + Split(rest, ';')[0]] + Split(rest, ';')[1..];
      assert [" " + pairs[1]] + Spaced(pairs[1..][1..]) == Spaced(pairs[1..]);
    }
  }

  function Spaced(pairs: seq<string>): seq<string>
  {
    if pairs == [] then [] else [" " + pairs[0]] + Spaced(pairs[1..])
  }

  lemma FirstPieceParses(piece: string, pieces: seq<string>, cookie: Cookie, cookies: seq<Cookie>)
    requires Trim(piece) != "" && ParsePair(Trim(piece)) == Ok(cookie) && ParsePieces(pieces) == Ok(cookies)
    ensures ParsePieces([piece] + pieces) == Ok([cookie] + cookies)
  {
    hide ParsePair, Trim;
    assert ([piece] + pieces)[1..] == pieces;
  }

  lemma NoPieces()
    ensures ParsePieces([]) == Ok([])
  {
  }

  lemma {:induction false} SpacedPairsParse(cookies: seq<Cookie>)
    requires forall c :: c in cookies ==> ValidName(c.0) && ValidValue(c.1)
    ensures ParsePieces(Spaced(PrintPairs(cookies))) == Ok(cookies)
  {
    hide ParsePair, ParsePieces, ValidName, ValidValue, Trim;
    NoPieces();
    if cookies != [] {
      var pairs := PrintPairs(cookies);
      assert pairs[1..] == PrintPairs(cookies[1..]);
      PrintedPairParses(cookies[0]);
      TrimLeadingSpace(pairs[0]);
      SpacedPairsParse(cookies[1..]);
      FirstPieceParses(" " + pairs[0], Spaced(pairs[1..]), cookies[0], cookies[1..]);
      assert cookies == [cookies[0]] + cookies[1..];
    }
  }

  lemma PrintedPairsAreClean(cookies: seq<Cookie>)
    requires forall c :: c in cookies ==> ValidName(c.0) && ValidValue(c.1)
    ensures forall p :: p in PrintPairs(cookies) ==> ';' !in p
  {
    hide ParsePair, ValidName, ValidValue, Trim;
    var pairs := PrintPairs(cookies);
    forall i | 0 <= i < |pairs| ensures ';' !in pairs[i] {
      assert cookies[i] in cookies;
      PrintedPairParses(cookies[i]);
    }
  }

  lemma PrintedPiecesParse(cookies: seq<Cookie>)
    requires cookies != [] && forall c :: c in cookies ==> ValidName(c.0) && ValidValue(c.1)
    ensures ParsePieces(Split(PrintHeader(cookies), ';')) == Ok(cookies)
  {
    hide ParsePair, ParsePieces, ValidName, ValidValue, Trim, Split, Join, Spaced;
    var pairs := PrintPairs(cookies);
    PrintedPairsAreClean(cookies);
    PrintedPieces(pairs);
    assert pairs[1..] == PrintPairs(cookies[1..]);
    PrintedPairParses(cookies[0]);
    SpacedPairsParse(cookies[1..]);
    FirstPieceParses(pairs[0], Spaced(pairs[1..]), cookies[0], cookies[1..]);
    assert cookies == [cookies[0]] + cookies[1..];
  }

  lemma OneValue(value: string, cookies: seq<Cookie>)
    requires ParsePieces(Split(value, ';')) == Ok(cookies)
    ensures ParseHeaders([value]) == Ok(cookies)
  {
    hide ParsePieces, Split;
    assert [value][1..] == [];
    assert cookies + [] == cookies;
  }

  /** For every list of cookies that the validators accept, parsing the printed Cookie
      header gives back the list, in order. */
  lemma ParseUndoesPrint(cookies: seq<Cookie>)
    requires forall c :: c in cookies ==> ValidName(c.0) && ValidValue(c.1)
    ensures ParseHeaders([PrintHeader(cookies)]) == Ok(cookies)
  {
    if cookies == [] {
      TrimKeepsSolid("");
      assert [""][1..] == [];
    } else {
      PrintedPiecesParse(cookies);
    }
    OneValue(PrintHeader(cookies), cookies);
  }
}
