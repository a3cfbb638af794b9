/** Server-sent events: the encoder, and a decoder written from section 9.2.6 of the
    HTML Living Standard, which recovers what was encoded. */
module Sse {
  import opened Results
  import opened Text

  const LF := '\n'
  const CR := '\r'
  const BYTE_ORDER_MARK := '\U{FEFF}'

  datatype SseEvent = SseEvent(
    id: Option<string>, event: Option<string>, retry: Option<nat>, comment: Option<string>, data: Option<string>)

  // ----- The encoder

  function ReplaceCrLf(s: string): string
  {
    if s == "" then ""
    else if |s| >= 2 && s[0] == CR && s[1] == LF then [LF] + ReplaceCrLf(s[2..])
    else [s[0]] + ReplaceCrLf(s[1..])
  }

  function ReplaceCr(s: string): (r: string)
    ensures CR !in r
  {
    if s == "" then "" else [if s[0] == CR then LF else s[0]] + ReplaceCr(s[1..])
  }

  /** Every CRLF and every remaining CR becomes LF. */
  function Normalize(s: string): (r: string)
    ensures CR !in r
  {
    ReplaceCr(ReplaceCrLf(s))
  }

  /** One pass over the text: each CRLF and each other CR becomes one LF, and nothing else
      changes. */
  function LineEndsToLf(s: string): string
  {
    if s == "" then ""
    else if s[0] == CR && |s| >= 2 && s[1] == LF then [LF] + LineEndsToLf(s[2..])
    else if s[0] == CR then [LF] + LineEndsToLf(s[1..])
    else [s[0]] + LineEndsToLf(s[1..])
  }

  /** The two replacements, one after the other, amount to that single pass. */
  lemma {:induction false} NormalizeIsOnePass(s: string)
    ensures Normalize(s) == LineEndsToLf(s)
    decreases |s|
  {
    if s != "" {
      var pair := |s| >= 2 && s[0] == CR && s[1] == LF;
      var rest := if pair then s[2..] else s[1..];
      NormalizeIsOnePass(rest);
      var first := if pair then LF else s[0];
      assert ([first] + ReplaceCrLf(rest))[1..] == ReplaceCrLf(rest);
    }
  }

  function SseLines(value: string): (lines: seq<string>)
    ensures |lines| >= 1
  {
    if Normalize(value) == "" then [""] else Split(Normalize(value), LF)
  }

  /** Lines as they are written to the stream, each ended by LF. */
  function TextOf(lines: seq<string>): string
  {
    if lines == [] then "" else lines[0] + [LF] + TextOf(lines[1..])
  }

  function Labelled(name: string, lines: seq<string>): (r: seq<string>)
    ensures |r| == |lines|
    ensures forall i :: 0 <= i < |lines| ==> r[i] == name + ": " + lines[i]
  {
    if lines == [] then [] else [name + ": " + lines[0]] + Labelled(name, lines[1..])
  }

  function FieldLines(name: string, value: Option<string>): seq<string>
  {
    match value
    case None => []
    case Some(v) => Labelled(name, SseLines(v))
  }

  function RetryLines(retry: Option<nat>): seq<string>
  {
    match retry
    case None => []
    case Some(n) => ["retry: " + ToDecimal(n)]
  }

  /** The lines of one event, with the empty line that ends it. */
  function EventLines(e: SseEvent): seq<string>
  {
    FieldLines("", e.comment) + FieldLines("id", e.id) + FieldLines("event", e.event)
    + RetryLines(e.retry) + FieldLines("data", e.data) + [""]
  }

  function StreamLines(events: seq<SseEvent>): seq<string>
  {
    if events == [] then [] else EventLines(events[0]) + StreamLines(events[1..])
  }

  /** The lines that begin with a colon, without the colon and the space after it. */
  function CommentLines(lines: seq<string>): seq<string>
  {
    if lines == [] then []
    else if |lines[0]| >= 2 && lines[0][..2] == ": " then [lines[0][2..]] + CommentLines(lines[1..])
    else CommentLines(lines[1..])
  }

  ghost predicate NoComment(lines: seq<string>)
  {
    forall l :: l in lines ==> l == "" || l[0] != ':'
  }

  lemma {:induction false} CommentsConcat(a: seq<string>, b: seq<string>)
    ensures CommentLines(a + b) == CommentLines(a) + CommentLines(b)
  {
    if a == [] {
      assert a + b == b;
    } else {
      CommentsConcat(a[1..], b);
      assert (a + b)[1..] == a[1..] + b;
    }
  }

  lemma {:induction false} NothingCommented(lines: seq<string>)
    requires NoComment(lines)
    ensures CommentLines(lines) == []
  {
    if lines != [] {
      assert lines[0] in lines && forall l :: l in lines[1..] ==> l in lines;
      NothingCommented(lines[1..]);
    }
  }

  lemma {:induction false} CommentWritten(lines: seq<string>)
    ensures CommentLines(Labelled("", lines)) == lines
  {
    if lines != [] {
      CommentWritten(lines[1..]);
      var first := "" + ": " + lines[0];
      assert first == ": " + lines[0] && first[..2] == ": " && first[2..] == lines[0];
      assert Labelled("", lines)[1..] == Labelled("", lines[1..]);
    }
  }

  /** The decoder ignores comments; the stream has them all the same. The lines of an event
      that begin with a colon spell its comment, line by line. */
  lemma CommentIsWritten(e: SseEvent)
    ensures CommentLines(EventLines(e)) == if e.comment.Some? then SseLines(e.comment.value) else []
  {
    var c, i, v := FieldLines("", e.comment), FieldLines("id", e.id), FieldLines("event", e.event);
    var r, d := RetryLines(e.retry), FieldLines("data", e.data);
    NamedFieldIsNoComment("id", e.id);
    NamedFieldIsNoComment("event", e.event);
    NamedFieldIsNoComment("data", e.data);
    assert NoComment(r) && NoComment([""]);
    if e.comment.Some? {
      CommentWritten(SseLines(e.comment.value));
    }
    hide FieldLines, RetryLines, NoComment, CommentLines;
    NothingCommented(i);
    NothingCommented(v);
    NothingCommented(r);
    NothingCommented(d);
    NothingCommented([""]);
    CommentsConcat(c, i);
    CommentsConcat(c + i, v);
    CommentsConcat(c + i + v, r);
    CommentsConcat(c + i + v + r, d);
    CommentsConcat(c + i + v + r + d, [""]);
    assert CommentLines(c) + [] == CommentLines(c);
    NoLinesNoComments();
  }

  lemma NoLinesNoComments()
    ensures CommentLines([]) == []
  {
  }

  lemma NamedFieldIsNoComment(name: string, value: Option<string>)
    requires name != "" && name[0] != ':'
    ensures NoComment(FieldLines(name, value))
  {
    if value.Some? {
      forall l | l in FieldLines(name, value) ensures l != "" && l[0] != ':' {
        var i :| 0 <= i < |SseLines(value.value)| && l == name + ": " + SseLines(value.value)[i];
      }
    }
  }

  lemma {:induction false} TextOfConcat(a: seq<string>, b: seq<string>)
    ensures TextOf(a + b) == TextOf(a) + TextOf(b)
  {
    if a == [] {
      assert a + b == b;
    } else {
      assert (a + b)[1..] == a[1..] + b;
      TextOfConcat(a[1..], b);
    }
  }

  /** Append one line per line of the value; comments have the empty name. */
  method PushField(encoded: string, name: string, value: string) returns (r: string)
    ensures r == encoded + TextOf(FieldLines(name, Some(value)))
  {
    hide SseLines, TextOf, Labelled;
    r := encoded;
    var lines := SseLines(value);
    ghost var goal := encoded + TextOf(Labelled(name, lines));
    assert lines[0..] == lines;
    for i := 0 to |lines|
      invariant goal == r + TextOf(Labelled(name, lines[i..]))
    {
      assert lines[i..][0] == lines[i] && lines[i..][1..] == lines[i + 1..];
      LabelledText(name, lines[i..]);
      ghost var before := r;
      r := r + name;
      r := r + ": ";
      r := r + lines[i];
      r := r + [LF];
      assert r == before + (name + ": " + lines[i] + [LF]);
    }
    NoLinesNoText(name);
  }

  lemma NoLinesNoText(name: string)
    ensures TextOf(Labelled(name, [])) == ""
  {
  }

  lemma LabelledText(name: string, lines: seq<string>)
    requires lines != []
    ensures TextOf(Labelled(name, lines)) == name + ": " + lines[0] + [LF] + TextOf(Labelled(name, lines[1..]))
  {
    assert Labelled(name, lines)[1..] == Labelled(name, lines[1..]);
  }

  lemma EventText(e: SseEvent)
    ensures TextOf(EventLines(e)) ==
      TextOf(FieldLines("", e.comment)) + TextOf(FieldLines("id", e.id)) + TextOf(FieldLines("event", e.event))
      + TextOf(RetryLines(e.retry)) + TextOf(FieldLines("data", e.data)) + [LF]
    ensures TextOf([]) == ""
    ensures e.retry.Some? ==> TextOf(RetryLines(e.retry)) == "retry: " + ToDecimal(e.retry.value) + [LF]
  {
    hide FieldLines, ToDecimal;
    var c, i, v, r, d :=
      FieldLines("", e.comment), FieldLines("id", e.id), FieldLines("event", e.event), RetryLines(e.retry),
        FieldLines("data", e.data);
    TextOfConcat(c + i + v + r + d, [""]);
    TextOfConcat(c + i + v + r, d);
    TextOfConcat(c + i + v, r);
    TextOfConcat(c + i, v);
    TextOfConcat(c, i);
    assert [""][1..] == [] && TextOf([""]) == [LF];
  }

  method Encode(e: SseEvent) returns (encoded: string)
    ensures encoded == TextOf(EventLines(e))
  {
    hide EventLines, TextOf, RetryLines, FieldLines;
    EventText(e);
    encoded := "";
    encoded := PushOption(encoded, "", e.comment);
    encoded := PushOption(encoded, "id", e.id);
    encoded := PushOption(encoded, "event", e.event);
    encoded := PushRetry(encoded, e.retry);
    encoded := PushOption(encoded, "data", e.data);
    encoded := encoded + [LF];
  }

  method PushOption(encoded: string, name: string, value: Option<string>) returns (r: string)
    ensures r == encoded + TextOf(FieldLines(name, value))
  {
    r := encoded;
    if value.Some? {
      r := PushField(encoded, name, value.value);
    }
  }

  method PushRetry(encoded: string, retry: Option<nat>) returns (r: string)
    ensures r == encoded + TextOf(RetryLines(retry))
  {
    r := encoded;
    if retry.Some? {
      EventText(SseEvent(None, None, retry, None, None));
      r := r + "retry: ";
      r := r + ToDecimal(retry.value);
      r := r + [LF];
      assert r == encoded + ("retry: " + ToDecimal(retry.value) + [LF]);
    }
  }

  // ----- The standard's decoder

  /** The complete lines of a stream: each is ended by CRLF, LF or CR. */
  function ReadLines(s: string, current: string): seq<string>
    decreases |s|
  {
    if s == "" then []
    else if s[0] == CR then
      [current] + ReadLines(if |s| >= 2 && s[1] == LF then s[2..] else s[1..], "")
    else if s[0] == LF then [current] + ReadLines(s[1..], "")
    else ReadLines(s[1..], current + [s[0]])
  }

  datatype Message = Message(eventType: string, data: string, lastEventId: string)

  datatype Parser = Parser(
    data: string, eventType: string, lastEventId: string, reconnection: Option<nat>, messages: seq<Message>)

  const FRESH := Parser("", "", "", None, [])

  function ProcessField(p: Parser, field: string, value: string): Parser
  {
    if field == "event" then p.(eventType := value)
    else if field == "data" then p.(data := p.data + value + [LF])
    else if field == "id" then if '\0' in value then p else p.(lastEventId := value)
    else if field == "retry" then if AllDigits(value) then p.(reconnection := Some(ParseDecimal(value))) else p
    else p
  }

  function DispatchEvent(p: Parser): Parser
  {
    if p.data == "" then p.(eventType := "")
    else
      var data := if p.data[|p.data| - 1] == LF then p.data[..|p.data| - 1] else p.data;
      var eventType := if p.eventType == "" then "message" else p.eventType;
      p.(data := "", eventType := "", messages := p.messages + [Message(eventType, data, p.lastEventId)])
  }

  function ProcessLine(p: Parser, line: string): Parser
  {
    if line == "" then DispatchEvent(p)
    else if line[0] == ':' then p
    else
      match SplitOnce(line, ':')
      case None => ProcessField(p, line, "")
      case Some((field, rest)) =>
        ProcessField(p, field, if rest != "" && rest[0] == ' ' then rest[1..] else rest)
  }

  function ProcessLines(p: Parser, lines: seq<string>): Parser
    decreases |lines|
  {
    if lines == [] then p else ProcessLines(ProcessLine(p, lines[0]), lines[1..])
  }

  function Decode(stream: string): Parser
  {
    var s := if stream != "" && stream[0] == BYTE_ORDER_MARK then stream[1..] else stream;
    ProcessLines(FRESH, ReadLines(s, ""))
  }

  // ----- What decoding should recover

  /** The last line of an id that holds no NUL, or else the previous id. */
  function IdAfter(previous: string, lines: seq<string>): string
    decreases |lines|
  {
    if lines == [] then previous
    else IdAfter(if '\0' in lines[0] then previous else lines[0], lines[1..])
  }

  function Last(lines: seq<string>): string
    requires lines != []
  {
    lines[|lines| - 1]
  }

  function TypeOf(event: Option<string>): string
  {
    match event
    case None => "message"
    case Some(name) => if Last(SseLines(name)) == "" then "message" else Last(SseLines(name))
  }

  /** One event's contribution: it may set the id and the reconnection time, and it is
      dispatched exactly when it has data. */
  function Receive(p: Parser, e: SseEvent): Parser
  {
    var lastEventId := match e.id case None => p.lastEventId case Some(id) => IdAfter(p.lastEventId, SseLines(id));
    var reconnection := if e.retry.Some? then e.retry else p.reconnection;
    var messages := match e.data
      case None => p.messages
      case Some(data) => p.messages + [Message(TypeOf(e.event), Normalize(data), lastEventId)];
    Parser("", "", lastEventId, reconnection, messages)
  }

  function ReceiveAll(p: Parser, events: seq<SseEvent>): Parser
    decreases |events|
  {
    if events == [] then p else ReceiveAll(Receive(p, events[0]), events[1..])
  }

  // ----- Proof

  predicate OneLine(s: string)
  {
    CR !in s && LF !in s
  }

  lemma {:induction false} ReadOneLine(line: string, rest: string, current: string)
    requires OneLine(line)
    ensures ReadLines(line + [LF] + rest, current) == [current + line] + ReadLines(rest, "")
    decreases |line|
  {
    var s := line + [LF] + rest;
    if line == "" {
      assert s[0] == LF && s[1..] == rest && current + line == current;
    } else {
      assert s[0] == line[0] && s[1..] == line[1..] + [LF] + rest;
      ReadOneLine(line[1..], rest, current + [line[0]]);
      assert current + [line[0]] + line[1..] == current + line;
    }
  }

  lemma {:induction false} ReadBack(lines: seq<string>)
    requires forall l :: l in lines ==> OneLine(l)
    ensures ReadLines(TextOf(lines), "") == lines
  {
    if lines != [] {
      ReadOneLine(lines[0], TextOf(lines[1..]), "");
      ReadBack(lines[1..]);
      assert "" + lines[0] == lines[0];
    }
  }

  lemma {:induction false} ProcessConcat(p: Parser, a: seq<string>, b: seq<string>)
    ensures ProcessLines(p, a + b) == ProcessLines(ProcessLines(p, a), b)
    decreases |a|
  {
    if a == [] {
      assert a + b == b;
    } else {
      assert (a + b)[1..] == a[1..] + b;
      ProcessConcat(ProcessLine(p, a[0]), a[1..], b);
    }
  }

  lemma SseLinesAreLines(value: string)
    ensures forall l :: l in SseLines(value) ==> OneLine(l)
    ensures Join(SseLines(value), [LF]) == Normalize(value)
  {
    JoinUndoesSplit(Normalize(value), LF);
    forall l | l in SseLines(value) ensures OneLine(l) {
      if Normalize(value) != "" {
        SplitPartsFrom(Normalize(value), LF, l);
      }
    }
  }

  /** A line `name: value` is processed as that field with exactly that value. */
  lemma FieldLineIsField(p: Parser, name: string, value: string)
    requires name != "" && ':' !in name
    ensures ProcessLine(p, name + ": " + value) == ProcessField(p, name, value)
  {
    var line := name + ": " + value;
    assert line == name + [':'] + (" " + value);
    SplitOnceAtSeparator(name, ':', " " + value);
    assert line[0] == name[0];
    assert (" " + value)[1..] == value;
  }

  lemma {:induction false} CommentsAreIgnored(p: Parser, lines: seq<string>)
    ensures ProcessLines(p, Labelled("", lines)) == p
    decreases |lines|
  {
    if lines != [] {
      assert ("" + ": " + lines[0])[0] == ':';
      CommentsAreIgnored(p, lines[1..]);
    }
  }

  lemma {:induction false} IdLines(p: Parser, lines: seq<string>)
    ensures ProcessLines(p, Labelled("id", lines)) == p.(lastEventId := IdAfter(p.lastEventId, lines))
    decreases |lines|
  {
    if lines != [] {
      FieldLineIsField(p, "id", lines[0]);
      IdLines(ProcessField(p, "id", lines[0]), lines[1..]);
    }
  }

  lemma {:induction false} EventTypeLines(p: Parser, lines: seq<string>)
    requires lines != []
    ensures ProcessLines(p, Labelled("event", lines)) == p.(eventType := Last(lines))
    decreases |lines|
  {
    FieldLineIsField(p, "event", lines[0]);
    var p1 := ProcessField(p, "event", lines[0]);
    if |lines| == 1 {
      assert Labelled("event", lines)[1..] == [];
    } else {
      EventTypeLines(p1, lines[1..]);
    }
  }

  lemma {:induction false} DataLines(p: Parser, lines: seq<string>)
    ensures ProcessLines(p, Labelled("data", lines)) == p.(data := p.data + TextOf(lines))
    decreases |lines|
  {
    if lines == [] {
      assert p.data + TextOf(lines) == p.data;
    } else {
      FieldLineIsField(p, "data", lines[0]);
      var p1 := ProcessField(p, "data", lines[0]);
      DataLines(p1, lines[1..]);
      assert p.data + lines[0] + [LF] + TextOf(lines[1..]) == p.data + TextOf(lines);
    }
  }

  lemma RetryLine(p: Parser, retry: Option<nat>)
    ensures ProcessLines(p, RetryLines(retry)) == if retry.Some? then p.(reconnection := retry) else p
  {
    if retry.Some? {
      DecimalRoundTrip(retry.value);
      FieldLineIsField(p, "retry", ToDecimal(retry.value));
      assert "retry" + ": " + ToDecimal(retry.value) == "retry: " + ToDecimal(retry.value);
      assert ["retry: " + ToDecimal(retry.value)][1..] == [];
    }
  }

  lemma {:induction false} JoinedText(lines: seq<string>)
    requires lines != []
    ensures TextOf(lines) == Join(lines, [LF]) + [LF]
  {
    if |lines| == 1 {
      assert TextOf(lines[1..]) == "";
    } else {
      JoinedText(lines[1..]);
    }
  }

  /** The parser after the id, event type and retry lines of an event. */
  function AfterHeader(p: Parser, e: SseEvent): Parser
  {
    p.(lastEventId := match e.id case None => p.lastEventId case Some(id) => IdAfter(p.lastEventId, SseLines(id)),
       eventType := match e.event case None => p.eventType case Some(name) => Last(SseLines(name)),
       reconnection := if e.retry.Some? then e.retry else p.reconnection)
  }

  lemma HeaderIsProcessed(p: Parser, e: SseEvent)
    ensures ProcessLines(p, FieldLines("", e.comment) + FieldLines("id", e.id) + FieldLines("event", e.event) +
      RetryLines(e.retry))
      == AfterHeader(p, e)
  {
    hide ProcessLine, SseLines, RetryLines, Labelled, IdAfter, Last;
    var c, i, v, r := FieldLines("", e.comment), FieldLines("id", e.id), FieldLines("event", e.event),
      RetryLines(e.retry);
    ProcessConcat(p, c + i + v, r);
    ProcessConcat(p, c + i, v);
    ProcessConcat(p, c, i);
    if e.comment.Some? {
      CommentsAreIgnored(p, SseLines(e.comment.value));
    }
    if e.id.Some? {
      IdLines(p, SseLines(e.id.value));
    }
    var p1 := ProcessLines(p, i);
    if e.event.Some? {
      EventTypeLines(p1, SseLines(e.event.value));
    }
    RetryLine(ProcessLines(p1, v), e.retry);
  }

  /** The data lines and the empty line dispatch the event exactly when it has data. */
  lemma DataIsDispatched(p: Parser, data: Option<string>)
    requires p.data == ""
    ensures ProcessLines(p, FieldLines("data", data) + [""]) ==
      match data
      case None => p.(eventType := "")
      case Some(d) =>
        var eventType := if p.eventType == "" then "message" else p.eventType;
        p.(eventType := "", messages := p.messages + [Message(eventType, Normalize(d), p.lastEventId)])
  {
    hide ProcessLine, SseLines, Labelled, TextOf, Normalize;
    ProcessConcat(p, FieldLines("data", data), [""]);
    EndOfEvent(ProcessLines(p, FieldLines("data", data)));
    if data.Some? {
      var lines, text := SseLines(data.value), Normalize(data.value);
      DataLines(p, lines);
      JoinedText(lines);
      SseLinesAreLines(data.value);
      assert "" + TextOf(lines) == text + [LF];
      assert (text + [LF])[..|text|] == text;
    }
  }

  /** Processing the lines of one event at an event boundary is receiving that event. */
  lemma EventIsReceived(p: Parser, e: SseEvent)
    requires p.data == "" && p.eventType == ""
    ensures ProcessLines(p, EventLines(e)) == Receive(p, e)
  {
    hide ProcessLines, SseLines, FieldLines, RetryLines, Last, IdAfter;
    var header := FieldLines("", e.comment) + FieldLines("id", e.id) + FieldLines("event", e.event) +
      RetryLines(e.retry);
    HeaderIsProcessed(p, e);
    DataIsDispatched(AfterHeader(p, e), e.data);
    ProcessConcat(p, header, FieldLines("data", e.data) + [""]);
    assert header + (FieldLines("data", e.data) + [""]) == EventLines(e);
  }

  lemma EndOfEvent(p: Parser)
    ensures ProcessLines(p, [""]) == DispatchEvent(p)
  {
    assert [""][1..] == [];
  }

  lemma {:induction false} StreamIsReceived(p: Parser, events: seq<SseEvent>)
    requires p.data == "" && p.eventType == ""
    ensures ProcessLines(p, StreamLines(events)) == ReceiveAll(p, events)
    decreases |events|
  {
    if events != [] {
      ProcessConcat(p, EventLines(events[0]), StreamLines(events[1..]));
      EventIsReceived(p, events[0]);
      StreamIsReceived(Receive(p, events[0]), events[1..]);
    }
  }

  /** Single lines, none of which a decoder could mistake for a byte order mark. */
  ghost predicate StreamSafe(lines: seq<string>)
  {
    forall l :: l in lines ==> OneLine(l) && (l != "" ==> l[0] != BYTE_ORDER_MARK)
  }

  lemma SafeConcat(a: seq<string>, b: seq<string>)
    requires StreamSafe(a) && StreamSafe(b)
    ensures StreamSafe(a + b)
  {
  }

  lemma FieldLinesAreSafe(name: string, value: Option<string>)
    requires OneLine(name) && (name != "" ==> name[0] != BYTE_ORDER_MARK)
    ensures StreamSafe(FieldLines(name, value))
  {
    hide SseLines;
    if value.Some? {
      SseLinesAreLines(value.value);
      var lines := SseLines(value.value);
      forall i | 0 <= i < |lines|
        ensures OneLine(Labelled(name, lines)[i]) && Labelled(name, lines)[i][0] != BYTE_ORDER_MARK
      {
        assert lines[i] in lines;
      }
    }
  }

  lemma EventLinesAreSafe(e: SseEvent)
    ensures StreamSafe(EventLines(e))
  {
    hide FieldLines, StreamSafe;
    var c, i, v, r, d :=
      FieldLines("", e.comment), FieldLines("id", e.id), FieldLines("event", e.event), RetryLines(e.retry),
        FieldLines("data", e.data);
    FieldLinesAreSafe("", e.comment);
    FieldLinesAreSafe("id", e.id);
    FieldLinesAreSafe("event", e.event);
    FieldLinesAreSafe("data", e.data);
    RetryLinesAreSafe(e.retry);
    SafeConcat(c, i);
    SafeConcat(c + i, v);
    SafeConcat(c + i + v, r);
    SafeConcat(c + i + v + r, d);
    EmptyLineIsSafe();
    SafeConcat(c + i + v + r + d, [""]);
  }

  lemma EmptyLineIsSafe()
    ensures StreamSafe([""])
  {
  }

  lemma RetryLinesAreSafe(retry: Option<nat>)
    ensures StreamSafe(RetryLines(retry))
  {
    if retry.Some? {
      DecimalRoundTrip(retry.value);
    }
  }

  lemma {:induction false} StreamLinesAreSafe(events: seq<SseEvent>)
    ensures StreamSafe(StreamLines(events))
  {
    if events != [] {
      EventLinesAreSafe(events[0]);
      StreamLinesAreSafe(events[1..]);
      SafeConcat(EventLines(events[0]), StreamLines(events[1..]));
    }
  }

  /** Decoding any concatenation of encoded events by the standard dispatches exactly
      the events that have data, in order, each with its data (CRLF and CR turned into
      LF), type, and id, and picks up ids and reconnection times from all events. */
  lemma DecodeRecoversEvents(events: seq<SseEvent>)
    ensures Decode(TextOf(StreamLines(events))) == ReceiveAll(FRESH, events)
  {
    var lines := StreamLines(events);
    StreamLinesAreSafe(events);
    ReadBack(lines);
    StreamIsReceived(FRESH, events);
    if lines != [] {
      assert lines[0] in lines;
      assert TextOf(lines)[0] == if lines[0] == "" then LF else lines[0][0];
    }
  }

  /** An event with one-line values, written out. */
  lemma WrittenOut(comment: string, id: string, name: string, retry: nat, data: string)
    requires OneLine(comment) && OneLine(id) && OneLine(name) && OneLine(data)
    ensures TextOf(EventLines(SseEvent(Some(id), Some(name), Some(retry), Some(comment), Some(data))))
         == (": " + comment + "\n") + ("id: " + id + "\n") + ("event: " + name + "\n")
            + ("retry: " + ToDecimal(retry) + "\n") + ("data: " + data + "\n") + "\n"
  {
    var e := SseEvent(Some(id), Some(name), Some(retry), Some(comment), Some(data));
    OneLineWritten("", comment);
    OneLineWritten("id", id);
    OneLineWritten("event", name);
    OneLineWritten("data", data);
    EventText(e);
    assert [LF] == "\n" && "" + ": " == ": " && "id" + ": " == "id: ";
    assert "event" + ": " == "event: " && "data" + ": " == "data: ";
    hide TextOf, FieldLines, RetryLines, EventLines, ToDecimal;
  }

  lemma OneLineWritten(name: string, value: string)
    requires OneLine(value)
    ensures TextOf(FieldLines(name, Some(value))) == name + ": " + value + [LF]
  {
    OneLineIsNormal(value);
    SplitWithoutSeparator(value, LF);
    assert SseLines(value) == [value];
    assert Labelled(name, [value]) == [name + ": " + value];
    assert [name + ": " + value][1..] == [];
  }

  /** A stream built event by event is the text of all their lines. */
  lemma {:induction false} StreamIsConcatenation(events: seq<SseEvent>)
    ensures TextOf(StreamLines(events)) == Concatenated(events)
  {
    if events != [] {
      TextOfConcat(EventLines(events[0]), StreamLines(events[1..]));
      StreamIsConcatenation(events[1..]);
    }
  }

  function Concatenated(events: seq<SseEvent>): string
  {
    if events == [] then "" else TextOf(EventLines(events[0])) + Concatenated(events[1..])
  }

  /** One message per event with data. */
  lemma {:induction false} OneMessagePerDataEvent(p: Parser, events: seq<SseEvent>)
    ensures |ReceiveAll(p, events).messages| == |p.messages| + CountData(events)
    decreases |events|
  {
    if events != [] {
      OneMessagePerDataEvent(Receive(p, events[0]), events[1..]);
    }
  }

  function CountData(events: seq<SseEvent>): nat
  {
    if events == [] then 0 else (if events[0].data.Some? then 1 else 0) + CountData(events[1..])
  }

  lemma {:induction false} OneLineIsNormal(s: string)
    requires OneLine(s)
    ensures ReplaceCrLf(s) == s && ReplaceCr(s) == s
  {
    if s != "" {
      OneLineIsNormal(s[1..]);
    }
  }

  /** A single event with a newline-free name, a newline- and NUL-free id, a retry value
      and any data arrives as exactly that: name (or "message"), id, retry and the data
      with its line ends normalised. */
  lemma SingleEventRoundTrip(id: string, name: string, retry: nat, comment: Option<string>, data: string)
    requires OneLine(id) && '\0' !in id && OneLine(name)
    ensures
      var p := Decode(TextOf(EventLines(SseEvent(Some(id), Some(name), Some(retry), comment, Some(data)))));
      && p.messages == [Message(if name == "" then "message" else name, Normalize(data), id)]
      && p.lastEventId == id && p.reconnection == Some(retry)
  {
    var e := SseEvent(Some(id), Some(name), Some(retry), comment, Some(data));
    DecodeRecoversEvents([e]);
    assert [e][1..] == [];
    assert StreamLines([e]) == EventLines(e);
    OneLineIsNormal(id);
    OneLineIsNormal(name);
    SplitWithoutSeparator(id, LF);
    SplitWithoutSeparator(name, LF);
    assert SseLines(id) == [id] && SseLines(name) == [name];
    assert IdAfter("", [id]) == id by {
      assert [id][1..] == [];
    }
    assert ReceiveAll(FRESH, [e]) == Receive(FRESH, e);
  }
}
