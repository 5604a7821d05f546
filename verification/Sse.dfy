/** The incremental server-sent-event parser of hfusionhub-frontend/src/utils/sse.ts. */
module Sse {
  import opened Common
  import opened Text

  datatype Event = Data(data: string) | Done

  /** `parseLine`: at most one event; only `data:` fields count. */
  function ParseLine(raw: string): seq<Event> {
    var line := if raw != [] && raw[|raw| - 1] == '\r' then raw[..|raw| - 1] else raw;
    if !("data:" <= line) then []
    else
      var data := Trim(line[5..], JsSpace);
      if data == [] then [] else if data == "[DONE]" then [Done] else [Data(data)]
  }

  function ParseLines(lines: seq<string>): seq<Event> {
    if lines == [] then [] else ParseLine(lines[0]) + ParseLines(lines[1..])
  }

  lemma {:induction false} ParseLinesConcat(a: seq<string>, b: seq<string>)
    ensures ParseLines(a + b) == ParseLines(a) + ParseLines(b)
  {
    if a == [] {
      assert a + b == b;
    } else {
      assert (a + b)[1..] == a[1..] + b;
      ParseLinesConcat(a[1..], b);
    }
  }

  lemma ParseLinesOne(line: string)
    ensures ParseLines([line]) == ParseLine(line)
  {
    assert ParseLines([line]) == ParseLine(line) + ParseLines([]);
  }

  /** The events of a whole text: those of its lines, in order. */
  function EventsOf(text: string): seq<Event> {
    ParseLines(SplitLines(text))
  }

  /** The events of the lines that a newline has closed. */
  function ClosedEvents(text: string): seq<Event> {
    ParseLines(CompleteLines(text))
  }

  class SseDataParser {
    var buffer: string

    constructor ()
      ensures buffer == ""
    {
      buffer := "";
    }

    method Push(chunk: string) returns (events: seq<Event>)
      modifies this
      ensures buffer == LastLine(old(buffer) + chunk)
      ensures events == ClosedEvents(old(buffer) + chunk)
    {
      buffer := buffer + chunk;
      var lines := SplitLines(buffer);
      buffer := lines[|lines| - 1];
      events := ParseLines(lines[..|lines| - 1]);
    }

    method Flush() returns (events: seq<Event>)
      modifies this
      ensures buffer == ""
      ensures events == ParseLine(old(buffer))
    {
      if buffer == "" {
        return [];
      }
      var line := buffer;
      buffer := "";
      events := ParseLine(line);
    }
  }

  /** Closing the parser's buffer after `seen` and reading `chunk` gives the events that the
      whole text `seen + chunk` adds to those of `seen`. */
  lemma PushAdds(seen: string, chunk: string)
    ensures ClosedEvents(seen + chunk) == ClosedEvents(seen) + ClosedEvents(LastLine(seen) + chunk)
    ensures LastLine(seen + chunk) == LastLine(LastLine(seen) + chunk)
  {
    SplitLinesConcat(seen, chunk);
    var a, b := CompleteLines(seen), SplitLines(LastLine(seen) + chunk);
    assert CompleteLines(seen + chunk) == a + b[..|b| - 1];
    ParseLinesConcat(a, b[..|b| - 1]);
  }

  lemma ClosedThenLast(text: string)
    ensures EventsOf(text) == ClosedEvents(text) + ParseLine(LastLine(text))
  {
    var lines := SplitLines(text);
    assert lines == lines[..|lines| - 1] + [LastLine(text)];
    ParseLinesConcat(lines[..|lines| - 1], [LastLine(text)]);
    ParseLinesOne(LastLine(text));
  }

  /** Parsing does not depend on chunking: pushing the chunks one after the other and flushing
      yields the events of the concatenated text, whatever the chunks are. */
  method ParseChunks(chunks: seq<string>) returns (events: seq<Event>)
    ensures events == EventsOf(Flatten(chunks))
  {
    var parser := new SseDataParser();
    events := [];
    assert SplitLines("") == [""];
    for k := 0 to |chunks|
      invariant parser.buffer == LastLine(Flatten(chunks[..k]))
      invariant events == ClosedEvents(Flatten(chunks[..k]))
    {
      PushAdds(Flatten(chunks[..k]), chunks[k]);
      FlattenSnoc(chunks, k);
      var more := parser.Push(chunks[k]);
      events := events + more;
    }
    assert chunks[..|chunks|] == chunks;
    ClosedThenLast(Flatten(chunks));
    var rest := parser.Flush();
    events := events + rest;
  }

  // ---- the printer ---------------------------------------------------------------------

  /** `f"data: {json}\n\n"`. */
  function Frame(json: string): string {
    "data: " + json + "\n\n"
  }

  const DONE_FRAME := "data: [DONE]\n\n"

  /** The text of a JSON object on one line. */
  predicate OneLineObject(json: string) {
    |json| >= 2 && json[0] == '{' && json[|json| - 1] == '}' && '\n' !in json
  }

  function Print(payloads: seq<string>): string {
    if payloads == [] then DONE_FRAME else Frame(payloads[0]) + Print(payloads[1..])
  }

  function Expected(payloads: seq<string>): seq<Event> {
    if payloads == [] then [Done] else [Data(payloads[0])] + Expected(payloads[1..])
  }

  lemma DataLineParses(data: string)
    requires Trimmed(data, JsSpace)
    ensures ParseLine("data: " + data) == [if data == "[DONE]" then Done else Data(data)]
  {
    var line := "data: " + data;
    assert JsSpace('\r') && line[|line| - 1] == data[|data| - 1];
    var field := line[5..];
    assert line[..5] == "data:" && field[0] == ' ' && field[1..] == data;
    assert TrimLeft(field, JsSpace) == TrimLeft(data, JsSpace) == data;
    TrimOfTrimmed(data, JsSpace);
  }

  /** What a line means: only `data:` fields count, blanks around their text do not, and a
      blank field is no event. */
  lemma LineMeans(line: string, left: string, data: string, right: string)
    requires AllSpace(left, JsSpace) && AllSpace(right, JsSpace) && (data == [] || Trimmed(data, JsSpace))
    ensures !("data:" <= line) ==> ParseLine(line) == []
    ensures ParseLine("data:" + left + data + right)
         == if data == "[DONE]" then [Done] else if data == "" then [] else [Data(data)]
  {
    var field := left + data + right;
    var raw := "data:" + field;
    assert "data:" + left + data + right == raw;
    TrimPadded(left, data, right, JsSpace);
    assert raw[5..] == field;
    if field != [] && field[|field| - 1] == '\r' {
      BlankEnd(left, data, right);
      assert raw[..|raw| - 1] == "data:" + field[..|field| - 1];
      assert raw[..|raw| - 1][5..] == field[..|field| - 1];
    }
  }

  lemma LastOf(a: string, b: string)
    ensures b != [] ==> (a + b)[|a + b| - 1] == b[|b| - 1]
  {
  }

  lemma BlankEnd(left: string, data: string, right: string)
    requires AllSpace(left, JsSpace) && AllSpace(right, JsSpace) && (data == [] || Trimmed(data, JsSpace))
    requires left + data + right != [] && JsSpace((left + data + right)[|left + data + right| - 1])
    ensures Trim((left + data + right)[..|left + data + right| - 1], JsSpace) == data
  {
    var field := left + data + right;
    if right != [] {
      assert field[..|field| - 1] == left + data + right[..|right| - 1];
      TrimPadded(left, data, right[..|right| - 1], JsSpace);
    } else {
      assert field == left + data;
      LastOf(left, data);
      assert field[..|field| - 1] == left[..|left| - 1] + [] + [];
      TrimPadded(left[..|left| - 1], [], [], JsSpace);
    }
  }

  lemma SplitAtBlank(line: string, rest: string)
    requires '\n' !in line
    ensures SplitLines(line + "\n\n" + rest) == [line, []] + SplitLines(rest)
  {
    var blank := [] + "\n" + rest;
    assert line + "\n\n" + rest == line + "\n" + blank;
    SplitAtNewline(line, blank);
    SplitAtNewline([], rest);
    SplitNoNewline(line);
    assert [line] + ([[]] + SplitLines(rest)) == [line, []] + SplitLines(rest);
  }

  lemma LineThenBlank(line: string, rest: string)
    requires '\n' !in line
    ensures EventsOf(line + "\n\n" + rest) == ParseLine(line) + EventsOf(rest)
  {
    SplitAtBlank(line, rest);
    ParseLinesConcat([line, []], SplitLines(rest));
    LineAndBlank(line);
  }

  lemma BlankLine()
    ensures ParseLine([]) == []
  {
  }

  lemma LineAndBlank(line: string)
    ensures ParseLines([line, []]) == ParseLine(line)
  {
    assert [line, []] == [line] + [[]];
    ParseLinesConcat([line], [[]]);
    ParseLinesOne(line);
    ParseLinesOne([]);
    BlankLine();
  }

  /** One frame followed by anything parses to its payload followed by what the rest parses to. */
  lemma FrameParses(data: string, rest: string)
    requires Trimmed(data, JsSpace) && '\n' !in data
    ensures EventsOf(Frame(data) + rest)
         == [if data == "[DONE]" then Done else Data(data)] + EventsOf(rest)
  {
    DataLineParses(data);
    LineThenBlank("data: " + data, rest);
  }

  /** Printer and parser undo each other. */
  lemma {:induction false} PrintParses(payloads: seq<string>)
    requires forall k :: 0 <= k < |payloads| ==> OneLineObject(payloads[k])
    ensures EventsOf(Print(payloads)) == Expected(payloads)
  {
    if payloads == [] {
      FrameParses("[DONE]", "");
      assert DONE_FRAME + "" == DONE_FRAME == Frame("[DONE]");
      assert SplitLines("") == [""];
      ParseLinesOne("");
    } else {
      PrintParses(payloads[1..]);
      FrameParses(payloads[0], Print(payloads[1..]));
    }
  }

  // ---- the event loop of consumeSseJsonStream ------------------------------------------

  /** What JSON.parse makes of an event's text, as far as the loop looks at it. */
  datatype Parsed = NotJson | NullValue | Value(tag: Option<string>)

  datatype Ended = Running | Finished | Failed

  /** What the callbacks have been given so far, and whether the loop has been left. */
  datatype Outcome = Outcome(delivered: seq<string>, ended: Ended)

  /** One event.  `eventType == ""` stands for no filter; with a filter, reading the `type` of
      a JSON `null` throws, which ends the loop in `onError`. */
  function Handle(o: Outcome, e: Event, json: string -> Parsed, eventType: string): Outcome {
    if o.ended != Running then o
    else match e
      case Done => o.(ended := Finished)
      case Data(text) =>
        match json(text)
        case NotJson => o
        case NullValue => if eventType != "" then o.(ended := Failed) else o.(delivered := o.delivered + [text])
        case Value(tag) =>
          if eventType != "" && tag != Some(eventType) then o else o.(delivered := o.delivered + [text])
  }

  function HandleAll(o: Outcome, es: seq<Event>, json: string -> Parsed, eventType: string): Outcome {
    if es == [] then o
    else Handle(HandleAll(o, es[..|es| - 1], json, eventType), es[|es| - 1], json, eventType)
  }

  lemma {:induction false} HandleConcat(o: Outcome, a: seq<Event>, b: seq<Event>, json: string -> Parsed,
      eventType: string)
    ensures HandleAll(o, a + b, json, eventType) == HandleAll(HandleAll(o, a, json, eventType), b, json, eventType)
    decreases |b|
  {
    if b == [] {
      assert a + b == a;
    } else {
      assert (a + b)[..|a + b| - 1] == a + b[..|b| - 1];
      HandleConcat(o, a, b[..|b| - 1], json, eventType);
    }
  }

  lemma {:induction false} HandleStopped(o: Outcome, es: seq<Event>, json: string -> Parsed, eventType: string)
    requires o.ended != Running
    ensures HandleAll(o, es, json, eventType) == o
  {
    if es != [] {
      HandleStopped(o, es[..|es| - 1], json, eventType);
    }
  }

  const START := Outcome([], Running)

  /** What the loop hands to `onData`, by the text received alone: the events of the closed
      lines.  It never calls `flush`. */
  function Consumed(text: string, json: string -> Parsed, eventType: string): Outcome {
    HandleAll(START, ClosedEvents(text), json, eventType)
  }

  /** The inner loop: the events of one chunk, until one of them ends the stream. */
  method Dispatch(before: Outcome, events: seq<Event>, json: string -> Parsed, eventType: string) returns (out: Outcome)
    requires before.ended == Running
    ensures out == HandleAll(before, events, json, eventType)
  {
    out := before;
    for i := 0 to |events|
      invariant out == HandleAll(before, events[..i], json, eventType)
      invariant out.ended == Running
    {
      assert events[..i + 1][..i] == events[..i];
      out := Handle(out, events[i], json, eventType);
      if out.ended != Running {
        assert events == events[..i + 1] + events[i + 1..];
        HandleConcat(before, events[..i + 1], events[i + 1..], json, eventType);
        HandleStopped(out, events[i + 1..], json, eventType);
        return;
      }
    }
    assert events[..|events|] == events;
  }

  method ConsumeSseJsonStream(chunks: seq<string>, json: string -> Parsed, eventType: string)
    returns (delivered: seq<string>, ended: Ended)
    ensures delivered == Consumed(Flatten(chunks), json, eventType).delivered
    ensures var e := Consumed(Flatten(chunks), json, eventType).ended;
            ended == if e == Running then Finished else e
  {
    var parser := new SseDataParser();
    var out := START;
    assert SplitLines("") == [""];
    for k := 0 to |chunks|
      invariant parser.buffer == LastLine(Flatten(chunks[..k]))
      invariant out == Consumed(Flatten(chunks[..k]), json, eventType)
      invariant out.ended == Running
    {
      var seen := Flatten(chunks[..k]);
      PushAdds(seen, chunks[k]);
      FlattenSnoc(chunks, k);
      var events := parser.Push(chunks[k]);
      HandleConcat(START, ClosedEvents(seen), events, json, eventType);
      out := Dispatch(out, events, json, eventType);
      if out.ended != Running {
        LaterChunksIgnored(chunks, k + 1, json, eventType);
        return out.delivered, out.ended;
      }
    }
    assert chunks[..|chunks|] == chunks;
    return out.delivered, Finished;
  }

  lemma LaterChunksIgnored(chunks: seq<string>, k: nat, json: string -> Parsed, eventType: string)
    requires k <= |chunks|
    requires Consumed(Flatten(chunks[..k]), json, eventType).ended != Running
    ensures Consumed(Flatten(chunks), json, eventType) == Consumed(Flatten(chunks[..k]), json, eventType)
  {
    var seen, rest := Flatten(chunks[..k]), Flatten(chunks[k..]);
    assert chunks == chunks[..k] + chunks[k..];
    FlattenConcat(chunks[..k], chunks[k..]);
    PushAdds(seen, rest);
    HandleConcat(START, ClosedEvents(seen), ClosedEvents(LastLine(seen) + rest), json, eventType);
    HandleStopped(Consumed(seen, json, eventType), ClosedEvents(LastLine(seen) + rest), json, eventType);
  }

  /** The texts of the events in front of the end of the stream. */
  function DataTexts(es: seq<Event>): seq<string> {
    if es == [] then []
    else DataTexts(es[..|es| - 1]) + match es[|es| - 1] case Data(text) => [text] case Done => []
  }

  lemma {:induction false} AllHandled(es: seq<Event>, json: string -> Parsed, eventType: string)
    requires forall i :: 0 <= i < |es| ==> es[i].Data? && (eventType == "" || json(es[i].data) != NullValue)
    ensures HandleAll(START, es, json, eventType) == Outcome(
      Filter(DataTexts(es),
        (t: string) => json(t) != NotJson && (eventType == "" || json(t) == Value(Some(eventType)))), Running)
  {
    if es != [] {
      var init, last := es[..|es| - 1], es[|es| - 1];
      assert forall i :: 0 <= i < |init| ==> init[i] == es[i];
      AllHandled(init, json, eventType);
      FilterConcat(DataTexts(init), [last.data],
        (t: string) => json(t) != NotJson && (eventType == "" || json(t) == Value(Some(eventType))));
    }
  }

  /** What the loop delivers from a list of events: up to the first `[DONE]` or, with a filter,
      the first JSON `null`, the texts that are JSON and, with a filter, carry that type. */
  lemma DeliveredAre(es: seq<Event>, n: nat, json: string -> Parsed, eventType: string)
    requires n <= |es|
    requires forall i :: 0 <= i < n ==> es[i].Data? && (eventType == "" || json(es[i].data) != NullValue)
    requires n < |es| ==> es[n] == Done || (eventType != "" && json(es[n].data) == NullValue)
    ensures HandleAll(START, es, json, eventType).delivered ==
      Filter(DataTexts(es[..n]),
        (t: string) => json(t) != NotJson && (eventType == "" || json(t) == Value(Some(eventType))))
    ensures HandleAll(START, es, json, eventType).ended ==
      if n == |es| then Running else if es[n] == Done then Finished else Failed
  {
    AllHandled(es[..n], json, eventType);
    if n == |es| {
      assert es[..n] == es;
    } else {
      assert es == es[..n + 1] + es[n + 1..] && es[..n + 1][..n] == es[..n];
      HandleConcat(START, es[..n + 1], es[n + 1..], json, eventType);
      HandleStopped(HandleAll(START, es[..n + 1], json, eventType), es[n + 1..], json, eventType);
    }
  }

  lemma AtMostOneEvent(line: string)
    ensures |ParseLine(line)| <= 1
  {
  }

  /** Whether a single event is delivered depends on the loop still running, and on the event. */
  lemma DeliversAlike(o: Outcome, es: seq<Event>, json: string -> Parsed, eventType: string)
    requires |es| <= 1
    ensures HandleAll(o, es, json, eventType).delivered == o.delivered
       <==> o.ended != Running || HandleAll(START, es, json, eventType).delivered == []
  {
    if es != [] {
      assert es[..0] == [];
      assert HandleAll(o, es, json, eventType) == Handle(o, es[0], json, eventType);
      assert HandleAll(START, es, json, eventType) == Handle(START, es[0], json, eventType);
    }
  }

  /** Without the flush, a final line that no newline closes is lost: the loop delivers what
      the text as a whole carries exactly when it had stopped before, or the last line holds
      nothing to deliver. */
  lemma LastLineLost(text: string, json: string -> Parsed, eventType: string)
    ensures HandleAll(START, EventsOf(text), json, eventType).delivered == Consumed(text, json, eventType).delivered
       <==> Consumed(text, json, eventType).ended != Running ||
            HandleAll(START, ParseLine(LastLine(text)), json, eventType).delivered == []
  {
    ClosedThenLast(text);
    var last := ParseLine(LastLine(text));
    HandleConcat(START, ClosedEvents(text), last, json, eventType);
    AtMostOneEvent(LastLine(text));
    DeliversAlike(Consumed(text, json, eventType), last, json, eventType);
  }

  lemma UnclosedLineLost(data: string, json: string -> Parsed)
    requires Trimmed(data, JsSpace) && '\n' !in data && data != "[DONE]" && json(data).Value?
    ensures Consumed("data: " + data + "\n", json, "").delivered == [data]
    ensures Consumed("data: " + data, json, "").delivered == []
  {
    var line := "data: " + data;
    SplitNoNewline(line);
    assert CompleteLines(line) == [];
    assert line + "\n" == line + "\n" + [];
    SplitAtNewline(line, []);
    assert CompleteLines(line + "\n") == [line];
    ParseLinesOne(line);
    DataLineParses(data);
    DeliversOne(data, json);
  }

  lemma DeliversOne(data: string, json: string -> Parsed)
    requires json(data).Value?
    ensures HandleAll(START, [Data(data)], json, "").delivered == [data]
  {
    assert [Data(data)][..0] == [];
    assert HandleAll(START, [Data(data)], json, "") == Handle(START, Data(data), json, "");
  }

  /** The loss happens: an object is delivered behind a final newline, and lost without. */
  lemma LastLineCanBeLost(json: string -> Parsed)
    requires json("{}") == Value(None)
    ensures Consumed("data: " + "{}" + "\n", json, "").delivered == ["{}"]
    ensures Consumed("data: " + "{}", json, "").delivered == []
  {
    UnclosedLineLost("{}", json);
  }
}
