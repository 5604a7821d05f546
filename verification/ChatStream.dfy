/** The agent chat stream of python-ai/app/api/chat.py: the event generator of
    `agent_v1_chat_stream`, and the output guard `_content_guarded_sse` that wraps it. */
module ChatStream {
  import opened Common
  import opened Text

  datatype Kind =
    | RunStarted | RunCompleted | RunError | ApprovalRequired | StepCompleted | OtherEvent
    | Sources | ContentReset | Content | Replacement | Cancelled | Failed

  /** A frame: the sentinel `data: [DONE]`, or a JSON object with the fields that the guard
      looks at (`content` is "" where the object has no such string). */
  datatype Frame = Sentinel | Payload(kind: Kind, content: string, cancelled: bool, failed: bool)

  function Plain(kind: Kind, content: string): Frame {
    Payload(kind, content, false, false)
  }

  /** What the agent yields: plain text, or the text of a JSON object. */
  datatype Chunk =
    | NotAnObject(text: string)
    | Object(text: string, event: Option<Kind>, sources: bool, evaluation: bool, reset: bool,
             content: string, cancelled: bool, failed: bool)

  /** `_agent_chunk_to_sse`. */
  function AgentChunkToSse(c: Chunk): Option<Frame> {
    match c
    case NotAnObject(text) => Some(Plain(Content, text))
    case Object(text, event, sources, evaluation, reset, content, cancelled, failed) =>
      if event.Some? then Some(Payload(event.value, content, cancelled, failed))
      else if sources then Some(Plain(Sources, ""))
      else if evaluation then None
      else if reset then Some(Plain(ContentReset, ""))
      else Some(Plain(Content, text))
  }

  predicate Terminal(c: Chunk) {
    c.Object? && c.event in {Some(RunError), Some(ApprovalRequired)}
  }

  datatype Ending = Normal | CancelledError | Exception

  // ---- the event generator -------------------------------------------------------------

  /** What is sent for a chunk.  With a vision fallback, whatever has content is held back,
      events included. */
  function Forward(c: Chunk, vision: bool): seq<Frame> {
    var f := AgentChunkToSse(c);
    if f == None || (vision && f.value.content != "") then [] else [f.value]
  }

  function Passed(chunks: seq<Chunk>, vision: bool): seq<Frame> {
    if chunks == [] then [] else Passed(chunks[..|chunks| - 1], vision) + Forward(chunks[|chunks| - 1], vision)
  }

  function HeldBack(chunks: seq<Chunk>): string {
    if chunks == [] then ""
    else
      var f := AgentChunkToSse(chunks[|chunks| - 1]);
      HeldBack(chunks[..|chunks| - 1]) + (if f == None then "" else f.value.content)
  }

  predicate SawTerminal(chunks: seq<Chunk>) {
    exists i :: 0 <= i < |chunks| && Terminal(chunks[i])
  }

  predicate Blank(s: string) {
    Trim(s, PySpace) == ""
  }

  /** The held-back answer, or the vision model's one where the agent has none or refuses. */
  function VisionAnswer(answer: string, vision: Option<string>, refusal: string -> bool): seq<Frame> {
    if vision == None then []
    else [Plain(Content, if !Blank(answer) && !refusal(answer) then answer else vision.value)]
  }

  /** The events that the endpoint adds itself, in front of the sentinel. */
  function Final(ending: Ending, sawTerminal: bool): seq<Frame> {
    match ending
    case Normal => if sawTerminal then [] else [Plain(RunCompleted, "")]
    case CancelledError => [Plain(RunError, ""), Payload(Cancelled, "", true, false)]
    case Exception => [Plain(RunError, ""), Payload(Failed, "", false, true)]
  }

  /** What follows the agent's frames, before the sentinel. */
  function Closing(chunks: seq<Chunk>, ending: Ending, vision: Option<string>, refusal: string -> bool): seq<Frame> {
    (if ending == Normal then VisionAnswer(HeldBack(chunks), vision, refusal) else []) +
      Final(ending, SawTerminal(chunks))
  }

  function Stream(chunks: seq<Chunk>, ending: Ending, vision: Option<string>, refusal: string -> bool): seq<Frame> {
    [Plain(RunStarted, "")] + Passed(chunks, vision.Some?) + Closing(chunks, ending, vision, refusal) + [Sentinel]
  }

  /** The agent yields `chunks` and then ends as `ending` says. */
  method EventGenerator(chunks: seq<Chunk>, ending: Ending, vision: Option<string>, refusal: string -> bool)
    returns (frames: seq<Frame>)
    ensures frames == Stream(chunks, ending, vision, refusal)
  {
    var terminalEventEmitted := false;
    var buffered := "";
    frames := [Plain(RunStarted, "")];
    var sent := [];
    for i := 0 to |chunks|
      invariant sent == Passed(chunks[..i], vision.Some?)
      invariant vision.Some? ==> buffered == HeldBack(chunks[..i])
      invariant terminalEventEmitted == SawTerminal(chunks[..i])
    {
      var chunk := chunks[i];
      ForwardedSnoc(chunks, i, vision.Some?);
      TerminalSnoc(chunks, i);
      if Terminal(chunk) {
        terminalEventEmitted := true;
      }
      var event := AgentChunkToSse(chunk);
      if event == None {
        continue;
      }
      if vision.Some? && event.value.content != "" {
        buffered := buffered + event.value.content;
        continue;
      }
      sent := sent + [event.value];
    }
    assert chunks[..|chunks|] == chunks;
    var closing := CloseStream(ending, terminalEventEmitted, buffered, vision, refusal);
    assert closing == Closing(chunks, ending, vision, refusal);
    frames := frames + sent + closing + [Sentinel];
  }

  /** The end of the try block, and its except clauses. */
  method CloseStream(ending: Ending, terminalEventEmitted: bool, buffered: string, vision: Option<string>,
      refusal: string -> bool)
    returns (frames: seq<Frame>)
    ensures frames ==
      (if ending == Normal then VisionAnswer(buffered, vision, refusal) else []) + Final(ending, terminalEventEmitted)
  {
    frames := [];
    match ending {
      case Normal =>
        if vision.Some? {
          if !Blank(buffered) && !refusal(buffered) {
            frames := frames + [Plain(Content, buffered)];
          } else {
            frames := frames + [Plain(Content, vision.value)];
          }
        }
        if !terminalEventEmitted {
          frames := frames + [Plain(RunCompleted, "")];
        }
      case CancelledError =>
        frames := frames + [Plain(RunError, ""), Payload(Cancelled, "", true, false)];
      case Exception =>
        frames := frames + [Plain(RunError, ""), Payload(Failed, "", false, true)];
    }
  }

  lemma ForwardedSnoc(chunks: seq<Chunk>, i: nat, vision: bool)
    requires i < |chunks|
    ensures Passed(chunks[..i + 1], vision) == Passed(chunks[..i], vision) + Forward(chunks[i], vision)
    ensures HeldBack(chunks[..i + 1]) == HeldBack(chunks[..i]) +
      (if AgentChunkToSse(chunks[i]) == None then "" else AgentChunkToSse(chunks[i]).value.content)
  {
    assert chunks[..i + 1][..i] == chunks[..i];
  }

  lemma TerminalSnoc(chunks: seq<Chunk>, i: nat)
    requires i < |chunks|
    ensures SawTerminal(chunks[..i + 1]) <==> SawTerminal(chunks[..i]) || Terminal(chunks[i])
  {
    var a, b := chunks[..i], chunks[..i + 1];
    if SawTerminal(a) {
      var k :| 0 <= k < |a| && Terminal(a[k]);
      assert b[k] == a[k];
    }
    if Terminal(chunks[i]) {
      assert b[i] == chunks[i];
    }
  }

  // ---- the output guard ----------------------------------------------------------------

  const GUARDED_RESPONSE := "抱歉，我无法提供该内容（内容安全校验未通过）。"

  const REPLACE_FRAME := Plain(Replacement, GUARDED_RESPONSE)

  /** The frame's content counts as part of the answer. */
  predicate Counts(f: Frame) {
    f.Payload? && f.content != "" && !f.cancelled && !f.failed
  }

  function Accumulated(frames: seq<Frame>): string {
    if frames == [] then ""
    else Accumulated(frames[..|frames| - 1]) +
         (if Counts(frames[|frames| - 1]) then frames[|frames| - 1].content else "")
  }

  /** The frames before the first sentinel. */
  function BeforeDone(frames: seq<Frame>): (r: seq<Frame>)
    ensures r <= frames && Sentinel !in r
    ensures r == frames <==> Sentinel !in frames
    ensures r != frames ==> frames[|r|] == Sentinel
  {
    if frames == [] || frames[0] == Sentinel then []
    else
      var rest := BeforeDone(frames[1..]);
      assert frames == [frames[0]] + frames[1..];
      [frames[0]] + rest
  }

  predicate Blocked(text: string, violates: string -> bool) {
    !Blank(text) && violates(text)
  }

  /** `_content_guarded_sse`; `violates` is the policy engine's verdict. */
  method ContentGuardedSse(inner: seq<Frame>, violates: string -> bool) returns (out: seq<Frame>)
    ensures var shown := BeforeDone(inner);
      out == shown + (if Blocked(Accumulated(shown), violates) then [REPLACE_FRAME] else [])
                   + (if Sentinel in inner then [Sentinel] else [])
  {
    out := [];
    var accumulated := "";
    var doneSeen := false;
    var i := 0;
    while i < |inner| && !doneSeen
      invariant 0 <= i <= |inner|
      invariant out == inner[..i] && Sentinel !in out
      invariant accumulated == Accumulated(out)
      invariant doneSeen ==> i < |inner| && inner[i] == Sentinel
      decreases |inner| - i, if doneSeen then 0 else 1
    {
      if inner[i] == Sentinel {
        doneSeen := true;
      } else {
        assert inner[..i + 1][..i] == inner[..i];
        if Counts(inner[i]) {
          accumulated := accumulated + inner[i].content;
        }
        out := out + [inner[i]];
        i := i + 1;
      }
    }
    BeforeDoneIs(inner, i);
    if !Blank(accumulated) && violates(accumulated) {
      out := out + [REPLACE_FRAME];
    }
    if doneSeen {
      out := out + [Sentinel];
    }
  }

  lemma {:induction false} BeforeDoneIs(frames: seq<Frame>, i: nat)
    requires i <= |frames| && Sentinel !in frames[..i]
    requires i < |frames| ==> frames[i] == Sentinel
    ensures BeforeDone(frames) == frames[..i]
  {
    if i > 0 {
      assert frames[..i][1..] == frames[1..][..i - 1];
      assert frames[0] == frames[..i][0];
      assert frames[1..][..i - 1] == frames[1..i];
      BeforeDoneIs(frames[1..], i - 1);
    }
  }

  /** What the guard sends for an inner stream. */
  function Guarded(inner: seq<Frame>, violates: string -> bool): seq<Frame> {
    var shown := BeforeDone(inner);
    shown + (if Blocked(Accumulated(shown), violates) then [REPLACE_FRAME] else [])
          + (if Sentinel in inner then [Sentinel] else [])
  }

  // ---- the shape of every stream -------------------------------------------------------

  lemma {:induction false} PassedHasNoSentinel(chunks: seq<Chunk>, vision: bool)
    ensures Sentinel !in Passed(chunks, vision)
  {
    if chunks != [] {
      PassedHasNoSentinel(chunks[..|chunks| - 1], vision);
    }
  }

  /** A stream is its start, frames other than the sentinel, and the sentinel. */
  lemma StreamEnds(chunks: seq<Chunk>, ending: Ending, vision: Option<string>, refusal: string -> bool)
    ensures var inner := Stream(chunks, ending, vision, refusal);
      |inner| >= 2 && inner[0] == Plain(RunStarted, "") && inner[|inner| - 1] == Sentinel &&
        Sentinel !in inner[..|inner| - 1]
  {
    PassedHasNoSentinel(chunks, vision.Some?);
    var closing := Closing(chunks, ending, vision, refusal);
    assert Sentinel !in closing;
    var inner := Stream(chunks, ending, vision, refusal);
    assert inner[..|inner| - 1] == [Plain(RunStarted, "")] + Passed(chunks, vision.Some?) + closing;
  }

  lemma GuardedStream(shown: seq<Frame>, violates: string -> bool)
    requires Sentinel !in shown
    ensures Guarded(shown + [Sentinel], violates)
         == if Blocked(Accumulated(shown), violates) then shown + [REPLACE_FRAME, Sentinel] else shown + [Sentinel]
  {
    var inner := shown + [Sentinel];
    assert inner[..|shown|] == shown;
    BeforeDoneIs(inner, |shown|);
    assert BeforeDone(inner) == shown && inner[|shown|] == Sentinel;
    assert shown + [REPLACE_FRAME] + [Sentinel] == shown + [REPLACE_FRAME, Sentinel];
    assert shown + [] + [Sentinel] == shown + [Sentinel];
  }

  /** Every run that the guard lets through starts with `run_started` and ends with its only
      `[DONE]`; the guard changes no event and adds at most one replacement, right before it. */
  lemma StreamShape(chunks: seq<Chunk>, ending: Ending, vision: Option<string>, refusal: string -> bool,
      violates: string -> bool)
    ensures var inner, out := Stream(chunks, ending, vision, refusal),
      Guarded(Stream(chunks, ending, vision, refusal), violates);
      out[0] == Plain(RunStarted, "") && out[|out| - 1] == Sentinel && Sentinel !in out[..|out| - 1] &&
      (out == inner || out == inner[..|inner| - 1] + [REPLACE_FRAME, Sentinel]) &&
      (out != inner <==> Blocked(Accumulated(inner[..|inner| - 1]), violates))
  {
    var inner := Stream(chunks, ending, vision, refusal);
    var shown := inner[..|inner| - 1];
    StreamEnds(chunks, ending, vision, refusal);
    assert inner == shown + [Sentinel];
    GuardedStream(shown, violates);
  }

  // ---- what is sent, chunk by chunk ----------------------------------------------------

  /** An evaluation, which stays internal. */
  predicate Internal(c: Chunk) {
    c.Object? && c.event == None && !c.sources && c.evaluation
  }

  /** The chunk has text for the answer: plain text, or an event with content. */
  predicate Says(c: Chunk) {
    if c.NotAnObject? then c.text != ""
    else if c.event.Some? then c.content != ""
    else !c.sources && !c.evaluation && !c.reset && c.text != ""
  }

  /** The frame is the browser's form of the chunk. */
  predicate SentAs(c: Chunk, f: Frame) {
    f.Payload? &&
    if c.Object? && c.event.Some? then
      f.kind == c.event.value && f.content == c.content && f.cancelled == c.cancelled && f.failed == c.failed
    else
      !f.cancelled && !f.failed &&
      if c.Object? && c.sources then f.kind == Sources && f.content == ""
      else if c.Object? && c.reset then f.kind == ContentReset && f.content == ""
      else f.kind == Content && f.content == c.text
  }

  ghost predicate SentInOrder(chunks: seq<Chunk>, frames: seq<Frame>) {
    |frames| == |chunks| && forall i :: 0 <= i < |chunks| ==> SentAs(chunks[i], frames[i])
  }

  /** All chunks but the evaluations are sent, in order; a vision fallback also holds back
      those with text. */
  lemma {:induction false} PassedAre(chunks: seq<Chunk>, vision: bool)
    ensures SentInOrder(Filter(chunks, (c: Chunk) => !Internal(c) && !(vision && Says(c))), Passed(chunks, vision))
  {
    if chunks != [] {
      var init, last := chunks[..|chunks| - 1], chunks[|chunks| - 1];
      assert chunks == init + [last];
      PassedAre(init, vision);
      FilterConcat(init, [last], (c: Chunk) => !Internal(c) && !(vision && Says(c)));
    }
  }

  /** The events that end a stream without a `run_completed` of the endpoint. */
  predicate EndsItself(chunks: seq<Chunk>) {
    exists c :: c in chunks && c.Object? && (c.event == Some(RunError) || c.event == Some(ApprovalRequired))
  }

  /** The frames behind the agent's: the answer of a vision fallback, then one frame or two
      that say how the run ended. */
  lemma ClosingAre(chunks: seq<Chunk>, ending: Ending, vision: Option<string>, refusal: string -> bool)
    ensures ending == CancelledError ==>
      Closing(chunks, ending, vision, refusal) ==
        [Payload(RunError, "", false, false), Payload(Cancelled, "", true, false)]
    ensures ending == Exception ==>
      Closing(chunks, ending, vision, refusal) ==
        [Payload(RunError, "", false, false), Payload(Failed, "", false, true)]
    ensures ending == Normal ==>
      Closing(chunks, ending, vision, refusal) ==
        (if vision.Some? then [Payload(Content, FinalAnswer(chunks, vision.value, refusal), false, false)] else []) +
        (if EndsItself(chunks) then [] else [Payload(RunCompleted, "", false, false)])
  {
    assert SawTerminal(chunks) <==> EndsItself(chunks) by {
      if EndsItself(chunks) {
        var c :| c in chunks && c.Object? && (c.event == Some(RunError) || c.event == Some(ApprovalRequired));
        var i :| 0 <= i < |chunks| && chunks[i] == c;
        assert Terminal(chunks[i]);
      }
    }
  }

  /** A text is replaced exactly when it violates the policy and is not blank. */
  lemma BlockedIff(text: string, violates: string -> bool)
    ensures Blocked(text, violates) <==> violates(text) && exists i :: 0 <= i < |text| && !PySpace(text[i])
  {
    BlankIff(text, PySpace);
  }

  function Contents(frames: seq<Frame>): seq<string>
    requires Sentinel !in frames
  {
    if frames == [] then [] else Contents(frames[..|frames| - 1]) + [frames[|frames| - 1].content]
  }

  lemma ContentsSnoc(frames: seq<Frame>, f: Frame)
    requires Sentinel !in frames && f.Payload?
    ensures Flatten(Contents(frames + [f])) == Flatten(Contents(frames)) + f.content
  {
    assert (frames + [f])[..|frames|] == frames;
    FlattenConcat(Contents(frames), [f.content]);
    assert Flatten([f.content]) == f.content + Flatten([]);
  }

  function Unflagged(frames: seq<Frame>): seq<Frame> {
    Filter(frames, (f: Frame) => f.Payload? && !f.cancelled && !f.failed)
  }

  /** The text that the guard judges is that of all frames that are marked neither as cancelled
      nor as failed. */
  lemma {:induction false} JudgedTextIs(frames: seq<Frame>)
    requires Sentinel !in frames
    ensures Sentinel !in Unflagged(frames)
    ensures Accumulated(frames) == Flatten(Contents(Unflagged(frames)))
  {
    if frames != [] {
      var init, last := frames[..|frames| - 1], frames[|frames| - 1];
      assert frames == init + [last];
      JudgedTextIs(init);
      FilterConcat(init, [last], (f: Frame) => f.Payload? && !f.cancelled && !f.failed);
      var kept := Unflagged(init);
      if !last.cancelled && !last.failed {
        assert Unflagged(frames) == kept + [last];
        ContentsSnoc(kept, last);
      } else {
        assert Unflagged(frames) == kept + [] == kept;
      }
    }
  }

  function CountKind(frames: seq<Frame>, kind: Kind): nat {
    if frames == [] then 0
    else CountKind(frames[..|frames| - 1], kind) +
         (if frames[|frames| - 1].Payload? && frames[|frames| - 1].kind == kind then 1 else 0)
  }

  function CountEvents(chunks: seq<Chunk>, kind: Kind): nat {
    if chunks == [] then 0
    else CountEvents(chunks[..|chunks| - 1], kind) +
         (if chunks[|chunks| - 1].Object? && chunks[|chunks| - 1].event == Some(kind) then 1 else 0)
  }

  lemma {:induction false} CountConcat(a: seq<Frame>, b: seq<Frame>, kind: Kind)
    ensures CountKind(a + b, kind) == CountKind(a, kind) + CountKind(b, kind)
    decreases |b|
  {
    if b == [] {
      assert a + b == a;
    } else {
      assert (a + b)[..|a + b| - 1] == a + b[..|b| - 1];
      CountConcat(a, b[..|b| - 1], kind);
    }
  }

  /** The kinds that only events have. */
  predicate IsEvent(kind: Kind) {
    kind in {RunStarted, RunCompleted, RunError, ApprovalRequired, StepCompleted, OtherEvent}
  }

  /** The chunk is an event of that kind, and has content that a vision fallback holds back. */
  predicate Swallowed(c: Chunk, kind: Kind) {
    c.Object? && c.event == Some(kind) && c.content != ""
  }

  /** The agent's events of a kind that are sent. */
  function CountSent(chunks: seq<Chunk>, vision: bool, kind: Kind): nat {
    if chunks == [] then 0
    else
      var last := chunks[|chunks| - 1];
      CountSent(chunks[..|chunks| - 1], vision, kind) +
      (if last.Object? && last.event == Some(kind) && !(vision && Swallowed(last, kind)) then 1 else 0)
  }

  ghost predicate NoneSwallowed(chunks: seq<Chunk>, kind: Kind) {
    forall i :: 0 <= i < |chunks| ==> !Swallowed(chunks[i], kind)
  }

  /** All events are sent, except with a vision fallback those that carry content. */
  lemma {:induction false} SentUnlessSwallowed(chunks: seq<Chunk>, vision: bool, kind: Kind)
    ensures CountSent(chunks, vision, kind) <= CountEvents(chunks, kind)
    ensures CountSent(chunks, vision, kind) == CountEvents(chunks, kind) <==> !vision || NoneSwallowed(chunks, kind)
  {
    if chunks != [] {
      var init, last := chunks[..|chunks| - 1], chunks[|chunks| - 1];
      SentUnlessSwallowed(init, vision, kind);
      assert NoneSwallowed(chunks, kind) <==> NoneSwallowed(init, kind) && !Swallowed(last, kind) by {
        if NoneSwallowed(init, kind) && !Swallowed(last, kind) {
          assert forall i :: 0 <= i < |init| ==> chunks[i] == init[i];
        }
        if NoneSwallowed(chunks, kind) {
          assert forall i :: 0 <= i < |init| ==> init[i] == chunks[i];
        }
      }
    }
  }

  lemma {:induction false} CountPassed(chunks: seq<Chunk>, vision: bool, kind: Kind)
    requires IsEvent(kind)
    ensures CountKind(Passed(chunks, vision), kind) == CountSent(chunks, vision, kind)
  {
    if chunks != [] {
      var init, last := chunks[..|chunks| - 1], chunks[|chunks| - 1];
      CountPassed(init, vision, kind);
      CountConcat(Passed(init, vision), Forward(last, vision), kind);
      CountForward(last, vision, kind);
    }
  }

  lemma CountForward(c: Chunk, vision: bool, kind: Kind)
    requires IsEvent(kind)
    ensures CountKind(Forward(c, vision), kind)
         == if c.Object? && c.event == Some(kind) && !(vision && Swallowed(c, kind)) then 1 else 0
  {
    if Forward(c, vision) != [] {
      CountOne(Forward(c, vision)[0], kind);
    }
  }

  lemma CountOne(f: Frame, kind: Kind)
    ensures CountKind([f], kind) == if f.Payload? && f.kind == kind then 1 else 0
  {
    assert [f][..0] == [];
  }

  /** The endpoint adds one `run_started`, one `run_completed` exactly when the agent ended
      normally without a `run_error` or `approval_required` of its own, and one `run_error`
      exactly when it did not end normally; all other events are the agent's. */
  lemma RunEvents(chunks: seq<Chunk>, ending: Ending, vision: Option<string>, refusal: string -> bool)
    ensures CountKind(Stream(chunks, ending, vision, refusal), RunStarted)
         == CountSent(chunks, vision.Some?, RunStarted) + 1
    ensures CountKind(Stream(chunks, ending, vision, refusal), RunCompleted)
         == CountSent(chunks, vision.Some?, RunCompleted) + (if ending == Normal && !SawTerminal(chunks) then 1 else 0)
    ensures CountKind(Stream(chunks, ending, vision, refusal), RunError)
         == CountSent(chunks, vision.Some?, RunError) + (if ending != Normal then 1 else 0)
    ensures CountKind(Stream(chunks, ending, vision, refusal), ApprovalRequired)
         == CountSent(chunks, vision.Some?, ApprovalRequired)
    ensures CountKind(Stream(chunks, ending, vision, refusal), StepCompleted)
         == CountSent(chunks, vision.Some?, StepCompleted)
    ensures CountKind(Stream(chunks, ending, vision, refusal), OtherEvent)
         == CountSent(chunks, vision.Some?, OtherEvent)
  {
    CountStream(chunks, ending, vision, refusal, RunStarted);
    CountStream(chunks, ending, vision, refusal, RunCompleted);
    CountStream(chunks, ending, vision, refusal, RunError);
    CountStream(chunks, ending, vision, refusal, ApprovalRequired);
    CountStream(chunks, ending, vision, refusal, StepCompleted);
    CountStream(chunks, ending, vision, refusal, OtherEvent);
  }

  /** The events of a kind that the endpoint adds to the agent's. */
  function Added(chunks: seq<Chunk>, ending: Ending, kind: Kind): nat {
    (if kind == RunStarted then 1 else 0) + ClosingEvents(chunks, ending, kind)
  }

  /** The stream carries all events of a kind, the agent's and the endpoint's, if and only if no
      vision fallback is in place or no event of that kind has content. */
  lemma EventsArriveIff(chunks: seq<Chunk>, ending: Ending, vision: Option<string>, refusal: string -> bool, kind: Kind)
    requires IsEvent(kind)
    ensures CountKind(Stream(chunks, ending, vision, refusal), kind)
         == Added(chunks, ending, kind) + CountEvents(chunks, kind)
       <==> vision == None || NoneSwallowed(chunks, kind)
  {
    CountStream(chunks, ending, vision, refusal, kind);
    SentUnlessSwallowed(chunks, vision.Some?, kind);
  }

  lemma CountStream(chunks: seq<Chunk>, ending: Ending, vision: Option<string>, refusal: string -> bool, kind: Kind)
    requires IsEvent(kind)
    ensures CountKind(Stream(chunks, ending, vision, refusal), kind)
         == Added(chunks, ending, kind) + CountSent(chunks, vision.Some?, kind)
  {
    var start, passed := Plain(RunStarted, ""), Passed(chunks, vision.Some?);
    var closing := Closing(chunks, ending, vision, refusal);
    CountConcat([start] + passed + closing, [Sentinel], kind);
    CountConcat([start] + passed, closing, kind);
    CountConcat([start], passed, kind);
    CountPassed(chunks, vision.Some?, kind);
    CountOne(start, kind);
    CountOne(Sentinel, kind);
    CountClosing(chunks, ending, vision, refusal, kind);
  }

  function ClosingEvents(chunks: seq<Chunk>, ending: Ending, kind: Kind): nat {
    if kind == RunCompleted && ending == Normal && !SawTerminal(chunks) then 1
    else if kind == RunError && ending != Normal then 1
    else 0
  }

  lemma CountTwo(f: Frame, g: Frame, kind: Kind)
    ensures CountKind([f, g], kind) == CountKind([f], kind) + CountKind([g], kind)
  {
    assert [f, g] == [f] + [g];
    CountConcat([f], [g], kind);
  }

  lemma CountFinal(ending: Ending, sawTerminal: bool, kind: Kind)
    requires IsEvent(kind)
    ensures CountKind(Final(ending, sawTerminal), kind)
         == if kind == RunCompleted && ending == Normal && !sawTerminal then 1
            else if kind == RunError && ending != Normal then 1
            else 0
  {
    match ending
    case Normal => CountOne(Plain(RunCompleted, ""), kind);
    case CancelledError =>
      CountTwo(Plain(RunError, ""), Payload(Cancelled, "", true, false), kind);
      CountOne(Plain(RunError, ""), kind);
      CountOne(Payload(Cancelled, "", true, false), kind);
    case Exception =>
      CountTwo(Plain(RunError, ""), Payload(Failed, "", false, true), kind);
      CountOne(Plain(RunError, ""), kind);
      CountOne(Payload(Failed, "", false, true), kind);
  }

  lemma CountClosing(chunks: seq<Chunk>, ending: Ending, vision: Option<string>, refusal: string -> bool, kind: Kind)
    requires IsEvent(kind)
    ensures CountKind(Closing(chunks, ending, vision, refusal), kind) == ClosingEvents(chunks, ending, kind)
  {
    var answer := if ending == Normal then VisionAnswer(HeldBack(chunks), vision, refusal) else [];
    CountConcat(answer, Final(ending, SawTerminal(chunks)), kind);
    if answer != [] {
      CountOne(answer[0], kind);
    }
    CountFinal(ending, SawTerminal(chunks), kind);
  }

  /** It happens: with a vision fallback a `run_error` that carries content is not sent, and as
      the endpoint has seen it, no `run_completed` is sent in its place. */
  lemma VisionSwallowsEvent(refusal: string -> bool)
    ensures var text := "{\"event\": \"run_error\", \"content\": \"x\"}";
      var c := Object(text, Some(RunError), false, false, false, "x", false, false);
      CountEvents([c], RunError) == 1 &&
      CountKind(Stream([c], Normal, Some("seen"), refusal), RunError) == 0 &&
      CountKind(Stream([c], Normal, Some("seen"), refusal), RunCompleted) == 0
  {
    var text := "{\"event\": \"run_error\", \"content\": \"x\"}";
    var c := Object(text, Some(RunError), false, false, false, "x", false, false);
    SwallowedAlone(c, "seen", refusal);
  }

  lemma SwallowedAlone(c: Chunk, answer: string, refusal: string -> bool)
    requires Swallowed(c, RunError)
    ensures CountEvents([c], RunError) == 1
    ensures CountKind(Stream([c], Normal, Some(answer), refusal), RunError) == 0
    ensures CountKind(Stream([c], Normal, Some(answer), refusal), RunCompleted) == 0
  {
    assert [c][..0] == [];
    assert CountEvents([c], RunError) == CountEvents([], RunError) + 1;
    assert CountSent([c], true, RunError) == CountSent([], true, RunError);
    assert CountSent([c], true, RunCompleted) == CountSent([], true, RunCompleted);
    assert Terminal([c][0]);
    RunEvents([c], Normal, Some(answer), refusal);
  }

  // ---- what the reader ends up with ----------------------------------------------------

  /** The reader's side of the protocol: content is appended, a reset clears the answer, and a
      replacement takes its place. */
  function Read(answer: string, f: Frame): string {
    if f.Sentinel? then answer
    else if f.kind == ContentReset then ""
    else if f.kind == Replacement then f.content
    else if Counts(f) then answer + f.content
    else answer
  }

  function ReadAll(frames: seq<Frame>): string {
    if frames == [] then "" else Read(ReadAll(frames[..|frames| - 1]), frames[|frames| - 1])
  }

  /** The answer that is left at the end of a guarded stream is the fixed response if the whole
      streamed text violates the policy, and the streamed answer otherwise. */
  lemma GuardedAnswer(inner: seq<Frame>, violates: string -> bool)
    ensures ReadAll(Guarded(inner, violates))
         == if Blocked(Accumulated(BeforeDone(inner)), violates) then GUARDED_RESPONSE else ReadAll(BeforeDone(inner))
  {
    var shown := BeforeDone(inner);
    var replaced := shown + (if Blocked(Accumulated(shown), violates) then [REPLACE_FRAME] else []);
    if Blocked(Accumulated(shown), violates) {
      assert replaced[..|replaced| - 1] == shown;
    } else {
      assert replaced == shown;
    }
    if Sentinel in inner {
      assert (replaced + [Sentinel])[..|replaced|] == replaced;
    } else {
      assert replaced + [] == replaced;
    }
  }

  /** The frames from the agent's side: no replacement, and content only where it is read. */
  ghost predicate FromAgent(frames: seq<Frame>) {
    forall i :: 0 <= i < |frames| ==>
      frames[i].Payload? && frames[i].kind != Replacement &&
        (frames[i].kind == ContentReset ==> frames[i].content == "")
  }

  /** What had been streamed before the last reset. */
  function Retracted(frames: seq<Frame>): string {
    if frames == [] then ""
    else if frames[|frames| - 1].Payload? && frames[|frames| - 1].kind == ContentReset
    then Accumulated(frames[..|frames| - 1])
    else Retracted(frames[..|frames| - 1])
  }

  /** The guard judges the retracted text together with the answer: it judges exactly the
      reader's answer if and only if nothing was streamed before the last reset. */
  lemma {:induction false} GuardJudgesAnswerIff(frames: seq<Frame>)
    requires FromAgent(frames)
    ensures Accumulated(frames) == Retracted(frames) + ReadAll(frames)
    ensures Accumulated(frames) == ReadAll(frames) <==> Retracted(frames) == ""
  {
    if frames != [] {
      GuardJudgesAnswerIff(frames[..|frames| - 1]);
    }
    assert |Accumulated(frames)| == |Retracted(frames)| + |ReadAll(frames)|;
  }

  /** The frames of an answer that is taken back and given anew. */
  function Retraction(first: string, second: string): seq<Frame> {
    [Plain(Content, first), Plain(ContentReset, ""), Plain(Content, second)]
  }

  lemma RetractionReads(first: string, second: string)
    requires first != "" && second != ""
    ensures FromAgent(Retraction(first, second)) && Sentinel !in Retraction(first, second)
    ensures ReadAll(Retraction(first, second)) == second
    ensures Accumulated(Retraction(first, second)) == first + second
  {
    var frames := Retraction(first, second);
    var one, two := frames[..1], frames[..2];
    assert two[..1] == one && one[..0] == [];
    assert Accumulated(one) == [] + first == first;
    assert Accumulated(two) == first + [] == first;
    assert ReadAll(two) == "";
    assert ReadAll(frames) == [] + second == second;
  }

  /** That fails for every answer that is taken back and makes the whole text violate: the guard
      then replaces an answer that it would have let pass. */
  lemma RetractedTextIsJudged(first: string, second: string, violates: string -> bool)
    requires first != "" && second != ""
    requires Blocked(first + second, violates) && !Blocked(second, violates)
    ensures ReadAll(Guarded(Retraction(first, second), violates)) == GUARDED_RESPONSE
    ensures !Blocked(ReadAll(Retraction(first, second)), violates)
  {
    var frames := Retraction(first, second);
    RetractionReads(first, second);
    BeforeDoneIs(frames, |frames|);
    assert frames[..|frames|] == frames;
    GuardedAnswer(frames, violates);
  }

  function Exactly(bad: string): string -> bool {
    (text: string) => text == bad
  }

  /** For instance "bad", taken back, and then "good", where only the joined text violates. */
  lemma RetractedTextExample()
    ensures ReadAll(Guarded(Retraction("bad", "good"), Exactly("bad" + "good"))) == GUARDED_RESPONSE
    ensures ReadAll(Retraction("bad", "good")) == "good"
  {
    assert |"bad" + "good"| == 7 && |"good"| == 4;
    assert ("bad" + "good")[0] == 'b' && ("bad" + "good")[6] == 'd';
    TrimOfTrimmed("bad" + "good", PySpace);
    RetractedTextIsJudged("bad", "good", Exactly("bad" + "good"));
    RetractionReads("bad", "good");
  }

  // ---- the reader of a stream with a vision fallback -----------------------------------

  /** What the agent's frames alone leave with the reader. */
  function AgentAnswer(chunks: seq<Chunk>): string {
    ReadAll(Passed(chunks, false))
  }

  function ContentOf(c: Chunk): string {
    var f := AgentChunkToSse(c);
    if f == None then "" else f.value.content
  }

  /** An event that is marked as cancelled or failed; its content is not part of the answer. */
  predicate Flagged(c: Chunk) {
    c.Object? && c.event.Some? && (c.cancelled || c.failed)
  }

  predicate IsReset(c: Chunk) {
    AgentChunkToSse(c) == Some(Plain(ContentReset, ""))
  }

  ghost predicate AgentChunks(chunks: seq<Chunk>) {
    forall i :: 0 <= i < |chunks| && chunks[i].Object? && chunks[i].event.Some? ==> IsEvent(chunks[i].event.value)
  }

  /** No content stands before a reset, or in a flagged event. */
  ghost predicate NothingLost(chunks: seq<Chunk>) {
    forall i :: 0 <= i < |chunks| && ContentOf(chunks[i]) != "" ==>
      !Flagged(chunks[i]) && forall j :: i < j < |chunks| ==> !IsReset(chunks[j])
  }

  ghost predicate Silent(chunks: seq<Chunk>) {
    forall i :: 0 <= i < |chunks| ==> ContentOf(chunks[i]) == ""
  }

  lemma AnswerStep(chunks: seq<Chunk>)
    requires chunks != []
    ensures var init, f := chunks[..|chunks| - 1], AgentChunkToSse(chunks[|chunks| - 1]);
      AgentAnswer(chunks) == if f == None then AgentAnswer(init) else Read(AgentAnswer(init), f.value)
  {
    var init, last := chunks[..|chunks| - 1], chunks[|chunks| - 1];
    var before := Passed(init, false);
    if AgentChunkToSse(last) == None {
      assert before + [] == before;
    } else {
      assert Forward(last, false) == [AgentChunkToSse(last).value];
      assert (before + Forward(last, false))[..|before|] == before;
    }
  }

  lemma {:induction false} StartIsNotRead(frames: seq<Frame>)
    ensures ReadAll([Plain(RunStarted, "")] + frames) == ReadAll(frames)
  {
    var start := [Plain(RunStarted, "")];
    if frames == [] {
      assert start + frames == [] + start;
      ReadSnoc([], Plain(RunStarted, ""));
    } else {
      var init, last := frames[..|frames| - 1], frames[|frames| - 1];
      StartIsNotRead(init);
      assert start + frames == (start + init) + [last];
      ReadSnoc(start + init, last);
    }
  }

  /** Without a vision fallback the reader of a normal run gets the agent's answer; where the
      agent yields plain texts only, that is their concatenation. */
  lemma NormalReader(chunks: seq<Chunk>, refusal: string -> bool)
    ensures ReadAll(Stream(chunks, Normal, None, refusal)) == AgentAnswer(chunks)
    ensures (forall i :: 0 <= i < |chunks| ==> chunks[i].NotAnObject?) ==> AgentAnswer(chunks) == Flatten(Texts(chunks))
  {
    var start, passed := [Plain(RunStarted, "")], Passed(chunks, false);
    StartIsNotRead(passed);
    CloseIsNotRead(start + passed, SawTerminal(chunks));
    assert Closing(chunks, Normal, None, refusal) == Final(Normal, SawTerminal(chunks));
    if forall i :: 0 <= i < |chunks| ==> chunks[i].NotAnObject? {
      PlainTextsAnswer(chunks);
    }
  }

  function Texts(chunks: seq<Chunk>): seq<string> {
    seq(|chunks|, i requires 0 <= i < |chunks| => chunks[i].text)
  }

  lemma {:induction false} PlainTextsAnswer(chunks: seq<Chunk>)
    requires forall i :: 0 <= i < |chunks| ==> chunks[i].NotAnObject?
    ensures AgentAnswer(chunks) == Flatten(Texts(chunks))
  {
    if chunks != [] {
      var n := |chunks| - 1;
      PlainTextsAnswer(chunks[..n]);
      AnswerStep(chunks);
      FlattenSnoc(Texts(chunks), n);
      assert Texts(chunks)[..n] == Texts(chunks[..n]) && Texts(chunks)[..n + 1] == Texts(chunks);
      assert AgentAnswer(chunks[..n]) + [] == AgentAnswer(chunks[..n]);
    }
  }

  lemma LostStep(chunks: seq<Chunk>)
    requires chunks != []
    ensures var init, last := chunks[..|chunks| - 1], chunks[|chunks| - 1];
      (Silent(chunks) <==> Silent(init) && ContentOf(last) == "") &&
      (NothingLost(chunks) <==>
         NothingLost(init) && (ContentOf(last) != "" ==> !Flagged(last)) && (IsReset(last) ==> Silent(init)))
  {
    var init, last := chunks[..|chunks| - 1], chunks[|chunks| - 1];
    assert forall i :: 0 <= i < |init| ==> init[i] == chunks[i];
    if NothingLost(chunks) {
      forall i | 0 <= i < |init| && ContentOf(init[i]) != "" ensures !IsReset(last) && !Flagged(init[i]) {
        assert ContentOf(chunks[i]) != "";
      }
    }
  }

  /** The buffer of a vision fallback is never cleared: it is the agent's answer exactly when
      nothing of it was taken back or flagged. */
  lemma {:induction false} HeldBackIs(chunks: seq<Chunk>)
    requires AgentChunks(chunks)
    ensures |AgentAnswer(chunks)| <= |HeldBack(chunks)|
    ensures HeldBack(chunks) == "" <==> Silent(chunks)
    ensures HeldBack(chunks) == AgentAnswer(chunks) <==> NothingLost(chunks)
  {
    if chunks != [] {
      var init, last := chunks[..|chunks| - 1], chunks[|chunks| - 1];
      assert AgentChunks(init);
      HeldBackIs(init);
      AnswerStep(chunks);
      LostStep(chunks);
      assert HeldBack(chunks) == HeldBack(init) + ContentOf(last);
      HeldBackStep(HeldBack(init), AgentAnswer(init), last);
    }
  }

  /** What one chunk makes of a buffer and of an answer. */
  lemma HeldBackStep(held: string, answer: string, c: Chunk)
    requires |answer| <= |held| && (c.Object? && c.event.Some? ==> IsEvent(c.event.value))
    ensures var f, next := AgentChunkToSse(c), held + ContentOf(c);
      var read := if f == None then answer else Read(answer, f.value);
      |read| <= |next| && (next == "" <==> held == "" && ContentOf(c) == "") &&
      (next == read <==>
         if IsReset(c) then held == "" else held == answer && (ContentOf(c) != "" ==> !Flagged(c)))
  {
    var f, x := AgentChunkToSse(c), ContentOf(c);
    assert held + [] == held;
    if f != None && Counts(f.value) {
      SameEnd(held, answer, x);
    } else if x != "" {
      assert |held + x| > |answer|;
    }
  }

  lemma SameEnd(a: string, b: string, end: string)
    ensures a + end == b + end <==> a == b
  {
    if a + end == b + end {
      assert |a| == |b|;
      assert a == (a + end)[..|a|] == (b + end)[..|b|] == b;
    }
  }

  lemma {:induction false} PassedIsSilent(chunks: seq<Chunk>)
    ensures ReadAll(Passed(chunks, true)) == ""
    ensures forall i :: 0 <= i < |Passed(chunks, true)| ==>
      Passed(chunks, true)[i].Payload? && Passed(chunks, true)[i].content == ""
  {
    if chunks != [] {
      var init, last := chunks[..|chunks| - 1], chunks[|chunks| - 1];
      PassedIsSilent(init);
      SilentReads(Passed(chunks, true));
    }
  }

  lemma {:induction false} SilentReads(frames: seq<Frame>)
    requires forall i :: 0 <= i < |frames| ==> frames[i].Payload? && frames[i].content == ""
    ensures ReadAll(frames) == ""
  {
    if frames != [] {
      SilentReads(frames[..|frames| - 1]);
    }
  }

  lemma ReadSnoc(frames: seq<Frame>, f: Frame)
    ensures ReadAll(frames + [f]) == Read(ReadAll(frames), f)
  {
    assert (frames + [f])[..|frames|] == frames;
  }

  /** The answer that is given at the end: the buffered text, or the vision model's. */
  function FinalAnswer(chunks: seq<Chunk>, answer: string, refusal: string -> bool): string {
    if !Blank(HeldBack(chunks)) && !refusal(HeldBack(chunks)) then HeldBack(chunks) else answer
  }

  lemma SaidIsRead(silent: seq<Frame>, text: string)
    requires ReadAll(silent) == ""
    ensures ReadAll(silent + [Plain(Content, text)]) == text
  {
    ReadSnoc(silent, Plain(Content, text));
    assert "" + text == text;
  }

  lemma CloseIsNotRead(frames: seq<Frame>, sawTerminal: bool)
    ensures ReadAll(frames + Final(Normal, sawTerminal) + [Sentinel]) == ReadAll(frames)
  {
    var final := Final(Normal, sawTerminal);
    ReadSnoc(frames + final, Sentinel);
    if sawTerminal {
      assert frames + final == frames;
    } else {
      ReadSnoc(frames, Plain(RunCompleted, ""));
    }
  }

  lemma VisionStreamIs(chunks: seq<Chunk>, answer: string, refusal: string -> bool)
    ensures Stream(chunks, Normal, Some(answer), refusal)
         == [Plain(RunStarted, "")] + Passed(chunks, true) + [Plain(Content, FinalAnswer(chunks, answer, refusal))]
            + Final(Normal, SawTerminal(chunks)) + [Sentinel]
  {
    var start, passed := [Plain(RunStarted, "")], Passed(chunks, true);
    var said, final := [Plain(Content, FinalAnswer(chunks, answer, refusal))], Final(Normal, SawTerminal(chunks));
    assert VisionAnswer(HeldBack(chunks), Some(answer), refusal) == said;
    assert Closing(chunks, Normal, Some(answer), refusal) == said + final;
    assert start + passed + (said + final) == start + passed + said + final;
  }

  lemma VisionReader(chunks: seq<Chunk>, answer: string, refusal: string -> bool)
    ensures ReadAll(Stream(chunks, Normal, Some(answer), refusal)) == FinalAnswer(chunks, answer, refusal)
  {
    var silent := [Plain(RunStarted, "")] + Passed(chunks, true);
    PassedIsSilent(chunks);
    SilentReads(silent);
    SaidIsRead(silent, FinalAnswer(chunks, answer, refusal));
    CloseIsNotRead(silent + [Plain(Content, FinalAnswer(chunks, answer, refusal))], SawTerminal(chunks));
    VisionStreamIs(chunks, answer, refusal);
  }

  /** With a vision fallback the reader of a normal run gets the agent's answer exactly when the
      buffered text is passed on and nothing of it was taken back or flagged, or when it is
      withheld and the vision model happens to give that very answer. */
  lemma VisionReaderIff(chunks: seq<Chunk>, answer: string, refusal: string -> bool)
    requires AgentChunks(chunks)
    ensures ReadAll(Stream(chunks, Normal, Some(answer), refusal)) == AgentAnswer(chunks)
       <==> if !Blank(HeldBack(chunks)) && !refusal(HeldBack(chunks))
            then NothingLost(chunks) else answer == AgentAnswer(chunks)
  {
    VisionReader(chunks, answer, refusal);
    HeldBackIs(chunks);
  }

  /** The chunks of an answer that is taken back and given anew. */
  function Retracting(first: string, second: string): seq<Chunk> {
    [NotAnObject(first), Object("{}", None, false, false, true, "", false, false), NotAnObject(second)]
  }

  lemma RetractingHeldBack(first: string, second: string)
    ensures HeldBack(Retracting(first, second)) == first + second
  {
    var chunks := Retracting(first, second);
    var one, two := chunks[..1], chunks[..2];
    assert two[..1] == one && one[..0] == [];
    assert HeldBack(one) == [] + first == first;
    assert HeldBack(two) == first + [] == first;
  }

  lemma RetractingAnswer(first: string, second: string)
    requires first != "" && second != ""
    ensures AgentAnswer(Retracting(first, second)) == second
  {
    var chunks := Retracting(first, second);
    var two := chunks[..2];
    AnswerStep(two);
    AnswerStep(chunks);
    assert AgentAnswer(two) == "";
    assert "" + second == second;
  }

  /** The reader is then left with both, if the joined text is no refusal. */
  lemma VisionJoinsRetracted(first: string, second: string, answer: string, refusal: string -> bool)
    requires first != "" && second != "" && !Blank(first + second) && !refusal(first + second)
    ensures AgentAnswer(Retracting(first, second)) == second
    ensures ReadAll(Stream(Retracting(first, second), Normal, Some(answer), refusal)) == first + second
  {
    RetractingHeldBack(first, second);
    RetractingAnswer(first, second);
    VisionReader(Retracting(first, second), answer, refusal);
  }

  /** For instance with "bad" and "good". */
  lemma VisionJoinsExample(answer: string)
    ensures AgentAnswer(Retracting("bad", "good")) == "good"
    ensures ReadAll(Stream(Retracting("bad", "good"), Normal, Some(answer), Exactly("no"))) == "bad" + "good"
  {
    assert |"bad" + "good"| == 7 && |"no"| == 2;
    assert ("bad" + "good")[0] == 'b' && ("bad" + "good")[6] == 'd';
    TrimOfTrimmed("bad" + "good", PySpace);
    VisionJoinsRetracted("bad", "good", answer, Exactly("no"));
  }
}
