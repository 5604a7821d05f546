/** The producer and the consumer of `bid_write_stream` in python-ai/app/api/bid.py, interleaved
    in every order. */
module BidStream {
  import opened Common

  /** A queue item; `section` identifies the callback's payload. */
  datatype Item =
    | SectionStarted(section: string)
    | SectionCompleted(section: string)
    | RunCompleted
    | RunError
    | DoneMarker

  datatype Frame = RunStarted | Event(item: Item) | Sentinel

  /** How far `consume` is: in the workflow, behind its outcome, or ended. */
  datatype Producer = InWorkflow | Reported | Ended

  datatype Consumer = NotStarted | Draining | Closed

  datatype State = State(queue: seq<Item>, producer: Producer, consumer: Consumer, out: seq<Frame>, put: seq<Item>)

  const INIT := State([], InWorkflow, NotStarted, [], [])

  /** The steps of the producer task (callbacks, the workflow's outcome, the `finally` block)
      and of the generator. */
  datatype Action =
    | Callback(item: Item)
    | Outcome(ok: bool)
    | PutDone
    | EmitStart
    | TakeItem

  predicate IsCallback(item: Item) {
    item.SectionStarted? || item.SectionCompleted?
  }

  predicate Enabled(s: State, a: Action) {
    match a
    case Callback(item) => s.producer.InWorkflow? && IsCallback(item)
    case Outcome(_) => s.producer.InWorkflow?
    case PutDone => s.producer.Reported?
    case EmitStart => s.consumer.NotStarted?
    case TakeItem => s.consumer.Draining? && s.queue != []
  }

  function Put(s: State, item: Item): State {
    s.(queue := s.queue + [item], put := s.put + [item])
  }

  function Apply(s: State, a: Action): State
    requires Enabled(s, a)
  {
    match a
    case Callback(item) => Put(s, item)
    case Outcome(ok) => Put(s, if ok then RunCompleted else RunError).(producer := Reported)
    case PutDone => Put(s, DoneMarker).(producer := Ended)
    case EmitStart => s.(out := s.out + [RunStarted], consumer := Draining)
    case TakeItem =>
      var taken := s.(queue := s.queue[1..]);
      if s.queue[0] == DoneMarker then taken.(out := s.out + [Sentinel], consumer := Closed)
      else taken.(out := s.out + [Event(s.queue[0])])
  }

  function Exec(acts: seq<Action>): Option<State> {
    if acts == [] then Some(INIT)
    else
      var before := Exec(acts[..|acts| - 1]);
      if before.Some? && Enabled(before.value, acts[|acts| - 1])
      then Some(Apply(before.value, acts[|acts| - 1])) else None
  }

  /** What the producer has done, read off the run alone: its callbacks, then its outcome. */
  function Reports(acts: seq<Action>): seq<Item> {
    if acts == [] then [] else Reports(acts[..|acts| - 1]) + Report(acts[|acts| - 1])
  }

  function Report(a: Action): seq<Item> {
    match a
    case Callback(item) => [item]
    case Outcome(ok) => [if ok then RunCompleted else RunError]
    case _ => []
  }

  function Frames(items: seq<Item>): seq<Frame> {
    seq(|items|, i requires 0 <= i < |items| => Event(items[i]))
  }

  ghost predicate AllCallbacks(items: seq<Item>) {
    forall i :: 0 <= i < |items| ==> IsCallback(items[i])
  }

  /** Callbacks, and an outcome behind them once it has been reported. */
  ghost predicate WellFormed(reports: seq<Item>, producer: Producer) {
    if producer.InWorkflow? then AllCallbacks(reports)
    else |reports| > 0 && AllCallbacks(reports[..|reports| - 1]) && reports[|reports| - 1] in {RunCompleted, RunError}
  }

  /** The items that have been sent, given those that were put and those still queued. */
  function Sent(s: State): seq<Item>
    requires |s.queue| <= |s.put|
  {
    s.put[..|s.put| - |s.queue|]
  }

  ghost predicate Inv(s: State, reports: seq<Item>) {
    && WellFormed(reports, s.producer)
    && s.put == reports + (if s.producer.Ended? then [DoneMarker] else [])
    && |s.queue| <= |s.put| && s.queue == s.put[|s.put| - |s.queue|..]
    && match s.consumer
       case NotStarted => s.out == [] && s.queue == s.put
       case Draining => s.out == [RunStarted] + Frames(Sent(s)) && DoneMarker !in Sent(s)
       case Closed => s.producer.Ended? && s.queue == [] && s.out == [RunStarted] + Frames(reports) + [Sentinel]
  }

  lemma PutKept(s: State, reports: seq<Item>, item: Item, producer: Producer)
    requires Inv(s, reports) && !s.producer.Ended?
    requires if item == DoneMarker then s.producer.Reported? && producer.Ended?
             else s.producer.InWorkflow? && WellFormed(reports + [item], producer) && !producer.Ended?
    ensures Inv(Put(s, item).(producer := producer), if item == DoneMarker then reports else reports + [item])
  {
    var s' := Put(s, item);
    assert Sent(s') == Sent(s);
    assert s'.queue == s'.put[|s'.put| - |s'.queue|..];
  }

  /** The marker is the last item put. */
  lemma MarkerIsLast(s: State, reports: seq<Item>)
    requires Inv(s, reports)
    ensures forall i :: 0 <= i < |s.put| ==> (s.put[i] == DoneMarker <==> i == |reports|)
    ensures s.producer.Ended? <==> |s.put| == |reports| + 1
  {
    assert forall i :: 0 <= i < |reports| ==> s.put[i] == reports[i];
    assert forall i :: 0 <= i < |reports| - 1 ==> reports[..|reports| - 1][i] == reports[i];
  }

  /** What has been sent while draining are the first reports. */
  lemma SentAreReports(s: State, reports: seq<Item>)
    requires Inv(s, reports) && s.consumer.Draining?
    ensures |Sent(s)| <= |reports| && Sent(s) == reports[..|Sent(s)|]
  {
    MarkerIsLast(s, reports);
    var n := |Sent(s)|;
    if n > 0 {
      assert Sent(s)[n - 1] == s.put[n - 1] != DoneMarker;
    }
    assert forall i :: 0 <= i < |reports| ==> s.put[i] == reports[i];
  }

  lemma TakeKept(s: State, reports: seq<Item>)
    requires Inv(s, reports) && Enabled(s, TakeItem)
    ensures Inv(Apply(s, TakeItem), reports)
  {
    var s' := Apply(s, TakeItem);
    var k := |s.put| - |s.queue|;
    assert s.queue[0] == s.put[k];
    assert s'.queue == s'.put[|s'.put| - |s'.queue|..];
    MarkerIsLast(s, reports);
    SentAreReports(s, reports);
    if s.queue[0] == DoneMarker {
      assert Sent(s) == reports;
    } else {
      assert Sent(s') == Sent(s) + [s.queue[0]];
      assert Frames(Sent(s')) == Frames(Sent(s)) + [Event(s.queue[0])];
    }
  }

  lemma StartKept(s: State, reports: seq<Item>)
    requires Inv(s, reports) && Enabled(s, EmitStart)
    ensures Inv(Apply(s, EmitStart), reports)
  {
    assert Sent(Apply(s, EmitStart)) == [] && Frames([]) == [];
  }

  lemma InvKept(s: State, reports: seq<Item>, a: Action)
    requires Inv(s, reports) && Enabled(s, a)
    ensures Inv(Apply(s, a), reports + Report(a))
  {
    assert reports + [] == reports;
    match a
    case Callback(item) => PutKept(s, reports, item, InWorkflow);
    case Outcome(ok) =>
      var item := if ok then RunCompleted else RunError;
      assert (reports + [item])[..|reports|] == reports;
      PutKept(s, reports, item, Reported);
    case PutDone => PutKept(s, reports, DoneMarker, Ended);
    case EmitStart => StartKept(s, reports);
    case TakeItem => TakeKept(s, reports);
  }

  lemma {:induction false} InvReachable(acts: seq<Action>)
    requires Exec(acts).Some?
    ensures Inv(Exec(acts).value, Reports(acts))
  {
    if acts != [] {
      InvReachable(acts[..|acts| - 1]);
      InvKept(Exec(acts[..|acts| - 1]).value, Reports(acts[..|acts| - 1]), acts[|acts| - 1]);
    }
  }

  /** Whatever the interleaving, the stream sent so far is `run_started` and the producer's
      reports in the order in which it made them; a closed stream carries all callbacks, then
      exactly one `run_completed` or `run_error`, then one `[DONE]`. */
  lemma StreamIsFifo(acts: seq<Action>)
    requires Exec(acts).Some?
    ensures var s, reports := Exec(acts).value, Reports(acts);
      s.out <= [RunStarted] + Frames(reports) + [Sentinel] &&
      (s.consumer.Closed? ==>
         s.out == [RunStarted] + Frames(reports) + [Sentinel] && |reports| > 0 &&
         AllCallbacks(reports[..|reports| - 1]) && reports[|reports| - 1] in {RunCompleted, RunError})
  {
    InvReachable(acts);
    var s, reports := Exec(acts).value, Reports(acts);
    if s.consumer.Draining? {
      SentAreReports(s, reports);
      assert Frames(Sent(s)) == Frames(reports)[..|Sent(s)|];
    }
  }

  /** The reports are the items of the callbacks, one for one, and behind them the outcome. */
  ghost predicate ReportsAre(acts: seq<Action>, producer: Producer, reports: seq<Item>) {
    var calls := Filter(acts, (a: Action) => a.Callback?);
    (producer.InWorkflow? ==> |reports| == |calls| && forall a :: a in acts ==> !a.Outcome?) &&
    (!producer.InWorkflow? ==>
       |reports| == |calls| + 1 &&
       (reports[|calls|] == RunCompleted <==> Outcome(true) in acts) &&
       (reports[|calls|] == RunError <==> Outcome(false) in acts)) &&
    forall i :: 0 <= i < |calls| ==> i < |reports| && calls[i] == Callback(reports[i])
  }

  lemma {:induction false} ReportsFollow(acts: seq<Action>)
    requires Exec(acts).Some?
    ensures ReportsAre(acts, Exec(acts).value.producer, Reports(acts))
  {
    if acts != [] {
      var init, a := acts[..|acts| - 1], acts[|acts| - 1];
      assert acts == init + [a];
      ReportsFollow(init);
      FilterConcat(init, [a], (x: Action) => x.Callback?);
      assert Reports(acts) == Reports(init) + Report(a);
      assert forall x :: x in acts <==> x in init || x == a;
    }
  }

  /** A closed stream is the start, one event for each callback in the order of the calls, then
      `run_completed` if the workflow succeeded and `run_error` if it failed, and the sentinel. */
  lemma ClosedStreamIs(acts: seq<Action>)
    requires Exec(acts).Some? && Exec(acts).value.consumer.Closed?
    ensures var out, calls := Exec(acts).value.out, Filter(acts, (a: Action) => a.Callback?);
      |out| == |calls| + 3 && out[0] == RunStarted && out[|calls| + 2] == Sentinel &&
      (forall i :: 0 <= i < |calls| ==> out[i + 1].Event? && calls[i] == Callback(out[i + 1].item)) &&
      (out[|calls| + 1] == Event(RunCompleted) || out[|calls| + 1] == Event(RunError)) &&
      (out[|calls| + 1] == Event(RunCompleted) <==> Outcome(true) in acts) &&
      (out[|calls| + 1] == Event(RunError) <==> Outcome(false) in acts)
  {
    InvReachable(acts);
    StreamIsFifo(acts);
    ReportsFollow(acts);
  }

  /** The stream is never stuck: until it is closed, the producer or the generator can step. */
  lemma NeverStuck(acts: seq<Action>) returns (a: Action)
    requires Exec(acts).Some? && !Exec(acts).value.consumer.Closed?
    ensures Enabled(Exec(acts).value, a)
  {
    InvReachable(acts);
    var s := Exec(acts).value;
    if s.consumer.NotStarted? {
      a := EmitStart;
    } else if s.queue != [] {
      a := TakeItem;
    } else if s.producer.InWorkflow? {
      a := Outcome(true);
    } else {
      a := PutDone;
      MarkerIsLast(s, Reports(acts));
      SentAreReports(s, Reports(acts));
    }
  }
}
