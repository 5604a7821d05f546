/** The concurrent embedding batches of `_process_document_background` in
    python-ai/app/api/vectorization.py, together with the status writes around them. */
module Embedding {
  import opened Common
  import TS = TaskStatus

  type Chunk = string
  type Vector = seq<real>

  // ---- batches -------------------------------------------------------------------------

  /** `[chunks[s:s + b] for s in range(0, len(chunks), b)]`. */
  function Batches(chunks: seq<Chunk>, b: nat): (r: seq<seq<Chunk>>)
    requires b > 0
    ensures forall k :: 0 <= k < |r| ==> 0 < |r[k]| <= b
  {
    if chunks == [] then []
    else if |chunks| <= b then [chunks]
    else [chunks[..b]] + Batches(chunks[b..], b)
  }

  lemma {:induction false} BatchesFlatten(chunks: seq<Chunk>, b: nat)
    requires b > 0
    ensures Flatten(Batches(chunks, b)) == chunks
  {
    if |chunks| > b {
      BatchesFlatten(chunks[b..], b);
      assert chunks == chunks[..b] + chunks[b..];
    } else if chunks != [] {
      assert Flatten([chunks]) == chunks + Flatten([]);
    }
  }

  // ---- the interleaved steps -----------------------------------------------------------

  /** A batch coroutine: it waits for the semaphore, is inside the embed call, has stored its
      vectors, or has raised. */
  datatype Batch = Waiting | Inside | Stored(vectors: seq<Vector>) | Raised

  /** The task itself: awaiting `gather`, past its exception handler, or past the collection. */
  datatype Main = Gathering | HandledFailure | Collected

  datatype Config = Config(batches: seq<seq<Chunk>>, concurrency: nat)

  /** `permits` is the semaphore's counter. */
  datatype State = State(batches: seq<Batch>, permits: nat, done: nat, main: Main, entry: TS.Entry)

  datatype Action =
    | Acquire(k: nat)
    | Return(k: nat, vectors: seq<Vector>)  // the embed call returns; what follows has no await
    | Throw(k: nat)
    | Fail                                  // gather raises: the handler writes FAILED
    | Collect                               // gather returns: the batches are flattened

  function Total(c: Config): nat {
    |Flatten(c.batches)|
  }

  function Init(c: Config, entry: TS.Entry): State {
    State(seq(|c.batches|, _ => Waiting), c.concurrency, 0, Gathering, entry)
  }

  function CountInside(bs: seq<Batch>): nat {
    if bs == [] then 0 else CountInside(bs[..|bs| - 1]) + (if bs[|bs| - 1].Inside? then 1 else 0)
  }

  predicate Enabled(c: Config, s: State, a: Action)
    requires |s.batches| == |c.batches|
  {
    match a
    case Acquire(k) => k < |s.batches| && s.batches[k].Waiting? && s.permits > 0
    case Return(k, _) => k < |s.batches| && s.batches[k].Inside?
    case Throw(k) => k < |s.batches| && s.batches[k].Inside?
    case Fail => s.main.Gathering? && exists k :: 0 <= k < |s.batches| && s.batches[k].Raised?
    case Collect => s.main.Gathering? && forall k :: 0 <= k < |s.batches| ==> s.batches[k].Stored?
  }

  function Percent(done: nat, total: nat): int {
    40 + done * 45 / (if total > 1 then total else 1)
  }

  function Write(s: State, status: TS.Status, progress: int): State {
    s.(entry := TS.Updated(Some(s.entry), TS.Update(status, Some(progress), None, 0.0)))
  }

  /** The progress is reported at every fifth chunk and at the end. */
  predicate Reports(done: nat, total: nat) {
    done % 5 == 0 || done == total
  }

  function Apply(c: Config, s: State, a: Action): State
    requires |s.batches| == |c.batches| && Enabled(c, s, a)
  {
    match a
    case Acquire(k) => s.(batches := s.batches[k := Inside], permits := s.permits - 1)
    case Return(k, vectors) =>
      if |vectors| != |c.batches[k]| then s.(batches := s.batches[k := Raised], permits := s.permits + 1)
      else
        var done := s.done + |c.batches[k]|;
        var stored := s.(batches := s.batches[k := Stored(vectors)], permits := s.permits + 1, done := done);
        if Reports(done, Total(c)) then Write(stored, TS.PROCESSING, Percent(done, Total(c))) else stored
    case Throw(k) => s.(batches := s.batches[k := Raised], permits := s.permits + 1)
    case Fail => Write(s, TS.FAILED, 100).(main := HandledFailure)
    case Collect => Write(s, TS.PROCESSING, 90).(main := Collected)
  }

  function Exec(c: Config, entry: TS.Entry, acts: seq<Action>): (r: Option<State>)
    ensures r.Some? ==> |r.value.batches| == |c.batches|
  {
    if acts == [] then Some(Init(c, entry))
    else
      var before := Exec(c, entry, acts[..|acts| - 1]);
      if before.Some? && Enabled(c, before.value, acts[|acts| - 1])
      then Some(Apply(c, before.value, acts[|acts| - 1])) else None
  }

  // ---- invariants ----------------------------------------------------------------------

  /** The chunks of the batches that have stored their vectors. */
  function StoredSize(bs: seq<Batch>, batches: seq<seq<Chunk>>): nat
    requires |bs| == |batches|
  {
    if bs == [] then 0
    else
      StoredSize(bs[..|bs| - 1], batches[..|bs| - 1]) +
      (if bs[|bs| - 1].Stored? then |batches[|bs| - 1]| else 0)
  }

  ghost predicate Fits(c: Config, bs: seq<Batch>)
    requires |bs| == |c.batches|
  {
    forall k :: 0 <= k < |bs| && bs[k].Stored? ==> |bs[k].vectors| == |c.batches[k]|
  }

  ghost predicate Inv(c: Config, s: State) {
    && |s.batches| == |c.batches|
    && s.permits + CountInside(s.batches) == c.concurrency
    && s.done == StoredSize(s.batches, c.batches)
    && Fits(c, s.batches)
  }

  lemma {:induction false} CountUpdate(bs: seq<Batch>, k: nat, b: Batch)
    requires k < |bs|
    ensures CountInside(bs[k := b])
         == CountInside(bs) + (if b.Inside? then 1 else 0) - (if bs[k].Inside? then 1 else 0)
  {
    var n := |bs| - 1;
    if k == n {
      assert bs[k := b][..n] == bs[..n];
    } else {
      assert bs[k := b][..n] == bs[..n][k := b];
      CountUpdate(bs[..n], k, b);
    }
  }

  lemma {:induction false} StoredUpdate(bs: seq<Batch>, batches: seq<seq<Chunk>>, k: nat, b: Batch)
    requires |bs| == |batches| && k < |bs| && !bs[k].Stored?
    ensures StoredSize(bs[k := b], batches) == StoredSize(bs, batches) + (if b.Stored? then |batches[k]| else 0)
  {
    var n := |bs| - 1;
    if k == n {
      assert bs[k := b][..n] == bs[..n];
    } else {
      assert bs[k := b][..n] == bs[..n][k := b];
      StoredUpdate(bs[..n], batches[..n], k, b);
    }
  }

  lemma {:induction false} InitCounts(n: nat, batches: seq<seq<Chunk>>)
    requires n == |batches|
    ensures CountInside(seq(n, _ => Waiting)) == 0
    ensures StoredSize(seq(n, _ => Waiting), batches) == 0
  {
    if n > 0 {
      assert seq(n, _ => Waiting)[..n - 1] == seq(n - 1, _ => Waiting);
      InitCounts(n - 1, batches[..n - 1]);
    }
  }

  lemma InvKept(c: Config, s: State, a: Action)
    requires Inv(c, s) && Enabled(c, s, a)
    ensures Inv(c, Apply(c, s, a))
  {
    if a.Acquire? || a.Return? || a.Throw? {
      var b := Apply(c, s, a).batches[a.k];
      CountUpdate(s.batches, a.k, b);
      StoredUpdate(s.batches, c.batches, a.k, b);
    }
  }

  lemma {:induction false} InvReachable(c: Config, entry: TS.Entry, acts: seq<Action>)
    requires Exec(c, entry, acts).Some?
    ensures Inv(c, Exec(c, entry, acts).value)
  {
    if acts == [] {
      InitCounts(|c.batches|, c.batches);
    } else {
      InvReachable(c, entry, acts[..|acts| - 1]);
      InvKept(c, Exec(c, entry, acts[..|acts| - 1]).value, acts[|acts| - 1]);
    }
  }

  /** Over every completion order: the free permits and the batches inside the embed call add up
      to the configured number, which is therefore never exceeded, and `done_counter` is the total
      size of the finished batches. */
  lemma ConcurrencyAndCounter(c: Config, entry: TS.Entry, acts: seq<Action>)
    requires Exec(c, entry, acts).Some?
    ensures var s := Exec(c, entry, acts).value;
      s.permits + CountInside(s.batches) == c.concurrency &&
      s.done == StoredSize(s.batches, c.batches) <= Total(c)
  {
    InvReachable(c, entry, acts);
    StoredAtMostTotal(Exec(c, entry, acts).value.batches, c.batches);
  }

  lemma {:induction false} StoredAtMostTotal(bs: seq<Batch>, batches: seq<seq<Chunk>>)
    requires |bs| == |batches|
    ensures StoredSize(bs, batches) <= |Flatten(batches)|
    ensures (forall k :: 0 <= k < |bs| ==> bs[k].Stored?) ==> StoredSize(bs, batches) == |Flatten(batches)|
    ensures (exists k :: 0 <= k < |bs| && !bs[k].Stored? && batches[k] != []) ==>
      StoredSize(bs, batches) < |Flatten(batches)|
  {
    if bs != [] {
      var n := |bs| - 1;
      StoredAtMostTotal(bs[..n], batches[..n]);
      FlattenLast(batches);
      if exists k :: 0 <= k < |bs| && !bs[k].Stored? && batches[k] != [] {
        var k :| 0 <= k < |bs| && !bs[k].Stored? && batches[k] != [];
        assert k < n ==> bs[..n][k] == bs[k] && batches[..n][k] == batches[k];
      }
    }
  }

  lemma FlattenLast(ss: seq<seq<Chunk>>)
    requires ss != []
    ensures |Flatten(ss)| == |Flatten(ss[..|ss| - 1])| + |ss[|ss| - 1]|
  {
    var init, last := ss[..|ss| - 1], ss[|ss| - 1];
    assert ss == init + [last];
    FlattenConcat(init, [last]);
    assert Flatten([last]) == last + Flatten([]);
  }

  // ---- pairing chunks with vectors -----------------------------------------------------

  function VectorsOf(bs: seq<Batch>): seq<seq<Vector>>
    requires forall k :: 0 <= k < |bs| ==> bs[k].Stored?
  {
    seq(|bs|, k requires 0 <= k < |bs| => bs[k].vectors)
  }

  function Zip(a: seq<Chunk>, v: seq<Vector>): seq<(Chunk, Vector)>
    requires |a| == |v|
  {
    seq(|a|, i requires 0 <= i < |a| => (a[i], v[i]))
  }

  /** The two loops that flatten `embedded_by_index`. */
  method CollectChunks(batches: seq<seq<Chunk>>, vectors: seq<seq<Vector>>) returns (pairs: seq<(Chunk, Vector)>)
    requires |batches| == |vectors| && forall k :: 0 <= k < |batches| ==> |vectors[k]| == |batches[k]|
    ensures |Flatten(batches)| == |Flatten(vectors)| && pairs == Zip(Flatten(batches), Flatten(vectors))
  {
    pairs := [];
    for k := 0 to |batches|
      invariant |Flatten(batches[..k])| == |Flatten(vectors[..k])|
      invariant pairs == Zip(Flatten(batches[..k]), Flatten(vectors[..k]))
    {
      ghost var before := pairs;
      for i := 0 to |batches[k]|
        invariant pairs == before + Zip(batches[k][..i], vectors[k][..i])
      {
        pairs := pairs + [(batches[k][i], vectors[k][i])];
      }
      assert batches[k][..|batches[k]|] == batches[k] && vectors[k][..|batches[k]|] == vectors[k];
      FlattenSnoc(batches, k);
      FlattenSnoc(vectors, k);
    }
    assert batches[..|batches|] == batches && vectors[..|vectors|] == vectors;
  }

  function Embed(chunks: seq<Chunk>, e: Chunk -> Vector): seq<Vector> {
    seq(|chunks|, i requires 0 <= i < |chunks| => e(chunks[i]))
  }

  /** The provider answers with the vectors of the texts it was given, or with a wrong number. */
  ghost predicate Honest(c: Config, acts: seq<Action>, e: Chunk -> Vector) {
    forall i :: 0 <= i < |acts| && acts[i].Return? && acts[i].k < |c.batches| ==>
      acts[i].vectors == Embed(c.batches[acts[i].k], e) || |acts[i].vectors| != |c.batches[acts[i].k]|
  }

  lemma {:induction false} StoredAreEmbedded(c: Config, entry: TS.Entry, acts: seq<Action>, e: Chunk -> Vector)
    requires Exec(c, entry, acts).Some? && Honest(c, acts, e)
    ensures var bs := Exec(c, entry, acts).value.batches;
      forall k :: 0 <= k < |bs| && bs[k].Stored? ==> bs[k].vectors == Embed(c.batches[k], e)
  {
    if acts != [] {
      var init := acts[..|acts| - 1];
      assert forall i :: 0 <= i < |init| ==> init[i] == acts[i];
      StoredAreEmbedded(c, entry, init, e);
    }
  }

  lemma {:induction false} FlattenEmbed(batches: seq<seq<Chunk>>, vectors: seq<seq<Vector>>, e: Chunk -> Vector)
    requires |batches| == |vectors| && forall k :: 0 <= k < |batches| ==> vectors[k] == Embed(batches[k], e)
    ensures Flatten(vectors) == Embed(Flatten(batches), e)
  {
    if batches != [] {
      FlattenEmbed(batches[1..], vectors[1..], e);
    }
  }

  /** Whatever the batch size, the concurrency and the order in which batches finish: when the
      vectors are collected, every chunk of the document is paired, in order, with its vector. */
  lemma PairedInOrder(chunks: seq<Chunk>, b: nat, concurrency: nat, entry: TS.Entry, acts: seq<Action>,
      e: Chunk -> Vector)
    requires b > 0
    requires var c := Config(Batches(chunks, b), concurrency);
      Exec(c, entry, acts).Some? && Enabled(c, Exec(c, entry, acts).value, Collect) && Honest(c, acts, e)
    ensures var s := Exec(Config(Batches(chunks, b), concurrency), entry, acts).value;
      Flatten(Batches(chunks, b)) == chunks && Flatten(VectorsOf(s.batches)) == Embed(chunks, e) && s.done == |chunks|
  {
    var c := Config(Batches(chunks, b), concurrency);
    var s := Exec(c, entry, acts).value;
    BatchesFlatten(chunks, b);
    InvReachable(c, entry, acts);
    StoredAreEmbedded(c, entry, acts, e);
    FlattenEmbed(c.batches, VectorsOf(s.batches), e);
    StoredAtMostTotal(s.batches, c.batches);
  }

  // ---- progress ------------------------------------------------------------------------

  lemma {:induction false} CountNone(bs: seq<Batch>)
    requires forall k :: 0 <= k < |bs| ==> !bs[k].Inside?
    ensures CountInside(bs) == 0
  {
    if bs != [] {
      CountNone(bs[..|bs| - 1]);
    }
  }

  /** Embedding is never stuck: until the vectors are collected or the failure is handled, some
      step is enabled.  Once all batches have ended that is exactly one of the two. */
  lemma NeverStuck(c: Config, entry: TS.Entry, acts: seq<Action>) returns (a: Action)
    requires c.concurrency >= 1
    requires Exec(c, entry, acts).Some? && Exec(c, entry, acts).value.main.Gathering?
    ensures var s := Exec(c, entry, acts).value;
      Enabled(c, s, a) &&
      ((forall k :: 0 <= k < |s.batches| ==> s.batches[k].Stored? || s.batches[k].Raised?) ==>
         (Enabled(c, s, Collect) <==> !Enabled(c, s, Fail)))
  {
    var s := Exec(c, entry, acts).value;
    if k: nat :| k < |s.batches| && s.batches[k].Inside? {
      a := Throw(k);
    } else if k: nat :| k < |s.batches| && s.batches[k].Waiting? {
      CountNone(s.batches);
      InvReachable(c, entry, acts);
      a := Acquire(k);
    } else if k: nat :| k < |s.batches| && s.batches[k].Raised? {
      a := Fail;
    } else {
      a := Collect;
    }
  }

  /** How many steps the batches have taken. */
  function Taken(bs: seq<Batch>): (n: nat)
    ensures n <= 2 * |bs|
  {
    if bs == [] then 0
    else
      var last := bs[|bs| - 1];
      Taken(bs[..|bs| - 1]) + (if last.Waiting? then 0 else if last.Inside? then 1 else 2)
  }

  lemma {:induction false} TakenUpdate(bs: seq<Batch>, k: nat, b: Batch)
    requires k < |bs|
    requires if bs[k].Waiting? then b.Inside? else bs[k].Inside? && (b.Stored? || b.Raised?)
    ensures Taken(bs[k := b]) == Taken(bs) + 1
  {
    var n := |bs| - 1;
    if k == n {
      assert bs[k := b][..n] == bs[..n];
    } else {
      assert bs[k := b][..n] == bs[..n][k := b];
      TakenUpdate(bs[..n], k, b);
    }
  }

  lemma {:induction false} NothingTaken(n: nat)
    ensures Taken(seq(n, _ => Waiting)) == 0
  {
    if n > 0 {
      assert seq(n, _ => Waiting)[..n - 1] == seq(n - 1, _ => Waiting);
      NothingTaken(n - 1);
    }
  }

  /** And it ends: no run has more than two steps a batch, and one for the outcome. */
  lemma {:induction false} RunsEnd(c: Config, entry: TS.Entry, acts: seq<Action>)
    requires Exec(c, entry, acts).Some?
    ensures var s := Exec(c, entry, acts).value;
      |acts| == Taken(s.batches) + (if s.main.Gathering? then 0 else 1)
    ensures |acts| <= 2 * |c.batches| + 1
  {
    if acts == [] {
      NothingTaken(|c.batches|);
    } else {
      var init, a := acts[..|acts| - 1], acts[|acts| - 1];
      RunsEnd(c, entry, init);
      var s := Exec(c, entry, init).value;
      if a.Acquire? || a.Return? || a.Throw? {
        TakenUpdate(s.batches, a.k, Apply(c, s, a).batches[a.k]);
      }
    }
  }

  // ---- status writes of siblings -------------------------------------------------------

  /** A batch has raised, so that the others do not complete the document. */
  lemma SomethingMissing(c: Config, s: State)
    requires Inv(c, s) && forall i :: 0 <= i < |c.batches| ==> c.batches[i] != []
    requires exists r :: 0 <= r < |s.batches| && s.batches[r].Raised?
    ensures s.done < Total(c)
  {
    StoredAtMostTotal(s.batches, c.batches);
  }

  lemma SiblingStep(c: Config, s: State, k: nat, vectors: seq<Vector>)
    requires Inv(c, s) && Enabled(c, s, Return(k, vectors)) && |vectors| == |c.batches[k]|
    requires forall i :: 0 <= i < |c.batches| ==> c.batches[i] != []
    requires exists r :: 0 <= r < |s.batches| && s.batches[r].Raised?
    ensures Reports(s.done + |c.batches[k]|, Total(c)) <==> (s.done + |c.batches[k]|) % 5 == 0
  {
    var s' := Apply(c, s, Return(k, vectors));
    InvKept(c, s, Return(k, vectors));
    var r :| 0 <= r < |s.batches| && s.batches[r].Raised?;
    assert s'.batches[r].Raised?;
    SomethingMissing(c, s');
  }

  /** `gather` does not cancel the siblings of a batch that raised.  Once the failure has been
      recorded, a sibling that finishes turns FAILED back into PROCESSING, at progress 100,
      exactly when it completes a multiple of five chunks. */
  lemma SiblingOverwritesFailureIff(c: Config, entry: TS.Entry, acts: seq<Action>, k: nat, vectors: seq<Vector>)
    requires Exec(c, entry, acts).Some? && forall i :: 0 <= i < |c.batches| ==> c.batches[i] != []
    requires var s := Exec(c, entry, acts).value;
      s.main.HandledFailure? && s.entry.status == TS.FAILED && s.entry.progress == 100 &&
      Enabled(c, s, Return(k, vectors)) && |vectors| == |c.batches[k]|
    ensures var s := Exec(c, entry, acts).value; var s' := Apply(c, s, Return(k, vectors));
      (s'.entry.status == TS.PROCESSING <==> (s.done + |c.batches[k]|) % 5 == 0) && s'.entry.progress == 100
  {
    InvReachable(c, entry, acts);
    FailureLeavesOneRaised(c, entry, acts);
    SiblingStep(c, Exec(c, entry, acts).value, k, vectors);
  }

  // ---- which documents can lose the failure --------------------------------------------

  /** The run has recorded a failure, and its status is PROCESSING all the same. */
  predicate Overwritten(c: Config, entry: TS.Entry, acts: seq<Action>) {
    Exec(c, entry, acts).Some? && Exec(c, entry, acts).value.main.HandledFailure? &&
    Exec(c, entry, acts).value.entry.status == TS.PROCESSING
  }

  /** The chunks in the batches of a set. */
  function SumOf(batches: seq<seq<Chunk>>, chosen: set<nat>): nat {
    if batches == [] then 0
    else
      var n := |batches| - 1;
      SumOf(batches[..n], chosen) + (if n in chosen then |batches[n]| else 0)
  }

  function StoredIds(bs: seq<Batch>): set<nat> {
    set k: nat | k < |bs| && bs[k].Stored?
  }

  lemma {:induction false} SumOfStored(bs: seq<Batch>, batches: seq<seq<Chunk>>, chosen: set<nat>)
    requires |bs| == |batches| && forall k :: 0 <= k < |bs| ==> (bs[k].Stored? <==> k in chosen)
    ensures StoredSize(bs, batches) == SumOf(batches, chosen)
  {
    if bs != [] {
      SumOfStored(bs[..|bs| - 1], batches[..|bs| - 1], chosen);
    }
  }

  /** Some batches, but not all, that have a multiple of five chunks together. */
  ghost predicate Loses(batches: seq<seq<Chunk>>, chosen: set<nat>) {
    chosen != {} && (forall k :: k in chosen ==> k < |batches|) &&
    (exists r: nat :: r < |batches| && r !in chosen) &&
    SumOf(batches, chosen) % 5 == 0
  }

  lemma {:induction false} OverwrittenLoses(c: Config, entry: TS.Entry, acts: seq<Action>) returns (chosen: set<nat>)
    requires Overwritten(c, entry, acts) && forall i :: 0 <= i < |c.batches| ==> c.batches[i] != []
    ensures Loses(c.batches, chosen)
  {
    var init, a := acts[..|acts| - 1], acts[|acts| - 1];
    var s, s' := Exec(c, entry, init).value, Exec(c, entry, acts).value;
    if Overwritten(c, entry, init) {
      chosen := OverwrittenLoses(c, entry, init);
    } else {
      InvReachable(c, entry, init);
      InvReachable(c, entry, acts);
      OverwritingStep(c, s, a);
      FailureLeavesOneRaised(c, entry, init);
      SiblingStep(c, s, a.k, a.vectors);
      var r: nat :| r < |s.batches| && s.batches[r].Raised?;
      chosen := StoredLose(c, s', a.k, r);
    }
  }

  /** Only a sibling that finishes can overwrite the failure. */
  lemma OverwritingStep(c: Config, s: State, a: Action)
    requires Inv(c, s) && Enabled(c, s, a)
    requires !(s.main.HandledFailure? && s.entry.status == TS.PROCESSING)
    requires Apply(c, s, a).main.HandledFailure? && Apply(c, s, a).entry.status == TS.PROCESSING
    ensures s.main.HandledFailure? && a.Return? && |a.vectors| == |c.batches[a.k]|
    ensures Reports(s.done + |c.batches[a.k]|, Total(c))
  {
  }

  lemma StoredLose(c: Config, s: State, k: nat, r: nat) returns (chosen: set<nat>)
    requires Inv(c, s) && s.done % 5 == 0
    requires k < |s.batches| && s.batches[k].Stored? && r < |s.batches| && s.batches[r].Raised?
    ensures Loses(c.batches, chosen)
  {
    chosen := StoredIds(s.batches);
    SumOfStored(s.batches, c.batches, chosen);
    assert k in chosen && r !in chosen;
  }

  /** Where the batches stand when `r` has raised and those of `chosen` below `m` have finished. */
  ghost predicate Stands(c: Config, s: State, chosen: set<nat>, r: nat, m: nat) {
    && |s.batches| == |c.batches| && s.main.HandledFailure? && s.permits == c.concurrency && m <= |c.batches|
    && (forall k :: 0 <= k < |s.batches| ==>
         if k == r then s.batches[k].Raised?
         else if k in chosen && k < m then s.batches[k].Stored?
         else s.batches[k].Waiting?)
    && s.done == SumOf(c.batches[..m], chosen)
    && ((exists k: nat :: k < m && k in chosen) && s.done % 5 == 0 ==> s.entry.status == TS.PROCESSING)
  }

  /** After the failure of `r`, the chosen batches finish one after the other. */
  lemma {:induction false} ChosenFinish(c: Config, entry: TS.Entry, chosen: set<nat>, r: nat, m: nat)
    returns (acts: seq<Action>)
    requires c.concurrency >= 1 && r < |c.batches| && r !in chosen && m <= |c.batches|
    ensures Exec(c, entry, acts).Some? && Stands(c, Exec(c, entry, acts).value, chosen, r, m)
  {
    if m == 0 {
      acts := FirstFails(c, entry, r);
      FirstStands(c, Exec(c, entry, acts).value, chosen, r);
    } else {
      acts := ChosenFinish(c, entry, chosen, r, m - 1);
      var s := Exec(c, entry, acts).value;
      if m - 1 in chosen {
        acts := OneFinishes(c, entry, acts, m - 1);
        NextStands(c, s, Exec(c, entry, acts).value, chosen, r, m);
      } else {
        SkipStands(c, s, chosen, r, m);
      }
    }
  }

  lemma FirstStands(c: Config, s: State, chosen: set<nat>, r: nat)
    requires r < |c.batches| && |s.batches| == |c.batches| && s.main.HandledFailure? && s.permits == c.concurrency
    requires s.done == 0
    requires forall k :: 0 <= k < |s.batches| ==> if k == r then s.batches[k].Raised? else s.batches[k].Waiting?
    ensures Stands(c, s, chosen, r, 0)
  {
  }

  lemma SkipStands(c: Config, s: State, chosen: set<nat>, r: nat, m: nat)
    requires 0 < m <= |c.batches| && m - 1 !in chosen && Stands(c, s, chosen, r, m - 1)
    ensures Stands(c, s, chosen, r, m)
  {
    SumUpTo(c.batches, chosen, m);
  }

  lemma SumUpTo(batches: seq<seq<Chunk>>, chosen: set<nat>, m: nat)
    requires 0 < m <= |batches|
    ensures SumOf(batches[..m], chosen)
         == SumOf(batches[..m - 1], chosen) + (if m - 1 in chosen then |batches[m - 1]| else 0)
  {
    assert batches[..m][..m - 1] == batches[..m - 1];
  }

  lemma NextStands(c: Config, s: State, s': State, chosen: set<nat>, r: nat, m: nat)
    requires 0 < m <= |c.batches| && r !in chosen && m - 1 in chosen && Stands(c, s, chosen, r, m - 1)
    requires s'.main == s.main && s'.permits == s.permits && s'.done == s.done + |c.batches[m - 1]|
    requires |s'.batches| == |s.batches| && s'.batches[m - 1].Stored?
    requires forall j :: 0 <= j < |s.batches| && j != m - 1 ==> s'.batches[j] == s.batches[j]
    requires s'.done % 5 == 0 ==> s'.entry.status == TS.PROCESSING
    ensures Stands(c, s', chosen, r, m)
  {
    SumUpTo(c.batches, chosen, m);
  }

  lemma FirstFails(c: Config, entry: TS.Entry, r: nat) returns (acts: seq<Action>)
    requires c.concurrency >= 1 && r < |c.batches|
    ensures Exec(c, entry, acts).Some?
    ensures var s := Exec(c, entry, acts).value;
      s.main.HandledFailure? && s.permits == c.concurrency && s.done == 0 &&
      s.batches == Init(c, entry).batches[r := Raised]
  {
    var s0 := Init(c, entry);
    ExecSnoc(c, entry, [], Acquire(r), s0);
    var s1 := Apply(c, s0, Acquire(r));
    ExecSnoc(c, entry, [] + [Acquire(r)], Throw(r), s1);
    var s2 := Apply(c, s1, Throw(r));
    assert s2.batches[r].Raised?;
    ExecSnoc(c, entry, [] + [Acquire(r)] + [Throw(r)], Fail, s2);
    acts := [] + [Acquire(r)] + [Throw(r)] + [Fail];
  }

  lemma OneFinishes(c: Config, entry: TS.Entry, before: seq<Action>, k: nat) returns (acts: seq<Action>)
    requires Exec(c, entry, before).Some?
    requires var s := Exec(c, entry, before).value;
      k < |s.batches| && s.batches[k].Waiting? && s.permits > 0 && s.main.HandledFailure?
    ensures Exec(c, entry, acts).Some?
    ensures var s, s' := Exec(c, entry, before).value, Exec(c, entry, acts).value;
      s'.main == s.main && s'.permits == s.permits && s'.done == s.done + |c.batches[k]| &&
      |s'.batches| == |s.batches| && s'.batches[k].Stored? &&
      (forall j :: 0 <= j < |s.batches| && j != k ==> s'.batches[j] == s.batches[j]) &&
      (s'.done % 5 == 0 ==> s'.entry.status == TS.PROCESSING)
  {
    var s := Exec(c, entry, before).value;
    var vectors: seq<Vector> := seq(|c.batches[k]|, _ => []);
    ExecSnoc(c, entry, before, Acquire(k), s);
    ExecSnoc(c, entry, before + [Acquire(k)], Return(k, vectors), Apply(c, s, Acquire(k)));
    acts := before + [Acquire(k)] + [Return(k, vectors)];
  }

  /** Read off the sizes of the batches alone: some run ends with PROCESSING although a failure
      was recorded if and only if some batches, but not all, have a multiple of five chunks
      together. */
  lemma FailureCanBeLostIff(c: Config, entry: TS.Entry)
    requires c.concurrency >= 1 && forall i :: 0 <= i < |c.batches| ==> c.batches[i] != []
    ensures (exists acts :: Overwritten(c, entry, acts)) <==> (exists chosen :: Loses(c.batches, chosen))
  {
    if acts :| Overwritten(c, entry, acts) {
      var chosen := OverwrittenLoses(c, entry, acts);
    }
    if chosen :| Loses(c.batches, chosen) {
      var r: nat :| r < |c.batches| && r !in chosen;
      var acts := ChosenFinish(c, entry, chosen, r, |c.batches|);
      assert c.batches[..|c.batches|] == c.batches;
      var k :| k in chosen;
      assert Overwritten(c, entry, acts);
    }
  }

  lemma {:induction false} FailureLeavesOneRaised(c: Config, entry: TS.Entry, acts: seq<Action>)
    requires Exec(c, entry, acts).Some? && Exec(c, entry, acts).value.main.HandledFailure?
    ensures exists r :: 0 <= r < |c.batches| && Exec(c, entry, acts).value.batches[r].Raised?
  {
    var init, a := acts[..|acts| - 1], acts[|acts| - 1];
    var before := Exec(c, entry, init).value;
    if before.main.HandledFailure? {
      FailureLeavesOneRaised(c, entry, init);
      var r :| 0 <= r < |c.batches| && before.batches[r].Raised?;
      assert Apply(c, before, a).batches[r].Raised?;
    } else {
      var r :| 0 <= r < |before.batches| && before.batches[r].Raised?;
      assert Apply(c, before, a).batches[r].Raised?;
    }
  }

  lemma CountTwo(a: Batch, b: Batch)
    ensures CountInside([a, b]) == (if a.Inside? then 1 else 0) + (if b.Inside? then 1 else 0)
  {
    assert [a, b][..1] == [a] && [a][..0] == [];
    assert CountInside([a]) == CountInside([]) + (if a.Inside? then 1 else 0);
  }

  lemma BothInside(c: Config, entry: TS.Entry)
    requires |c.batches| == 2 && c.concurrency == 2
    ensures Exec(c, entry, [Acquire(0), Acquire(1)]) == Some(State([Inside, Inside], 0, 0, Gathering, entry))
  {
    var s0, s1 := State([Waiting, Waiting], 2, 0, Gathering, entry), State([Inside, Waiting], 1, 0, Gathering, entry);
    assert Init(c, entry).batches == s0.batches;
    CountTwo(Waiting, Waiting);
    CountTwo(Inside, Waiting);
    assert s0.batches[0 := Inside] == s1.batches;
    ExecSnoc(c, entry, [], Acquire(0), s0);
    assert [] + [Acquire(0)] == [Acquire(0)];
    assert s1.batches[1 := Inside] == [Inside, Inside];
    ExecSnoc(c, entry, [Acquire(0)], Acquire(1), s1);
    assert [Acquire(0)] + [Acquire(1)] == [Acquire(0), Acquire(1)];
  }

  /** The overwriting happens: six chunks in batches of five, of which the second raises. */
  lemma FailureCanBeOverwritten(entry: TS.Entry, chunks: seq<Chunk>, vectors: seq<Vector>)
    requires |chunks| == 6 && |vectors| == 5
    ensures var c := Config(Batches(chunks, 5), 2);
      var s := Exec(c, entry, [Acquire(0), Acquire(1), Throw(1), Fail, Return(0, vectors)]);
      s.Some? && s.value.main == HandledFailure &&
      s.value.entry.status == TS.PROCESSING && s.value.entry.progress == 100
  {
    var c := Config(Batches(chunks, 5), 2);
    assert Batches(chunks[5..], 5) == [chunks[5..]];
    assert c.batches == [chunks[..5]] + [chunks[5..]];
    BatchesFlatten(chunks, 5);
    var acts := [Acquire(0), Acquire(1), Throw(1), Fail, Return(0, vectors)];
    BothInside(c, entry);
    var s2 := State([Inside, Inside], 0, 0, Gathering, entry);
    ExecSnoc(c, entry, acts[..2], Throw(1), s2);
    var s3 := Apply(c, s2, Throw(1));
    assert s3.batches[1].Raised?;
    assert acts[..3] == acts[..2] + [Throw(1)] && acts[..4] == acts[..3] + [Fail];
    ExecSnoc(c, entry, acts[..3], Fail, s3);
    var s4 := Apply(c, s3, Fail);
    ExecSnoc(c, entry, acts[..4], Return(0, vectors), s4);
    assert acts[..5] == acts;
  }

  lemma ExecSnoc(c: Config, entry: TS.Entry, acts: seq<Action>, a: Action, s: State)
    requires Exec(c, entry, acts) == Some(s) && Enabled(c, s, a)
    ensures Exec(c, entry, acts + [a]) == Some(Apply(c, s, a))
  {
    assert (acts + [a])[..|acts|] == acts;
  }

  /** In this phase, too, progress never falls, and it reaches 100 only when the failure has
      been recorded. */
  lemma {:induction false} EmbeddingProgress(c: Config, entry: TS.Entry, acts: seq<Action>)
    requires Exec(c, entry, acts).Some? && 0 <= entry.progress <= 95
    ensures var s := Exec(c, entry, acts).value;
      entry.progress <= s.entry.progress <= 100 && (s.entry.progress > 95 <==> s.main.HandledFailure?)
    ensures acts != [] ==>
      Exec(c, entry, acts[..|acts| - 1]).value.entry.progress <= Exec(c, entry, acts).value.entry.progress
  {
    if acts != [] {
      EmbeddingProgress(c, entry, acts[..|acts| - 1]);
    }
  }
}
