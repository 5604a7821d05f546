/** The index-replacement steps of `_process_document_background` in
    python-ai/app/api/vectorization.py: read the stored ids, stage the new version, delete what
    is stale with one retry, call back.  Any step can fail. */
module IndexReplacement {
  import opened Common

  type Id = string
  type Content = string
  type Index = map<Id, Content>

  datatype Chunk = Chunk(id: Id, content: Content)

  /** Where the task is; `stale` is what it asked the store to delete. */
  datatype Phase =
    | Fetching
    | Inserting(known: set<Id>)
    | Deleting(stale: set<Id>, retried: bool)
    | CallingBack
    | Completed
    | Failed

  datatype State = State(store: Index, phase: Phase)

  /** How the call of the current step ends.  A fetch lists stored ids of the document in some
      order, all of them or, where the store bounds its answers, a part.  A failing delete may
      have removed any part of what it was asked to remove.  A fetch or a delete can also end in
      an exception, which fails the task at once. */
  datatype Outcome =
    | Listed(ids: seq<Id>)
    | FetchFailed
    | Inserted
    | InsertFailed
    | Deleted
    | DeleteFailed(removed: set<Id>)
    | Raised(removed: set<Id>)
    | Notified(ok: bool)

  const PAGE_SIZE := 100000

  /** The new version: the upserts of its chunks, in order. */
  function Version(chunks: seq<Chunk>): Index {
    if chunks == [] then map[]
    else Version(chunks[..|chunks| - 1])[chunks[|chunks| - 1].id := chunks[|chunks| - 1].content]
  }

  /** `{str(id) for id in ids if id}`. */
  function NonEmpty(ids: set<Id>): set<Id> {
    ids - {""}
  }

  predicate Enabled(s: State, o: Outcome) {
    match s.phase
    case Fetching => (o.Listed? && SetOf(o.ids) <= s.store.Keys) || o.FetchFailed? || o == Raised({})
    case Inserting(_) => o.Inserted? || o.InsertFailed?
    case Deleting(stale, _) => o.Deleted? || ((o.DeleteFailed? || o.Raised?) && o.removed <= stale)
    case CallingBack => o.Notified?
    case Completed => false
    case Failed => false
  }

  function Step(chunks: seq<Chunk>, s: State, o: Outcome): State
    requires Enabled(s, o)
  {
    match s.phase
    case Fetching =>
      if o.Raised? then s.(phase := Failed)
      else
        var known := if o.Listed? then NonEmpty(SetOf(Take(o.ids, PAGE_SIZE))) else {};
        s.(phase := Inserting(known))
    case Inserting(known) =>
      if o.InsertFailed? then s.(phase := Failed)
      else
        var stale := known - NonEmpty(Version(chunks).Keys);
        State(s.store + Version(chunks), if stale == {} then CallingBack else Deleting(stale, false))
    case Deleting(stale, retried) =>
      (match o
       case DeleteFailed(removed) =>
         State(s.store - removed, if retried then Failed else Deleting(stale, true))
       case Raised(removed) => State(s.store - removed, Failed)
       case _ => State(s.store - stale, CallingBack))
    case CallingBack => s.(phase := Completed)
    case _ => s
  }

  function Run(chunks: seq<Chunk>, s: State, os: seq<Outcome>): Option<State> {
    if os == [] then Some(s)
    else
      var before := Run(chunks, s, os[..|os| - 1]);
      if before.Some? && Enabled(before.value, os[|os| - 1])
      then Some(Step(chunks, before.value, os[|os| - 1])) else None
  }

  // ---- at every step -------------------------------------------------------------------

  /** The store has every chunk of the version, with its content. */
  ghost predicate HasVersion(store: Index, version: Index) {
    forall id :: id in version ==> id in store && store[id] == version[id]
  }

  /** The store has nothing but the version and leftovers of the old one. */
  ghost predicate NothingElse(store: Index, stored: Index, version: Index) {
    forall id :: id in store && id !in version ==> id in stored && store[id] == stored[id]
  }

  /** The ids that the fetch has reported, once it has. */
  function Known(stored: Index, os: seq<Outcome>): set<Id> {
    if os != [] && os[0].Listed? then NonEmpty(SetOf(Take(os[0].ids, PAGE_SIZE))) else {}
  }

  ghost predicate Inv(stored: Index, chunks: seq<Chunk>, os: seq<Outcome>, s: State) {
    var next := Version(chunks);
    var stale := Known(stored, os) - NonEmpty(next.Keys);
    match s.phase
    case Fetching => s.store == stored && os == []
    case Inserting(known) => s.store == stored && os != [] && known == Known(stored, os)
    case Deleting(st, _) =>
      os != [] && st == stale && stale != {} && HasVersion(s.store, next) && NothingElse(s.store, stored, next) &&
      (stored.Keys + next.Keys) - stale <= s.store.Keys
    case Failed =>
      os != [] && (s.store == stored || (HasVersion(s.store, next) && NothingElse(s.store, stored, next)))
    case _ =>
      os != [] && HasVersion(s.store, next) && NothingElse(s.store, stored, next) &&
      s.store.Keys == (stored.Keys + next.Keys) - stale
  }

  lemma StepKeeps(stored: Index, chunks: seq<Chunk>, os: seq<Outcome>, s: State, o: Outcome)
    requires Inv(stored, chunks, os, s) && Enabled(s, o)
    ensures Inv(stored, chunks, os + [o], Step(chunks, s, o))
  {
    assert os != [] ==> (os + [o])[0] == os[0];
    var s' := Step(chunks, s, o);
    if s.phase.Deleting? {
      assert "" !in s.phase.stale;
    }
  }

  lemma {:induction false} Reachable(stored: Index, chunks: seq<Chunk>, os: seq<Outcome>)
    requires Run(chunks, State(stored, Fetching), os).Some?
    ensures Inv(stored, chunks, os, Run(chunks, State(stored, Fetching), os).value)
  {
    if os != [] {
      var init, o := os[..|os| - 1], os[|os| - 1];
      Reachable(stored, chunks, init);
      StepKeeps(stored, chunks, init, Run(chunks, State(stored, Fetching), init).value, o);
      assert os == init + [o];
    }
  }

  /** In every reachable state, whatever fails, the document's stored chunks contain the
      complete old version or the complete new one. */
  lemma AlwaysAVersion(stored: Index, chunks: seq<Chunk>, os: seq<Outcome>)
    requires Run(chunks, State(stored, Fetching), os).Some?
    ensures var s := Run(chunks, State(stored, Fetching), os).value;
      s.store == stored || (HasVersion(s.store, Version(chunks)) && NothingElse(s.store, stored, Version(chunks)))
  {
    Reachable(stored, chunks, os);
  }

  /** Before the insert succeeds, nothing of the old version is touched. */
  lemma OldIntactUntilStaged(stored: Index, chunks: seq<Chunk>, os: seq<Outcome>)
    requires Run(chunks, State(stored, Fetching), os).Some? && forall i :: 0 <= i < |os| ==> !os[i].Inserted?
    ensures Run(chunks, State(stored, Fetching), os).value.store == stored
  {
    NotStaged(stored, chunks, os);
  }

  lemma {:induction false} NotStaged(stored: Index, chunks: seq<Chunk>, os: seq<Outcome>)
    requires Run(chunks, State(stored, Fetching), os).Some? && forall i :: 0 <= i < |os| ==> !os[i].Inserted?
    ensures var s := Run(chunks, State(stored, Fetching), os).value;
      s.store == stored && (s.phase.Fetching? || s.phase.Inserting? || s.phase.Failed?)
  {
    if os != [] {
      NotStaged(stored, chunks, os[..|os| - 1]);
    }
  }

  predicate LastWith(chunks: seq<Chunk>, id: Id, i: nat)
    requires i < |chunks|
  {
    chunks[i].id == id && forall j :: i < j < |chunks| ==> chunks[j].id != id
  }

  /** The new version has the ids of the chunks, each with the content of the last chunk that
      carries it. */
  lemma {:induction false} VersionIs(chunks: seq<Chunk>, id: Id)
    ensures id in Version(chunks) <==> exists i :: 0 <= i < |chunks| && chunks[i].id == id
    ensures forall i :: 0 <= i < |chunks| && LastWith(chunks, id, i) ==> Version(chunks)[id] == chunks[i].content
  {
    if chunks != [] {
      var init := chunks[..|chunks| - 1];
      VersionIs(init, id);
      assert forall i :: 0 <= i < |init| ==> init[i] == chunks[i];
    }
  }

  /** What a run knows to be stored: the ids among the first 100000 of the listing, if the fetch
      gave one, that are not empty. */
  lemma KnownAre(stored: Index, os: seq<Outcome>, id: Id)
    ensures id in Known(stored, os) <==>
      os != [] && os[0].Listed? && id != "" && exists i :: 0 <= i < |os[0].ids| && i < 100000 && os[0].ids[i] == id
  {
    if os != [] && os[0].Listed? {
      var listed := Take(os[0].ids, PAGE_SIZE);
      assert forall i :: 0 <= i < |listed| ==> listed[i] == os[0].ids[i];
      forall i | 0 <= i < |os[0].ids| && i < 100000 && os[0].ids[i] == id ensures id in SetOf(listed) {
        assert listed[i] == id;
      }
    }
  }

  // ---- how a run ends, by the outcomes alone -------------------------------------------

  function FailedDeletes(os: seq<Outcome>): nat {
    if os == [] then 0
    else FailedDeletes(os[..|os| - 1]) + (if os[|os| - 1].DeleteFailed? then 1 else 0)
  }

  predicate Breaks(os: seq<Outcome>) {
    exists i :: 0 <= i < |os| && (os[i].InsertFailed? || os[i].Raised?)
  }

  /** The insert failed, something raised, or the delete failed twice. */
  predicate Fails(os: seq<Outcome>) {
    Breaks(os) || FailedDeletes(os) >= 2
  }

  predicate Notifies(os: seq<Outcome>) {
    exists i :: 0 <= i < |os| && os[i].Notified?
  }

  predicate Deletes(os: seq<Outcome>) {
    exists i :: 0 <= i < |os| && os[i].Deleted?
  }

  predicate Inserts(os: seq<Outcome>) {
    exists i :: 0 <= i < |os| && os[i].Inserted?
  }

  lemma OutcomesSnoc(init: seq<Outcome>, o: Outcome)
    ensures Notifies(init + [o]) <==> Notifies(init) || o.Notified?
    ensures Deletes(init + [o]) <==> Deletes(init) || o.Deleted?
    ensures Inserts(init + [o]) <==> Inserts(init) || o.Inserted?
    ensures Breaks(init + [o]) <==> Breaks(init) || o.InsertFailed? || o.Raised?
    ensures FailedDeletes(init + [o]) == FailedDeletes(init) + (if o.DeleteFailed? then 1 else 0)
  {
    var os := init + [o];
    assert os[..|os| - 1] == init && os[|init|] == o;
    assert forall i :: 0 <= i < |init| ==> init[i] == os[i];
  }

  /** Where a run stands, from its outcomes alone. */
  ghost predicate StandsAsTold(stored: Index, chunks: seq<Chunk>, os: seq<Outcome>, phase: Phase) {
    (phase.Failed? <==> Fails(os)) && (phase.Completed? <==> Notifies(os)) &&
    (phase.Fetching? <==> os == []) &&
    (phase.Inserting? <==> os != [] && !Inserts(os) && !Fails(os)) &&
    (phase.Deleting? ==> phase.retried == (FailedDeletes(os) == 1)) &&
    (phase.Deleting? <==>
       Inserts(os) && !Fails(os) && !Deletes(os) && !Notifies(os) &&
       Known(stored, os) - NonEmpty(Version(chunks).Keys) != {})
  }

  /** A run has failed exactly when its insert failed, something raised, or the delete failed
      twice; it has completed exactly when the callback was made.  Between the insert and the
      callback it waits for a delete as long as there is something stale and none has succeeded. */
  lemma {:induction false} EndsByOutcomes(stored: Index, chunks: seq<Chunk>, os: seq<Outcome>)
    requires Run(chunks, State(stored, Fetching), os).Some?
    ensures StandsAsTold(stored, chunks, os, Run(chunks, State(stored, Fetching), os).value.phase)
    ensures FailedDeletes(os) > 0 || Deletes(os) ==> Inserts(os)
  {
    if os != [] {
      var init, o := os[..|os| - 1], os[|os| - 1];
      EndsByOutcomes(stored, chunks, init);
      Reachable(stored, chunks, init);
      assert os == init + [o];
      ToldStep(stored, chunks, init, o, Run(chunks, State(stored, Fetching), init).value);
    }
  }

  lemma ToldStep(stored: Index, chunks: seq<Chunk>, init: seq<Outcome>, o: Outcome, s: State)
    requires StandsAsTold(stored, chunks, init, s.phase) && Inv(stored, chunks, init, s) && Enabled(s, o)
    requires FailedDeletes(init) > 0 || Deletes(init) ==> Inserts(init)
    ensures StandsAsTold(stored, chunks, init + [o], Step(chunks, s, o).phase)
    ensures FailedDeletes(init + [o]) > 0 || Deletes(init + [o]) ==> Inserts(init + [o])
  {
    var os := init + [o];
    OutcomesSnoc(init, o);
    assert Known(stored, os) == if init == [] then Known(stored, [o]) else Known(stored, init);
  }

  /** One failed delete is made good by the next: with something stale, the run is possible and
      completes. */
  lemma OneFailureIsRetried(stored: Index, chunks: seq<Chunk>, ids: seq<Id>, removed: set<Id>, ok: bool)
    requires SetOf(ids) <= stored.Keys
    requires var stale := NonEmpty(SetOf(Take(ids, 100000))) - NonEmpty(Version(chunks).Keys);
      stale != {} && removed <= stale
    ensures var r := Run(chunks, State(stored, Fetching),
                         [Listed(ids), Inserted, DeleteFailed(removed), Deleted, Notified(ok)]);
      r.Some? && r.value.phase == Completed
  {
    var s0, known := State(stored, Fetching), NonEmpty(SetOf(Take(ids, PAGE_SIZE)));
    RetriedRun(chunks, s0, ids, known, known - NonEmpty(Version(chunks).Keys), removed, ok);
  }

  lemma RetriedRun(chunks: seq<Chunk>, s0: State, ids: seq<Id>, known: set<Id>, stale: set<Id>, removed: set<Id>,
      ok: bool)
    requires s0.phase == Fetching && SetOf(ids) <= s0.store.Keys
    requires known == NonEmpty(SetOf(Take(ids, PAGE_SIZE))) && stale == known - NonEmpty(Version(chunks).Keys)
    requires stale != {} && removed <= stale
    ensures var r := Run(chunks, s0, [Listed(ids), Inserted, DeleteFailed(removed), Deleted, Notified(ok)]);
      r.Some? && r.value.phase == Completed
  {
    var staged := s0.store + Version(chunks);
    var s1, s2 := State(s0.store, Inserting(known)), State(staged, Deleting(stale, false));
    var s3 := State(staged - removed, Deleting(stale, true));
    var s4 := State(staged - removed - stale, CallingBack);
    var a, b, c, d, e := Listed(ids), Inserted, DeleteFailed(removed), Deleted, Notified(ok);
    RunSnoc(chunks, s0, [], a, s0, s1);
    RunSnoc(chunks, s0, [] + [a], b, s1, s2);
    RunSnoc(chunks, s0, [] + [a] + [b], c, s2, s3);
    RunSnoc(chunks, s0, [] + [a] + [b] + [c], d, s3, s4);
    RunSnoc(chunks, s0, [] + [a] + [b] + [c] + [d], e, s4, s4.(phase := Completed));
    assert [] + [a] + [b] + [c] + [d] + [e] == [a, b, c, d, e];
  }

  // ---- when COMPLETED is written -------------------------------------------------------

  /** Every stored id that the new version does not reuse was reported by the fetch. */
  predicate LeftoversKnown(stored: Index, chunks: seq<Chunk>, os: seq<Outcome>) {
    stored.Keys - Version(chunks).Keys <= Known(stored, os)
  }

  /** When the task completes, the stored chunks are exactly the new version if and only if the
      fetch had reported every stored id that the new version does not reuse. */
  lemma CompletedIsExactIff(stored: Index, chunks: seq<Chunk>, os: seq<Outcome>)
    requires Run(chunks, State(stored, Fetching), os).Some? &&
      Run(chunks, State(stored, Fetching), os).value.phase.Completed?
    ensures Run(chunks, State(stored, Fetching), os).value.store == Version(chunks) <==>
      LeftoversKnown(stored, chunks, os)
  {
    Reachable(stored, chunks, os);
    var s, next := Run(chunks, State(stored, Fetching), os).value, Version(chunks);
    var stale := Known(stored, os) - NonEmpty(next.Keys);
    if LeftoversKnown(stored, chunks, os) {
      assert s.store.Keys == next.Keys by {
        assert forall id :: id in stored.Keys && id !in next.Keys ==> id in stale;
        assert forall id :: id in next.Keys ==> id !in stale;
      }
    } else {
      var id :| id in stored.Keys - next.Keys && id !in Known(stored, os);
      assert id in s.store;
    }
  }

  /** In particular when the fetch lists all stored chunks, which are at most 100000 and all have
      an id. */
  lemma CompletedIsExact(stored: Index, chunks: seq<Chunk>, os: seq<Outcome>)
    requires Run(chunks, State(stored, Fetching), os).Some? &&
      Run(chunks, State(stored, Fetching), os).value.phase.Completed?
    requires os[0].Listed? && SetOf(os[0].ids) == stored.Keys && |os[0].ids| <= 100000 && "" !in stored
    ensures Run(chunks, State(stored, Fetching), os).value.store == Version(chunks)
  {
    CompletedIsExactIff(stored, chunks, os);
    assert Take(os[0].ids, PAGE_SIZE) == os[0].ids;
  }

  /** A failed fetch counts as an empty one, so that the task completes over leftovers. */
  lemma FailedFetchLeavesLeftovers()
    ensures var stored, chunks: seq<Chunk> := map["d_chunk_9" := "old"], [Chunk("d_chunk_0", "new")];
      var r := Run(chunks, State(stored, Fetching), [FetchFailed, Inserted, Notified(true)]);
      r.Some? && r.value.phase == Completed && "d_chunk_9" in r.value.store && "d_chunk_9" !in Version(chunks)
  {
    var stored, chunks: seq<Chunk> := map["d_chunk_9" := "old"], [Chunk("d_chunk_0", "new")];
    var os := [FetchFailed, Inserted, Notified(true)];
    assert os[..2] == [FetchFailed, Inserted] && os[..2][..1] == [FetchFailed] && os[..2][..1][..0] == [];
    assert chunks[..0] == [];
    assert Version(chunks) == map["d_chunk_0" := "new"];
    var s0 := State(stored, Fetching);
    assert Run(chunks, s0, [FetchFailed]) == Some(State(stored, Inserting({})));
    assert Run(chunks, s0, [FetchFailed, Inserted]) == Some(State(stored + Version(chunks), CallingBack));
  }

  /** A listing that leaves a stored id out has the same effect. */
  lemma PartialListingLeavesLeftovers()
    ensures var stored, chunks: seq<Chunk> := map["a" := "old", "b" := "old"], [Chunk("c", "new")];
      var r := Run(chunks, State(stored, Fetching), [Listed(["a"]), Inserted, Deleted, Notified(true)]);
      r.Some? && r.value.phase == Completed && "b" in r.value.store && "b" !in Version(chunks)
  {
    var stored, chunks: seq<Chunk> := map["a" := "old", "b" := "old"], [Chunk("c", "new")];
    var s0 := State(stored, Fetching);
    assert chunks[..0] == [];
    assert Version(chunks) == map["c" := "new"];
    assert SetOf(["a"]) == {"a"} by {
      assert ["a"][0] == "a";
    }
    assert Take(["a"], PAGE_SIZE) == ["a"] && NonEmpty({"a"}) == {"a"};
    assert Version(chunks).Keys == {"c"} && {"a"} - NonEmpty({"c"}) == {"a"};
    var s1 := State(stored, Inserting({"a"}));
    var s2 := State(stored + Version(chunks), Deleting({"a"}, false));
    var s3 := State(s2.store - {"a"}, CallingBack);
    RunSnoc(chunks, s0, [], Listed(["a"]), s0, s1);
    RunSnoc(chunks, s0, [] + [Listed(["a"])], Inserted, s1, s2);
    RunSnoc(chunks, s0, [] + [Listed(["a"])] + [Inserted], Deleted, s2, s3);
    RunSnoc(chunks, s0, [] + [Listed(["a"])] + [Inserted] + [Deleted], Notified(true), s3, s3.(phase := Completed));
    assert [] + [Listed(["a"])] + [Inserted] + [Deleted] + [Notified(true)]
        == [Listed(["a"]), Inserted, Deleted, Notified(true)];
  }

  lemma RunSnoc(chunks: seq<Chunk>, s: State, os: seq<Outcome>, o: Outcome, mid: State, next: State)
    requires Run(chunks, s, os) == Some(mid) && Enabled(mid, o) && Step(chunks, mid, o) == next
    ensures Run(chunks, s, os + [o]) == Some(next)
  {
    assert (os + [o])[..|os|] == os;
  }

  /** A failed run is made good by a further one: from whatever it left behind, a run whose calls
      succeed, and whose fetch lists everything, ends with exactly the new version. */
  lemma RetryConverges(stored: Index, chunks: seq<Chunk>, os: seq<Outcome>, again: seq<Outcome>)
    requires Run(chunks, State(stored, Fetching), os).Some? && "" !in stored && "" !in Version(chunks)
    requires var left := Run(chunks, State(stored, Fetching), os).value.store;
      Run(chunks, State(left, Fetching), again).Some? &&
        Run(chunks, State(left, Fetching), again).value.phase.Completed? &&
      again[0].Listed? && SetOf(again[0].ids) == left.Keys && |again[0].ids| <= 100000
    ensures var left := Run(chunks, State(stored, Fetching), os).value.store;
      Run(chunks, State(left, Fetching), again).value.store == Version(chunks)
  {
    AlwaysAVersion(stored, chunks, os);
    var left := Run(chunks, State(stored, Fetching), os).value.store;
    assert "" !in left;
    CompletedIsExact(left, chunks, again);
  }

  // ---- the callback --------------------------------------------------------------------

  /** The answer to one attempt: a status code, or a network or other client error. */
  datatype Response = Code(status: nat) | NetworkError

  /** The retry loop of `_notify_callback_async`: it succeeds exactly when one of three attempts
      is answered below 400 and none before it by a client error. */
  method NotifyCallback(responses: seq<Response>) returns (ok: bool, attempts: nat)
    requires |responses| == 3
    ensures ok <==> exists i :: 0 <= i < 3 && Accepted(responses[i]) && forall j :: 0 <= j < i ==> Retried(responses[j])
    ensures 1 <= attempts <= 3 && forall j :: 0 <= j < attempts - 1 ==> Retried(responses[j])
    ensures attempts == 3 || !Retried(responses[attempts - 1])
  {
    attempts := 0;
    while attempts < 3
      invariant 0 <= attempts <= 3
      invariant forall j :: 0 <= j < attempts ==> Retried(responses[j])
    {
      var r := responses[attempts];
      attempts := attempts + 1;
      if r.Code? {
        if r.status < 400 {
          return true, attempts;
        }
        if 400 <= r.status < 500 {
          return false, attempts;
        }
      }
    }
    return false, attempts;
  }

  predicate Accepted(r: Response) {
    r.Code? && r.status < 400
  }

  predicate Retried(r: Response) {
    r.NetworkError? || r.status >= 500
  }
}
