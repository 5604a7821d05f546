/** The bounded task-status store of python-ai/app/api/vectorization.py: an ordered dictionary
    that keeps the most recently written entries, and the progress that it records. */
module TaskStatus {
  import opened Common

  datatype Status = PROCESSING | COMPLETED | FAILED

  predicate Terminal(s: Status) {
    s != PROCESSING
  }

  /** The fields of an entry that later writes or readers depend on. */
  datatype Entry = Entry(status: Status, progress: int, startTime: real, estimatedSeconds: Option<int>,
      totalChunks: Option<int>)

  /** The ordered dictionary, oldest write first. */
  type Items = seq<(string, Entry)>

  const TASK_STATUS_STORE_MAX := 10000

  // ---- the ordered dictionary ----------------------------------------------------------

  function Lookup(items: Items, id: string): Option<Entry> {
    if items == [] then None
    else if items[0].0 == id then Some(items[0].1)
    else Lookup(items[1..], id)
  }

  function Without(items: Items, id: string): Items {
    if items == [] then []
    else (if items[0].0 == id then [] else [items[0]]) + Without(items[1..], id)
  }

  function Newest(items: Items): (r: Items)
    ensures |r| <= TASK_STATUS_STORE_MAX
  {
    if |items| <= TASK_STATUS_STORE_MAX then items else items[|items| - TASK_STATUS_STORE_MAX..]
  }

  function Put(items: Items, id: string, e: Entry): Items {
    Newest(Without(items, id) + [(id, e)])
  }

  predicate HasKey(items: Items, id: string) {
    exists i :: 0 <= i < |items| && items[i].0 == id
  }

  ghost predicate KeysDiffer(items: Items) {
    forall i, j :: 0 <= i < j < |items| ==> items[i].0 != items[j].0
  }

  lemma {:induction false} WithoutKeys(items: Items, id: string)
    ensures !HasKey(Without(items, id), id)
    ensures KeysDiffer(items) ==> KeysDiffer(Without(items, id))
    ensures forall x :: x in Without(items, id) <==> x in items && x.0 != id
  {
    if items != [] {
      WithoutKeys(items[1..], id);
      assert items == [items[0]] + items[1..];
      if KeysDiffer(items) {
        assert KeysDiffer(items[1..]);
      }
    }
  }

  lemma {:induction false} LookupIsMember(items: Items, id: string, e: Entry)
    requires KeysDiffer(items)
    ensures Lookup(items, id) == Some(e) <==> (id, e) in items
  {
    if items != [] {
      assert items == [items[0]] + items[1..];
      var tail := items[1..];
      assert KeysDiffer(tail);
      assert forall i :: 0 <= i < |tail| ==> tail[i] == items[i + 1] && tail[i].0 != items[0].0;
      LookupIsMember(tail, id, e);
    }
  }

  lemma PutKeysDiffer(items: Items, id: string, e: Entry)
    requires KeysDiffer(items)
    ensures KeysDiffer(Put(items, id, e))
  {
    WithoutKeys(items, id);
    KeysSnoc(Without(items, id), id, e);
  }

  class TaskStatusStore {
    var items: Items

    constructor ()
      ensures items == []
    {
      items := [];
    }

    /** Assigning to a key that is present keeps its place; `move_to_end` then moves it. */
    method TaskStatusPut(id: string, e: Entry)
      requires KeysDiffer(items)
      modifies this
      ensures items == Put(old(items), id, e)
      ensures KeysDiffer(items)
    {
      PutKeysDiffer(items, id, e);
      items := Without(items, id) + [(id, e)];
      EvictOldest();
    }

    method EvictOldest()
      modifies this
      ensures items == Newest(old(items))
    {
      ghost var all := items;
      while |items| > TASK_STATUS_STORE_MAX
        invariant |items| <= |all| && items == all[|all| - |items|..]
        invariant |items| == |all| || |items| >= TASK_STATUS_STORE_MAX
        decreases |items|
      {
        items := items[1..];
      }
    }

    /** The deletion endpoint drops the entry. */
    method Pop(id: string)
      requires KeysDiffer(items)
      modifies this
      ensures items == Without(old(items), id)
      ensures KeysDiffer(items)
    {
      WithoutKeys(items, id);
      items := Without(items, id);
    }
  }

  // ---- writes --------------------------------------------------------------------------

  /** A call of `_update_status`; the clock supplies `now`. */
  datatype Update = Update(status: Status, progress: Option<int>, totalChunks: Option<int>, now: real)

  function Max(a: int, b: int): int {
    if a >= b then a else b
  }

  function Min(a: int, b: int): int {
    if a <= b then a else b
  }

  /** A non-terminal write neither lowers the progress nor raises it beyond 95. */
  function NextProgress(previous: int, u: Update): int {
    if Terminal(u.status) then 100
    else Max(previous, Min(if u.progress.Some? then u.progress.value else previous, 95))
  }

  function Updated(previous: Option<Entry>, u: Update): Entry {
    match previous
    case Some(e) =>
      Entry(u.status, NextProgress(e.progress, u), e.startTime, e.estimatedSeconds,
            if u.totalChunks.Some? then u.totalChunks else e.totalChunks)
    case None => Entry(u.status, NextProgress(0, u), u.now, None, u.totalChunks)
  }

  /** The operations on the store: the reset when a request is accepted, the writes of the
      background task, and the deletion endpoint. */
  datatype Op =
    | Reset(id: string, now: real, estimate: int)
    | Write(id: string, u: Update)
    | Drop(id: string)

  function ResetEntry(now: real, estimate: int): Entry {
    Entry(PROCESSING, 3, now, Some(estimate), None)
  }

  function Apply(items: Items, op: Op): Items {
    match op
    case Reset(id, now, estimate) => Put(items, id, ResetEntry(now, estimate))
    case Write(id, u) => Put(items, id, Updated(Lookup(items, id), u))
    case Drop(id) => Without(items, id)
  }

  function Store(ops: seq<Op>): Items {
    if ops == [] then [] else Apply(Store(ops[..|ops| - 1]), ops[|ops| - 1])
  }

  // ---- the bound and what is evicted ---------------------------------------------------

  /** The ids that have been written and not dropped since, by the time of their last write. */
  function Recency(ops: seq<Op>): seq<string> {
    if ops == [] then []
    else
      var before, op := Recency(ops[..|ops| - 1]), ops[|ops| - 1];
      if op.Drop? then WithoutId(before, op.id) else WithoutId(before, op.id) + [op.id]
  }

  function WithoutId(ids: seq<string>, id: string): seq<string> {
    if ids == [] then [] else (if ids[0] == id then [] else [ids[0]]) + WithoutId(ids[1..], id)
  }

  function Keys(items: Items): (r: seq<string>)
    ensures |r| == |items|
    ensures forall i :: 0 <= i < |items| ==> r[i] == items[i].0
  {
    if items == [] then [] else [items[0].0] + Keys(items[1..])
  }

  predicate IsSuffix(a: seq<string>, b: seq<string>) {
    |a| <= |b| && b[|b| - |a|..] == a
  }

  lemma {:induction false} KeysWithout(items: Items, id: string)
    ensures Keys(Without(items, id)) == WithoutId(Keys(items), id)
  {
    if items != [] {
      KeysWithout(items[1..], id);
    }
  }

  lemma {:induction false} WithoutIdConcat(a: seq<string>, b: seq<string>, id: string)
    ensures WithoutId(a + b, id) == WithoutId(a, id) + WithoutId(b, id)
  {
    if a == [] {
      assert a + b == b;
    } else {
      assert (a + b)[1..] == a[1..] + b;
      WithoutIdConcat(a[1..], b, id);
    }
  }

  lemma SuffixWithout(a: seq<string>, b: seq<string>, id: string)
    requires IsSuffix(a, b)
    ensures IsSuffix(WithoutId(a, id), WithoutId(b, id))
  {
    var pre := b[..|b| - |a|];
    assert b == pre + a;
    WithoutIdConcat(pre, a, id);
  }

  lemma KeysNewest(items: Items, ids: seq<string>)
    requires IsSuffix(Keys(items), ids)
    ensures IsSuffix(Keys(Newest(items)), ids)
  {
    var newest := Newest(items);
    var d := |items| - |newest|;
    assert newest == items[d..];
    assert Keys(newest) == Keys(items)[d..] == ids[|ids| - |items|..][d..];
  }

  /** The entry that a write puts. */
  function NewEntry(items: Items, op: Op): Entry
    requires !op.Drop?
  {
    match op
    case Reset(_, now, estimate) => ResetEntry(now, estimate)
    case Write(id, u) => Updated(Lookup(items, id), u)
  }

  lemma PutKeepsNewest(items: Items, ids: seq<string>, id: string, e: Entry)
    requires KeysDiffer(items) && IsSuffix(Keys(items), ids)
    ensures KeysDiffer(Put(items, id, e))
    ensures IsSuffix(Keys(Put(items, id, e)), WithoutId(ids, id) + [id])
  {
    var kept := Without(items, id);
    PutKeysDiffer(items, id, e);
    WithoutKeys(items, id);
    KeysSnoc(kept, id, e);
    KeysWithout(items, id);
    SuffixWithout(Keys(items), ids, id);
    SuffixSnoc(Keys(kept), WithoutId(ids, id), id);
    var all, written := kept + [(id, e)], WithoutId(ids, id) + [id];
    assert Keys(all) == Keys(kept) + [id];
    KeysNewest(all, written);
  }

  lemma SuffixSnoc(a: seq<string>, b: seq<string>, id: string)
    requires IsSuffix(a, b)
    ensures IsSuffix(a + [id], b + [id])
  {
    assert (b + [id])[|b| - |a|..] == b[|b| - |a|..] + [id];
  }

  lemma KeysSnoc(kept: Items, id: string, e: Entry)
    requires KeysDiffer(kept) && !HasKey(kept, id)
    ensures KeysDiffer(kept + [(id, e)])
    ensures Keys(kept + [(id, e)]) == Keys(kept) + [id]
  {
    assert forall i :: 0 <= i < |kept| ==> kept[i].0 != id;
  }

  /** The store holds at most 10000 entries, one for each id, and they are the last ids in
      order of writing: whatever has been evicted was written before everything retained. */
  lemma {:induction false} StoreIsNewest(ops: seq<Op>)
    ensures |Store(ops)| <= 10000
    ensures KeysDiffer(Store(ops))
    ensures IsSuffix(Keys(Store(ops)), Recency(ops))
  {
    if ops != [] {
      var init, op := ops[..|ops| - 1], ops[|ops| - 1];
      StoreIsNewest(init);
      var items, ids := Store(init), Recency(init);
      if op.Drop? {
        WithoutKeys(items, op.id);
        KeysWithout(items, op.id);
        SuffixWithout(Keys(items), ids, op.id);
        WithoutShorter(items, op.id);
      } else {
        PutKeepsNewest(items, ids, op.id, NewEntry(items, op));
      }
    }
  }

  lemma {:induction false} WithoutShorter(items: Items, id: string)
    ensures |Without(items, id)| <= |items|
  {
    if items != [] {
      WithoutShorter(items[1..], id);
    }
  }

  /** The number of the id's last operation, from 1; 0 if there is none. */
  function LastOp(ops: seq<Op>, id: string): nat {
    if ops == [] then 0
    else if ops[|ops| - 1].id == id then |ops|
    else LastOp(ops[..|ops| - 1], id)
  }

  /** Recency is indeed the order of the last writes. */
  lemma {:induction false} RecencySorted(ops: seq<Op>)
    ensures forall i, j :: 0 <= i < j < |Recency(ops)| ==> LastOp(ops, Recency(ops)[i]) < LastOp(ops, Recency(ops)[j])
    ensures forall i :: 0 <= i < |Recency(ops)| ==> LastOp(ops, Recency(ops)[i]) <= |ops|
  {
    if ops != [] {
      var init, op := ops[..|ops| - 1], ops[|ops| - 1];
      RecencySorted(init);
      KeepsSorted(init, Recency(init), op.id);
      assert forall i :: 0 <= i < |WithoutId(Recency(init), op.id)| ==>
        LastOp(ops, WithoutId(Recency(init), op.id)[i]) == LastOp(init, WithoutId(Recency(init), op.id)[i]);
    }
  }

  lemma {:induction false} KeepsSorted(ops: seq<Op>, ids: seq<string>, id: string)
    requires forall i, j :: 0 <= i < j < |ids| ==> LastOp(ops, ids[i]) < LastOp(ops, ids[j])
    requires forall i :: 0 <= i < |ids| ==> LastOp(ops, ids[i]) <= |ops|
    ensures forall i, j :: 0 <= i < j < |WithoutId(ids, id)| ==>
      LastOp(ops, WithoutId(ids, id)[i]) < LastOp(ops, WithoutId(ids, id)[j])
    ensures forall i :: 0 <= i < |WithoutId(ids, id)| ==>
      WithoutId(ids, id)[i] in ids && WithoutId(ids, id)[i] != id && LastOp(ops, WithoutId(ids, id)[i]) <= |ops|
  {
    if ids != [] {
      assert forall i :: 0 <= i < |ids[1..]| ==> ids[1..][i] == ids[i + 1];
      KeepsSorted(ops, ids[1..], id);
      var rest := WithoutId(ids[1..], id);
      forall i | 0 <= i < |rest| ensures LastOp(ops, ids[0]) < LastOp(ops, rest[i]) {
        var k :| 0 <= k < |ids[1..]| && ids[1..][k] == rest[i];
        assert ids[k + 1] == rest[i];
      }
    }
  }

  ghost predicate IdsDiffer(ids: seq<string>) {
    forall i, j :: 0 <= i < j < |ids| ==> ids[i] != ids[j]
  }

  lemma {:induction false} WithoutIdSize(ids: seq<string>, id: string)
    requires IdsDiffer(ids)
    ensures |WithoutId(ids, id)| == |ids| - (if id in ids then 1 else 0)
  {
    if ids != [] {
      var tail := ids[1..];
      assert forall i :: 0 <= i < |tail| ==> tail[i] == ids[i + 1];
      WithoutIdSize(tail, id);
      assert ids == [ids[0]] + tail;
    }
  }

  lemma RecencyDiffers(ops: seq<Op>)
    ensures IdsDiffer(Recency(ops))
  {
    RecencySorted(ops);
  }

  /** A put evicts only above the bound. */
  lemma PutSize(items: Items, ids: seq<string>, id: string, e: Entry)
    requires KeysDiffer(items) && IdsDiffer(ids) && IsSuffix(Keys(items), ids)
    requires |items| == Min(|ids|, TASK_STATUS_STORE_MAX)
    ensures |Put(items, id, e)| == Min(|WithoutId(ids, id)| + 1, TASK_STATUS_STORE_MAX)
  {
    KeysWithout(items, id);
    WithoutIdSize(Keys(items), id);
    WithoutIdSize(ids, id);
    if |items| == |ids| {
      assert Keys(items) == ids;
    }
  }

  /** Nothing is evicted below the bound: as long as no entry is deleted, the store holds all
      ids that were written, or 10000 of them if there are more. */
  lemma {:induction false} EvictsOnlyAboveBound(ops: seq<Op>)
    requires forall i :: 0 <= i < |ops| ==> !ops[i].Drop?
    ensures |Store(ops)| == Min(|Recency(ops)|, 10000)
  {
    if ops != [] {
      var init, op := ops[..|ops| - 1], ops[|ops| - 1];
      EvictsOnlyAboveBound(init);
      StoreIsNewest(init);
      RecencyDiffers(init);
      PutSize(Store(init), Recency(init), op.id, NewEntry(Store(init), op));
    }
  }

  /** With deletions, too, the store holds exactly the written ids while there have never been
      more than 10000 of them at once. */
  lemma {:induction false} NothingEvictedWithinBound(ops: seq<Op>)
    requires forall n :: 0 <= n <= |ops| ==> |Recency(ops[..n])| <= 10000
    ensures Keys(Store(ops)) == Recency(ops)
  {
    assert ops[..|ops|] == ops;
    if ops != [] {
      var init, op := ops[..|ops| - 1], ops[|ops| - 1];
      assert forall n :: 0 <= n <= |init| ==> init[..n] == ops[..n];
      NothingEvictedWithinBound(init);
      KeysWithout(Store(init), op.id);
      if !op.Drop? {
        var kept, e := Without(Store(init), op.id), NewEntry(Store(init), op);
        StoreIsNewest(init);
        WithoutKeys(Store(init), op.id);
        KeysSnoc(kept, op.id, e);
        assert |kept + [(op.id, e)]| == |Recency(ops)|;
      }
    }
  }

  lemma AbsentComesFirst(items: Items, ids: seq<string>, gone: string, kept: string) returns (i: nat, j: nat)
    requires IsSuffix(Keys(items), ids)
    requires gone in ids && !HasKey(items, gone) && HasKey(items, kept)
    ensures i < j < |ids| && ids[i] == gone && ids[j] == kept
  {
    var d := |ids| - |items|;
    forall m | d <= m < |ids| ensures ids[m] == items[m - d].0 && ids[m] != gone {
      assert ids[d..][m - d] == Keys(items)[m - d];
    }
    i :| 0 <= i < |ids| && ids[i] == gone;
    assert i < d;
    var k :| 0 <= k < |items| && items[k].0 == kept;
    j := d + k;
    assert ids[d..][k] == Keys(items)[k];
  }

  /** An evicted entry was written before every retained one. */
  lemma EvictedWereOldest(ops: seq<Op>, gone: string, kept: string)
    requires gone in Recency(ops) && !HasKey(Store(ops), gone)
    requires HasKey(Store(ops), kept)
    ensures LastOp(ops, gone) < LastOp(ops, kept)
  {
    StoreIsNewest(ops);
    RecencySorted(ops);
    var i, j := AbsentComesFirst(Store(ops), Recency(ops), gone, kept);
  }

  // ---- progress ------------------------------------------------------------------------

  lemma {:induction false} PutLookup(items: Items, id: string, e: Entry)
    requires KeysDiffer(items)
    ensures Lookup(Put(items, id, e), id) == Some(e)
    ensures forall other, f :: other != id && Lookup(Put(items, id, e), other) == Some(f) ==>
      Lookup(items, other) == Some(f)
  {
    WithoutKeys(items, id);
    var all := Without(items, id) + [(id, e)];
    var put := Put(items, id, e);
    assert KeysDiffer(all);
    assert put == all[|all| - |put|..];
    assert KeysDiffer(put);
    assert put[|put| - 1] == (id, e);
    LookupIsMember(put, id, e);
    forall other, f | other != id && Lookup(put, other) == Some(f) ensures Lookup(items, other) == Some(f) {
      LookupIsMember(put, other, f);
      assert (other, f) in all;
      LookupIsMember(items, other, f);
    }
  }

  lemma WithoutLookup(items: Items, id: string, other: string, f: Entry)
    requires KeysDiffer(items) && Lookup(Without(items, id), other) == Some(f)
    ensures Lookup(items, other) == Some(f)
  {
    WithoutKeys(items, id);
    LookupIsMember(Without(items, id), other, f);
    LookupIsMember(items, other, f);
  }

  lemma {:induction false} ProgressBounded(ops: seq<Op>, id: string)
    ensures Lookup(Store(ops), id).Some? ==> 0 <= Lookup(Store(ops), id).value.progress <= 100
  {
    if ops != [] && Lookup(Store(ops), id).Some? {
      var init, op := ops[..|ops| - 1], ops[|ops| - 1];
      StoreIsNewest(init);
      OneStep(Store(init), op, id);
      ProgressBounded(init, id);
    }
  }

  /** What one operation makes of an entry that is retained. */
  lemma OneStep(items: Items, op: Op, id: string)
    requires KeysDiffer(items) && Lookup(Apply(items, op), id).Some?
    ensures Lookup(Apply(items, op), id) ==
      if op.id != id || op.Drop? then Lookup(items, id)
      else if op.Reset? then Some(ResetEntry(op.now, op.estimate))
      else Some(Updated(Lookup(items, id), op.u))
  {
    var e := Lookup(Apply(items, op), id).value;
    match op
    case Reset(i, now, estimate) => PutLookup(items, i, ResetEntry(now, estimate));
    case Write(i, u) => PutLookup(items, i, Updated(Lookup(items, i), u));
    case Drop(i) => WithoutLookup(items, i, id, e);
  }

  /** While an entry is retained and its task is not started anew, no operation, on this or any
      other task, lowers its progress; start time and estimate stay as the reset set them. */
  lemma ProgressNeverDecreases(ops: seq<Op>, op: Op, id: string)
    requires Lookup(Store(ops), id).Some? && Lookup(Store(ops + [op]), id).Some?
    requires !(op.Reset? && op.id == id)
    ensures var e, f := Lookup(Store(ops), id).value, Lookup(Store(ops + [op]), id).value;
      e.progress <= f.progress && e.startTime == f.startTime && e.estimatedSeconds == f.estimatedSeconds
  {
    assert (ops + [op])[..|ops|] == ops;
    StoreIsNewest(ops);
    OneStep(Store(ops), op, id);
    ProgressBounded(ops, id);
  }

  /** What a write records where the entry is present: a terminal status gives 100; any other
      raises the progress to what it reports, but neither beyond 95 nor below what it was. */
  lemma WriteRecords(items: Items, id: string, u: Update)
    requires KeysDiffer(items)
    ensures Lookup(Apply(items, Write(id, u)), id).Some?
    ensures var before, e := Lookup(items, id), Lookup(Apply(items, Write(id, u)), id).value;
      var progress := if before.Some? then before.value.progress else 0;
      e.status == u.status &&
      (u.status != PROCESSING ==> e.progress == 100) &&
      (u.status == PROCESSING ==>
         if u.progress == None || u.progress.value <= progress then e.progress == progress
         else if u.progress.value <= 95 then e.progress == u.progress.value
         else e.progress == if progress < 95 then 95 else progress) &&
      (before.Some? ==>
         e.startTime == before.value.startTime && e.estimatedSeconds == before.value.estimatedSeconds) &&
      (before == None ==> e.startTime == u.now && e.estimatedSeconds == None)
  {
    PutLookup(items, id, Updated(Lookup(items, id), u));
  }

  /** A new request starts the entry anew. */
  lemma ResetRecords(items: Items, id: string, now: real, estimate: int)
    requires KeysDiffer(items)
    ensures Lookup(Apply(items, Reset(id, now, estimate)), id) == Some(Entry(PROCESSING, 3, now, Some(estimate), None))
  {
    PutLookup(items, id, ResetEntry(now, estimate));
  }

  predicate IsTerminalWrite(op: Op, id: string) {
    op.Write? && op.id == id && Terminal(op.u.status)
  }

  /** After a reset, 100 is reached only through a COMPLETED or FAILED write. */
  lemma {:induction false} HundredNeedsTerminal(before: seq<Op>, reset: Op, after: seq<Op>, id: string)
    requires reset.Reset? && reset.id == id
    requires Lookup(Store(before + [reset] + after), id).Some?
    requires Lookup(Store(before + [reset] + after), id).value.progress == 100
    ensures exists i :: 0 <= i < |after| && IsTerminalWrite(after[i], id)
  {
    var ops := before + [reset] + after;
    var init, op := ops[..|ops| - 1], ops[|ops| - 1];
    StoreIsNewest(init);
    assert after == [] ==> op == reset;
    OneStep(Store(init), op, id);
    if after != [] {
      var shorter := after[..|after| - 1];
      assert init == before + [reset] + shorter && op == after[|after| - 1];
      if !IsTerminalWrite(op, id) {
        HundredNeedsTerminal(before, reset, shorter, id);
        var i :| 0 <= i < |shorter| && IsTerminalWrite(shorter[i], id);
        assert after[i] == shorter[i];
      }
    }
  }

  // ---- remaining time ------------------------------------------------------------------

  /** Python's `int(round(x))`: to the nearest integer, ties to even. */
  function PyRound(x: real): int {
    var f := x.Floor;
    var d := x - f as real;
    if d < 0.5 || (d == 0.5 && f % 2 == 0) then f else f + 1
  }

  function DynamicEstimate(e: Entry, now: real): int {
    if e.estimatedSeconds == None || e.estimatedSeconds == Some(0) then 0
    else
      var initial := e.estimatedSeconds.value;
      if e.startTime == 0.0 then initial
      else
        var past := now - e.startTime;
        var elapsed := if past > 0.0 then past else 0.0;
        if e.progress <= 5 || elapsed < 1.0 then initial
        else
          var observed := elapsed * 100.0 / Min(e.progress, 99) as real;
          var floor := initial as real * 0.75;
          var dynamic := if observed > floor then observed else floor;
          PyRound(if dynamic > 900.0 then 900.0 else if dynamic < 15.0 then 15.0 else dynamic)
  }

  function Remaining(e: Entry, now: real): int {
    if Terminal(e.status) || e.startTime == 0.0 then 0
    else
      var past := now - e.startTime;
      var total := DynamicEstimate(e, now);
      if total == 0 then 0
      else Max(1, PyRound(total as real - (if past > 0.0 then past else 0.0)))
  }

  /** `_estimate_processing_seconds`, from the base time of the file type and the file's size. */
  function EstimateProcessingSeconds(base: int, sizeMb: real): (r: int)
    ensures 15 <= r <= 900
    ensures var seconds := base as real + sizeMb * 25.0;
      if seconds < 15.0 then r == 15
      else if seconds >= 901.0 then r == 900
      else r as real <= seconds < r as real + 1.0
  {
    Max(15, Min(900, base + (sizeMb * 25.0).Floor))
  }

  /** Once it is measurable, the estimate is that of the observed pace, but not below three
      quarters of the initial one, and never outside 15 seconds to 15 minutes; before, it is the
      initial one. */
  lemma EstimateFollowsPace(e: Entry, now: real)
    requires e.estimatedSeconds.Some? && 15 <= e.estimatedSeconds.value <= 900
    ensures 15 <= DynamicEstimate(e, now) <= 900
    ensures e.startTime == 0.0 || now - e.startTime < 1.0 || e.progress <= 5 ==>
      DynamicEstimate(e, now) == e.estimatedSeconds.value
    ensures e.startTime != 0.0 && now - e.startTime >= 1.0 && e.progress > 5 ==>
      var pace := (now - e.startTime) * 100.0 / (if e.progress <= 99 then e.progress else 99) as real;
      var least, estimate := e.estimatedSeconds.value as real * 0.75, DynamicEstimate(e, now) as real;
      if pace >= 900.0 then estimate == 900.0
      else if pace < 15.0 && least < 15.0 then estimate == 15.0
      else if pace <= least then least - 0.5 <= estimate <= least + 0.5
      else pace - 0.5 <= estimate <= pace + 0.5
  {
  }

  /** What the reader is told: nothing remains exactly for a completed or failed entry, or one
      without a start time or estimate (an entry that was evicted and written again has lost its
      estimate); otherwise what is left of the estimate, to the second, but at least one. */
  lemma RemainingIs(e: Entry, now: real)
    requires e.estimatedSeconds.Some? ==> 15 <= e.estimatedSeconds.value <= 900
    ensures 0 <= Remaining(e, now) <= 900
    ensures Remaining(e, now) == 0 <==>
      e.status == COMPLETED || e.status == FAILED || e.startTime == 0.0 || e.estimatedSeconds == None
    ensures Remaining(e, now) != 0 ==>
      var left := DynamicEstimate(e, now) as real - (if now > e.startTime then now - e.startTime else 0.0);
      if left <= 1.0 then Remaining(e, now) == 1
      else left - 0.5 <= Remaining(e, now) as real <= left + 0.5
  {
    if e.estimatedSeconds.Some? {
      EstimateFollowsPace(e, now);
    }
  }
}
