/** The usage ledger that bigdata/scripts/seed_generator.py emits, and the rules R3, R4 and R6 of
    bigdata/spark-jobs/quality_check.py that it has to pass. */
module Ledger {
  import opened Common
  import opened Aggregation

  datatype Operation = RESERVE | COMMIT | RELEASE

  datatype RequestType = ChatRequest | AgentRequest | EmbeddingRequest | EvaluationRequest

  datatype Event = Event(tenant: int, meter: string, operation: Operation, requestId: string, amount: int,
      createdAt: int)

  /** The random choices behind one usage row and its ledger entries. */
  datatype Draw = Draw(tenant: int, requestType: RequestType, logNormal: real, completionRatio: real,
                       reserveFactor: real, commitCoin: real, delay: int, createdAt: int)

  ghost predicate InRange(d: Draw) {
    d.logNormal > 0.0 && 0.2 <= d.completionRatio <= 0.9 && 1.2 <= d.reserveFactor <= 1.8 && 1 <= d.delay <= 60
  }

  const METERS: set<string> :=
    {"chat_tokens", "agent_tokens", "index_chunks", "plugin_executions",
     "bid_projects", "tender_elements", "bid_draft_chars", "bid_check_reports"}

  function Meter(t: RequestType): string {
    match t
    case ChatRequest => "chat_tokens"
    case AgentRequest => "agent_tokens"
    case EmbeddingRequest => "index_chunks"
    case EvaluationRequest => "chat_tokens"
  }

  // ---- request ids ---------------------------------------------------------------------

  function Digits(n: nat): string {
    if n < 10 then [(n + '0' as int) as char] else Digits(n / 10) + [(n % 10 + '0' as int) as char]
  }

  function Zeros(n: nat): string {
    if n == 0 then "" else "0" + Zeros(n - 1)
  }

  /** `f"{n:09d}"`. */
  function Pad9(n: nat): string {
    var d := Digits(n);
    if |d| < 9 then Zeros(9 - |d|) + d else d
  }

  function RequestId(n: nat): string {
    "seed-mur-" + Pad9(n)
  }

  function Value(s: string): int {
    if s == [] then 0 else Value(s[..|s| - 1]) * 10 + (s[|s| - 1] as int - '0' as int)
  }

  lemma {:induction false} ValueOfDigits(n: nat)
    ensures Value(Digits(n)) == n
  {
    var d := Digits(n);
    if n >= 10 {
      ValueOfDigits(n / 10);
      assert d[..|d| - 1] == Digits(n / 10);
    } else {
      assert d[..0] == [];
    }
  }

  lemma {:induction false} ValueOfPadded(k: nat, s: string)
    ensures Value(Zeros(k) + s) == Value(s)
    decreases k, |s|
  {
    if s == [] {
      assert Zeros(k) + s == Zeros(k);
      ValueOfZeros(k);
    } else {
      var t := Zeros(k) + s;
      assert t[..|t| - 1] == Zeros(k) + s[..|s| - 1];
      ValueOfPadded(k, s[..|s| - 1]);
    }
  }

  lemma {:induction false} ValueOfZeros(k: nat)
    ensures Value(Zeros(k)) == 0
  {
    if k > 0 {
      ZerosEnd(k);
      ValueOfZeros(k - 1);
    }
  }

  lemma {:induction false} ZerosEnd(k: nat)
    requires k > 0
    ensures |Zeros(k)| == k && Zeros(k) == Zeros(k - 1) + "0"
  {
    if k > 1 {
      ZerosEnd(k - 1);
      assert "0" + (Zeros(k - 2) + "0") == ("0" + Zeros(k - 2)) + "0";
    }
  }

  /** Different numbers have different request ids. */
  lemma RequestIdInjective(m: nat, n: nat)
    ensures RequestId(m) == RequestId(n) <==> m == n
  {
    if RequestId(m) == RequestId(n) {
      assert Pad9(m) == RequestId(m)[9..] && Pad9(n) == RequestId(n)[9..];
      ValueOfDigits(m);
      ValueOfDigits(n);
      ValueOfPadded(if |Digits(m)| < 9 then 9 - |Digits(m)| else 0, Digits(m));
      ValueOfPadded(if |Digits(n)| < 9 then 9 - |Digits(n)| else 0, Digits(n));
    }
  }

  // ---- the generator -------------------------------------------------------------------

  function Prompt(d: Draw): int {
    var t := d.logNormal.Floor;
    if t >= 64 then t else 64
  }

  /** prompt + completion tokens; `int` truncates, and the product is positive. */
  function Amount(d: Draw): int {
    Prompt(d) + (Prompt(d) as real * d.completionRatio).Floor
  }

  function Reserve(d: Draw): int {
    (Amount(d) as real * d.reserveFactor).Floor
  }

  function EventsOf(n: nat, d: Draw): seq<Event> {
    var meter, id := Meter(d.requestType), RequestId(n);
    [Event(d.tenant, meter, RESERVE, id, Reserve(d), d.createdAt),
     if d.commitCoin < 0.94 then Event(d.tenant, meter, COMMIT, id, Amount(d), d.createdAt + d.delay)
     else Event(d.tenant, meter, RELEASE, id, Reserve(d), d.createdAt + d.delay)]
  }

  /** The ledger of one run; `base` is the first user id. */
  function LedgerOf(base: nat, draws: seq<Draw>): seq<Event> {
    if draws == [] then []
    else LedgerOf(base, draws[..|draws| - 1]) + EventsOf(base + |draws| - 1, draws[|draws| - 1])
  }

  method GenerateUsageEvents(base: nat, draws: seq<Draw>) returns (rows: seq<Event>)
    ensures rows == LedgerOf(base, draws)
  {
    rows := [];
    for idx := 0 to |draws|
      invariant rows == LedgerOf(base, draws[..idx])
    {
      var d := draws[idx];
      assert draws[..idx + 1][..idx] == draws[..idx];
      var amount := Amount(d);
      var meter, id := Meter(d.requestType), RequestId(base + idx);
      var reserve := Reserve(d);
      ghost var before := rows;
      rows := rows + [Event(d.tenant, meter, RESERVE, id, reserve, d.createdAt)];
      if d.commitCoin < 0.94 {
        rows := rows + [Event(d.tenant, meter, COMMIT, id, amount, d.createdAt + d.delay)];
      } else {
        rows := rows + [Event(d.tenant, meter, RELEASE, id, reserve, d.createdAt + d.delay)];
      }
      assert rows == before + EventsOf(base + idx, d);
    }
    assert draws[..|draws|] == draws;
  }

  lemma ProductNonNegative(x: real, y: real)
    requires x >= 0.0 && y >= 0.0
    ensures x * y >= 0.0
  {
  }

  lemma ScaledUp(x: real, f: real)
    requires x >= 0.0 && f >= 1.0
    ensures x * f >= x
  {
    ProductNonNegative(x, f - 1.0);
    assert x * (f - 1.0) == x * f - x;
  }

  lemma FloorOfProduct(a: int, f: real)
    requires a >= 0 && f >= 0.0
    ensures (a as real * f).Floor >= 0
    ensures f >= 1.0 ==> (a as real * f).Floor >= a
  {
    ProductNonNegative(a as real, f);
    if f >= 1.0 {
      ScaledUp(a as real, f);
    }
  }

  lemma AmountsOrdered(d: Draw)
    requires InRange(d)
    ensures 64 <= Amount(d) <= Reserve(d)
  {
    FloorOfProduct(Prompt(d), d.completionRatio);
    FloorOfProduct(Amount(d), d.reserveFactor);
  }

  /** The amounts, without rounding: the prompt is the drawn number but at least 64, the total
      adds the completion's share of it, and the reserve is the drawn multiple of the total. */
  lemma AmountsAre(d: Draw) returns (prompt: int)
    requires InRange(d)
    ensures if d.logNormal < 64.0 then prompt == 64 else prompt as real <= d.logNormal < prompt as real + 1.0
    ensures 0.0 <= prompt as real * (1.0 + d.completionRatio) - Amount(d) as real < 1.0
    ensures 0.0 <= Amount(d) as real * d.reserveFactor - Reserve(d) as real < 1.0
  {
    prompt := Prompt(d);
    var p, x := prompt as real, prompt as real * d.completionRatio;
    assert p * (1.0 + d.completionRatio) == p + x;
    assert x.Floor as real <= x < x.Floor as real + 1.0;
  }

  // ---- the shape of every ledger -------------------------------------------------------

  function ForRequest(rows: seq<Event>, id: string): seq<Event> {
    Filter(rows, OfRequest(id))
  }

  function OfRequest(id: string): Event -> bool {
    (e: Event) => e.requestId == id
  }

  /** The last draw of a ledger, seen through a filter. */
  lemma LastDraw(base: nat, draws: seq<Draw>, p: Event -> bool)
    requires draws != []
    ensures Filter(LedgerOf(base, draws), p)
         == Filter(LedgerOf(base, draws[..|draws| - 1]), p) +
           Filter(EventsOf(base + |draws| - 1, draws[|draws| - 1]), p)
  {
    FilterConcat(LedgerOf(base, draws[..|draws| - 1]), EventsOf(base + |draws| - 1, draws[|draws| - 1]), p);
  }

  lemma PairForRequest(k: nat, d: Draw, n: nat)
    ensures Filter(EventsOf(k, d), OfRequest(RequestId(n))) == if k == n then EventsOf(k, d) else []
  {
    RequestIdInjective(k, n);
    FilterPair(EventsOf(k, d)[0], EventsOf(k, d)[1], OfRequest(RequestId(n)));
  }

  lemma FilterPair(a: Event, b: Event, p: Event -> bool)
    ensures Filter([a, b], p) == (if p(a) then [a] else []) + (if p(b) then [b] else [])
  {
    assert [a, b][1..] == [b] && [b][1..] == [];
    assert Filter([b], p) == if p(b) then [b] else [];
  }

  /** One RESERVE, then one COMMIT of at most the reserved amount or one RELEASE of all of it,
      under one request and meter; COMMIT exactly for a coin below 0.94. */
  lemma PairShape(n: nat, d: Draw)
    requires InRange(d)
    ensures var pair := EventsOf(n, d);
      |pair| == 2 && pair[0].operation == RESERVE &&
      pair[1].operation == (if d.commitCoin < 0.94 then COMMIT else RELEASE) &&
      (pair[1].operation == COMMIT ==> 0 < pair[1].amount <= pair[0].amount) &&
      (pair[1].operation == RELEASE ==> pair[1].amount == pair[0].amount) &&
      pair[0].createdAt == d.createdAt && pair[1].createdAt == d.createdAt + d.delay &&
      forall e :: e in pair ==>
        e.tenant == d.tenant && e.requestId == RequestId(n) && e.meter == pair[0].meter &&
        (e.meter == "agent_tokens" <==> d.requestType == AgentRequest) &&
        (e.meter == "index_chunks" <==> d.requestType == EmbeddingRequest) &&
        (e.meter == "chat_tokens" <==> d.requestType == ChatRequest || d.requestType == EvaluationRequest)
  {
    AmountsOrdered(d);
  }

  lemma LastDrawAbsent(base: nat, draws: seq<Draw>, p: Event -> bool)
    requires draws != [] && Filter(EventsOf(base + |draws| - 1, draws[|draws| - 1]), p) == []
    ensures Filter(LedgerOf(base, draws), p) == Filter(LedgerOf(base, draws[..|draws| - 1]), p)
  {
    LastDraw(base, draws, p);
  }

  /** A draw adds events to its own request only. */
  lemma OtherRequest(base: nat, draws: seq<Draw>, n: nat)
    requires draws != [] && n != base + |draws| - 1
    ensures ForRequest(LedgerOf(base, draws), RequestId(n))
         == ForRequest(LedgerOf(base, draws[..|draws| - 1]), RequestId(n))
  {
    PairForRequest(base + |draws| - 1, draws[|draws| - 1], n);
    LastDrawAbsent(base, draws, OfRequest(RequestId(n)));
  }

  lemma {:induction false} NoneForRequest(base: nat, draws: seq<Draw>, n: nat)
    requires n < base || n >= base + |draws|
    ensures ForRequest(LedgerOf(base, draws), RequestId(n)) == []
  {
    if draws != [] {
      NoneForRequest(base, draws[..|draws| - 1], n);
      OtherRequest(base, draws, n);
    }
  }

  lemma LastRequest(base: nat, draws: seq<Draw>, n: nat)
    requires draws != [] && n == base + |draws| - 1
    ensures ForRequest(LedgerOf(base, draws), RequestId(n)) == EventsOf(n, draws[|draws| - 1])
  {
    var pair := EventsOf(n, draws[|draws| - 1]);
    NoneForRequest(base, draws[..|draws| - 1], n);
    LastDraw(base, draws, OfRequest(RequestId(n)));
    PairForRequest(n, draws[|draws| - 1], n);
    assert [] + pair == pair;
  }

  /** The events of a request are exactly the pair of its draw: by `PairShape` one RESERVE, then
      one COMMIT of at most the reserved amount or one RELEASE of all of it, under one meter. */
  lemma {:induction false} LedgerShape(base: nat, draws: seq<Draw>, i: nat)
    requires i < |draws|
    ensures ForRequest(LedgerOf(base, draws), RequestId(base + i)) == EventsOf(base + i, draws[i])
  {
    if i == |draws| - 1 {
      LastRequest(base, draws, base + i);
    } else {
      OtherRequest(base, draws, base + i);
      LedgerShape(base, draws[..|draws| - 1], i);
    }
  }

  // ---- the quality rules ---------------------------------------------------------------

  /** R3 and R4: known meters, no negative amounts. */
  predicate DomainsHold(rows: seq<Event>) {
    forall i :: 0 <= i < |rows| ==> rows[i].meter in METERS && rows[i].amount >= 0
  }

  datatype Key = Key(requestId: string, meter: string)
  datatype Sums = Sums(reserved: int, committed: int)

  function Plus(a: Sums, b: Sums): Sums {
    Sums(a.reserved + b.reserved, a.committed + b.committed)
  }

  function LedgerSums(): Aggregate<Sums> {
    Aggregate(Sums(0, 0), Plus)
  }

  lemma LedgerSumsLawful()
    ensures Lawful(LedgerSums())
  {
    var o := LedgerSums();
    forall a ensures UnitLaw(o, a) {}
    forall a, b ensures CommutativeLaw(o, a, b) {}
    forall a, b, c ensures AssociativeLaw(o, a, b, c) {}
  }

  function LedgerRow(e: Event): (Key, Sums) {
    (Key(e.requestId, e.meter),
      Sums(if e.operation == RESERVE then e.amount else 0, if e.operation == COMMIT then e.amount else 0))
  }

  function LedgerRows(rows: seq<Event>): Table<Key, Sums> {
    if rows == [] then [] else [LedgerRow(rows[0])] + LedgerRows(rows[1..])
  }

  /** R6: no (request, meter) has committed more than it reserved. */
  ghost predicate RuleR6(rows: seq<Event>) {
    forall k, m :: (k, m) in GroupBy(LedgerSums(), LedgerRows(rows)) ==> m.committed <= m.reserved
  }

  lemma {:induction false} LedgerRowsConcat(a: seq<Event>, b: seq<Event>)
    ensures LedgerRows(a + b) == LedgerRows(a) + LedgerRows(b)
  {
    if a == [] {
      assert a + b == b;
    } else {
      assert (a + b)[1..] == a[1..] + b;
      LedgerRowsConcat(a[1..], b);
    }
  }

  /** For every key, over the whole table. */
  ghost predicate Covered(rows: seq<Event>) {
    forall k :: var t := Total(LedgerSums(), LedgerRows(rows), Is(k)); t.committed <= t.reserved
  }

  lemma CoveredConcat(a: seq<Event>, b: seq<Event>)
    requires Covered(a) && Covered(b)
    ensures Covered(a + b)
  {
    LedgerSumsLawful();
    LedgerRowsConcat(a, b);
    forall k ensures var t := Total(LedgerSums(), LedgerRows(a + b), Is(k)); t.committed <= t.reserved {
      TotalConcat(LedgerSums(), LedgerRows(a), LedgerRows(b), Is(k));
    }
  }

  lemma PairCovered(n: nat, d: Draw)
    requires InRange(d)
    ensures Covered(EventsOf(n, d))
  {
    AmountsOrdered(d);
    TwoEventsCovered(EventsOf(n, d)[0], EventsOf(n, d)[1]);
  }

  lemma TwoRows(o: Aggregate<Sums>, a: Event, b: Event, k: Key)
    requires Lawful(o)
    ensures Total(o, LedgerRows([a, b]), Is(k))
         == o.plus(If(o, LedgerRow(a).0 == k, LedgerRow(a).1), If(o, LedgerRow(b).0 == k, LedgerRow(b).1))
  {
    var x, y := LedgerRow(a), LedgerRow(b);
    assert [a, b][1..] == [b] && [b][1..] == [];
    assert LedgerRows([b]) == [y] + LedgerRows([]);
    assert LedgerRows([a, b]) == [(x.0, x.1)] + [(y.0, y.1)];
    TotalConcat(o, [(x.0, x.1)], [(y.0, y.1)], Is(k));
    TotalOne(o, x.0, x.1, Is(k));
    TotalOne(o, y.0, y.1, Is(k));
  }

  lemma TwoEventsCovered(a: Event, b: Event)
    requires a.operation == RESERVE && b.operation != RESERVE && a.requestId == b.requestId && a.meter == b.meter
    requires 0 <= a.amount && (b.operation == COMMIT ==> b.amount <= a.amount)
    ensures Covered([a, b])
  {
    LedgerSumsLawful();
    forall k ensures var t := Total(LedgerSums(), LedgerRows([a, b]), Is(k)); t.committed <= t.reserved {
      TwoRows(LedgerSums(), a, b, k);
    }
  }

  lemma CoveredPasses(rows: seq<Event>)
    requires Covered(rows)
    ensures RuleR6(rows)
  {
    LedgerSumsLawful();
    forall k, m | (k, m) in GroupBy(LedgerSums(), LedgerRows(rows)) ensures m.committed <= m.reserved {
      GroupRowsAre(LedgerSums(), LedgerRows(rows), k, m);
    }
  }

  lemma PairPasses(n: nat, d: Draw)
    requires InRange(d)
    ensures Covered(EventsOf(n, d)) && DomainsHold(EventsOf(n, d))
  {
    PairCovered(n, d);
    AmountsOrdered(d);
  }

  lemma {:induction false} LedgerCovered(base: nat, draws: seq<Draw>)
    requires forall i :: 0 <= i < |draws| ==> InRange(draws[i])
    ensures Covered(LedgerOf(base, draws)) && DomainsHold(LedgerOf(base, draws))
  {
    if draws == [] {
      assert LedgerRows([]) == [];
    } else {
      var init, last := draws[..|draws| - 1], draws[|draws| - 1];
      LedgerCovered(base, init);
      PairPasses(base + |init|, last);
      CoveredConcat(LedgerOf(base, init), EventsOf(base + |init|, last));
    }
  }

  /** Every ledger that the generator emits, for any random choices and scale, passes R3, R4 and
      R6; so do the ledgers of two runs together. */
  lemma GeneratedLedgersPass(base: nat, draws: seq<Draw>, base': nat, draws': seq<Draw>)
    requires forall i :: 0 <= i < |draws| ==> InRange(draws[i])
    requires forall i :: 0 <= i < |draws'| ==> InRange(draws'[i])
    ensures DomainsHold(LedgerOf(base, draws)) && RuleR6(LedgerOf(base, draws))
    ensures DomainsHold(LedgerOf(base, draws) + LedgerOf(base', draws'))
    ensures RuleR6(LedgerOf(base, draws) + LedgerOf(base', draws'))
  {
    LedgerCovered(base, draws);
    LedgerCovered(base', draws');
    CoveredPasses(LedgerOf(base, draws));
    CoveredConcat(LedgerOf(base, draws), LedgerOf(base', draws'));
    CoveredPasses(LedgerOf(base, draws) + LedgerOf(base', draws'));
  }

  // ---- rule R6 on one day's rows -------------------------------------------------------

  /** The day of a row, with times in seconds. */
  function Day(time: int): int {
    time / 86400
  }

  function IsOnDay(day: int): Event -> bool {
    (e: Event) => Day(e.createdAt) == day
  }

  /** The partition of a day. */
  function OnDay(rows: seq<Event>, day: int): seq<Event> {
    Filter(rows, IsOnDay(day))
  }

  /** The draw commits on a later day than it reserves. */
  predicate SpillsOver(d: Draw) {
    d.commitCoin < 0.94 && Day(d.createdAt) != Day(d.createdAt + d.delay)
  }

  lemma OneEventCovered(e: Event)
    requires e.operation != COMMIT && e.amount >= 0
    ensures Covered([e])
  {
    LedgerSumsLawful();
    forall k ensures var t := Total(LedgerSums(), LedgerRows([e]), Is(k)); t.committed <= t.reserved {
      OneRow(e, k);
    }
  }

  lemma OneRow(e: Event, k: Key)
    ensures Total(LedgerSums(), LedgerRows([e]), Is(k))
         == If(LedgerSums(), LedgerRow(e).0 == k, LedgerRow(e).1)
  {
    LedgerSumsLawful();
    var row := LedgerRow(e);
    assert LedgerRows([e]) == [row] + LedgerRows([]) == [(row.0, row.1)];
    TotalOne(LedgerSums(), row.0, row.1, Is(k));
  }

  lemma NothingCovered()
    ensures Covered([])
  {
    assert LedgerRows([]) == [];
  }

  lemma PairOnDayCovered(n: nat, d: Draw, day: int)
    requires InRange(d) && !SpillsOver(d)
    ensures Covered(OnDay(EventsOf(n, d), day))
  {
    var pair := EventsOf(n, d);
    AmountsOrdered(d);
    FilterPair(pair[0], pair[1], IsOnDay(day));
    if IsOnDay(day)(pair[0]) && IsOnDay(day)(pair[1]) {
      PairCovered(n, d);
      assert [pair[0]] + [pair[1]] == pair;
    } else if IsOnDay(day)(pair[0]) {
      OneEventCovered(pair[0]);
      assert [pair[0]] + [] == [pair[0]];
    } else if IsOnDay(day)(pair[1]) {
      OneEventCovered(pair[1]);
      assert [] + [pair[1]] == [pair[1]];
    } else {
      NothingCovered();
    }
  }

  lemma {:induction false} DayCovered(base: nat, draws: seq<Draw>, day: int)
    requires forall i :: 0 <= i < |draws| ==> InRange(draws[i]) && !SpillsOver(draws[i])
    ensures Covered(OnDay(LedgerOf(base, draws), day))
  {
    if draws == [] {
      NothingCovered();
    } else {
      var init, last := draws[..|draws| - 1], draws[|draws| - 1];
      DayCovered(base, init, day);
      PairOnDayCovered(base + |init|, last, day);
      LastDraw(base, draws, IsOnDay(day));
      CoveredConcat(OnDay(LedgerOf(base, init), day), OnDay(EventsOf(base + |init|, last), day));
    }
  }

  /** The sums of a key over the whole table. */
  function SumsAt(rows: seq<Event>, k: Key): Sums {
    Total(LedgerSums(), LedgerRows(rows), Is(k))
  }

  lemma SumsHead(e: Event, tail: seq<Event>, k: Key)
    ensures SumsAt([e] + tail, k)
         == Plus(if LedgerRow(e).0 == k then LedgerRow(e).1 else Sums(0, 0), SumsAt(tail, k))
  {
    LedgerSumsLawful();
    LedgerRowsConcat([e], tail);
    TotalConcat(LedgerSums(), LedgerRows([e]), LedgerRows(tail), Is(k));
    OneRow(e, k);
  }

  /** The sums of a request and meter come from the rows of the request. */
  lemma {:induction false} SumsOfRequest(rows: seq<Event>, k: Key)
    ensures FromRequest(rows, k)
  {
    if rows == [] {
      assert ForRequest(rows, k.requestId) == rows;
    } else {
      assert rows == [rows[0]] + rows[1..];
      SumsOfRequest(rows[1..], k);
      SumsOfRequestHead(rows[0], rows[1..], k);
    }
  }

  predicate FromRequest(rows: seq<Event>, k: Key) {
    SumsAt(rows, k) == SumsAt(ForRequest(rows, k.requestId), k)
  }

  lemma SumsOfRequestHead(e: Event, tail: seq<Event>, k: Key)
    requires FromRequest(tail, k)
    ensures FromRequest([e] + tail, k)
  {
    SumsHead(e, tail, k);
    FilterHead(e, tail, OfRequest(k.requestId));
    if e.requestId == k.requestId {
      SumsHead(e, ForRequest(tail, k.requestId), k);
    }
  }

  lemma FilterHead(e: Event, tail: seq<Event>, p: Event -> bool)
    ensures Filter([e] + tail, p) == if p(e) then [e] + Filter(tail, p) else Filter(tail, p)
  {
    assert ([e] + tail)[1..] == tail;
  }

  lemma SumsOne(e: Event)
    requires e.operation == COMMIT
    ensures SumsAt([e], Key(e.requestId, e.meter)) == Sums(0, e.amount)
  {
    OneRow(e, Key(e.requestId, e.meter));
  }

  /** On a day that has a request's COMMIT and not its RESERVE the rule fails. */
  lemma LateCommitFails(ledger: seq<Event>, reserve: Event, commit: Event, day: int)
    requires ForRequest(ledger, commit.requestId) == [reserve, commit]
    requires commit.operation == COMMIT && commit.amount > 0
    requires Day(commit.createdAt) == day && Day(reserve.createdAt) != day
    ensures !RuleR6(OnDay(ledger, day))
  {
    var rows, k := OnDay(ledger, day), Key(commit.requestId, commit.meter);
    FilterTwice(ledger, IsOnDay(day), OfRequest(k.requestId));
    FilterPair(reserve, commit, IsOnDay(day));
    assert ForRequest(rows, k.requestId) == [] + [commit] == [commit];
    SumsOfRequest(rows, k);
    SumsOne(commit);
    CommitAlone(rows, k, commit.amount);
  }

  /** The day on which a draw commits does not have its RESERVE. */
  lemma SpillingFails(base: nat, draws: seq<Draw>, i: nat)
    requires i < |draws| && InRange(draws[i]) && SpillsOver(draws[i])
    ensures !RuleR6(OnDay(LedgerOf(base, draws), Day(draws[i].createdAt + draws[i].delay)))
  {
    var d, pair, ledger := draws[i], EventsOf(base + i, draws[i]), LedgerOf(base, draws);
    LedgerShape(base, draws, i);
    SpillingPair(base + i, d);
    var reserve, commit := pair[0], pair[1];
    assert ForRequest(ledger, commit.requestId) == [reserve, commit];
    LateCommitFails(ledger, reserve, commit, Day(d.createdAt + d.delay));
  }

  lemma SpillingPair(n: nat, d: Draw)
    requires InRange(d) && SpillsOver(d)
    ensures var pair := EventsOf(n, d);
      pair == [pair[0], pair[1]] && pair[1].requestId == RequestId(n) &&
      pair[1].operation == COMMIT && pair[1].amount > 0 &&
      Day(pair[1].createdAt) == Day(d.createdAt + d.delay) && Day(pair[0].createdAt) != Day(d.createdAt + d.delay)
  {
    AmountsOrdered(d);
  }

  lemma CommitAlone(rows: seq<Event>, k: Key, amount: int)
    requires amount > 0 && SumsAt(rows, k) == Sums(0, amount)
    ensures !RuleR6(rows)
  {
    LedgerSumsLawful();
    if !HasKey(LedgerRows(rows), k) {
      TotalNone(LedgerSums(), LedgerRows(rows), Is(k));
    }
    GroupRowsAre(LedgerSums(), LedgerRows(rows), k, Sums(0, amount));
  }

  /** When the rows are partitioned by the day of their time, R6 passes on every day if and only if
      no draw commits on a later day than it reserves. */
  lemma EveryDayPassesIff(base: nat, draws: seq<Draw>)
    requires forall i :: 0 <= i < |draws| ==> InRange(draws[i])
    ensures (forall day :: RuleR6(OnDay(LedgerOf(base, draws), day)))
       <==> forall i :: 0 <= i < |draws| ==> !SpillsOver(draws[i])
  {
    if i :| 0 <= i < |draws| && SpillsOver(draws[i]) {
      SpillingFails(base, draws, i);
    } else {
      forall day ensures RuleR6(OnDay(LedgerOf(base, draws), day)) {
        DayCovered(base, draws, day);
        CoveredPasses(OnDay(LedgerOf(base, draws), day));
      }
    }
  }

  // ---- the table's unique key ----------------------------------------------------------

  function UniqueKey(e: Event): (int, string, string, Operation) {
    (e.tenant, e.meter, e.requestId, e.operation)
  }

  /** The unique key of `usage_event` lets the rows be stored together. */
  ghost predicate Storable(rows: seq<Event>) {
    forall i, j :: 0 <= i < j < |rows| ==> UniqueKey(rows[i]) != UniqueKey(rows[j])
  }

  /** The events of the draws stand in pairs. */
  lemma {:induction false} LedgerAt(base: nat, draws: seq<Draw>, i: nat)
    requires i < 2 * |draws|
    ensures |LedgerOf(base, draws)| == 2 * |draws|
    ensures LedgerOf(base, draws)[i] == EventsOf(base + i / 2, draws[i / 2])[i % 2]
  {
    var init := draws[..|draws| - 1];
    LedgerSize(base, init);
    if i < 2 * |init| {
      LedgerAt(base, init, i);
      assert init[i / 2] == draws[i / 2];
    } else {
      assert i / 2 == |init| && i - 2 * |init| == i % 2;
    }
  }

  lemma {:induction false} LedgerSize(base: nat, draws: seq<Draw>)
    ensures |LedgerOf(base, draws)| == 2 * |draws|
  {
    if draws != [] {
      LedgerSize(base, draws[..|draws| - 1]);
    }
  }

  /** Two draws of one number, tenant and meter collide at their RESERVE. */
  predicate Collide(m: nat, d: Draw, n: nat, d': Draw) {
    m == n && d.tenant == d'.tenant && Meter(d.requestType) == Meter(d'.requestType)
  }

  lemma KeyAt(base: nat, draws: seq<Draw>, i: nat)
    requires i < 2 * |draws|
    ensures |LedgerOf(base, draws)| == 2 * |draws|
    ensures var key := UniqueKey(LedgerOf(base, draws)[i]);
      key.0 == draws[i / 2].tenant && key.1 == Meter(draws[i / 2].requestType) &&
      key.2 == RequestId(base + i / 2) && (key.3 == RESERVE <==> i % 2 == 0)
  {
    LedgerAt(base, draws, i);
  }

  /** Rows of two ledgers have the same key only if their draws collide. */
  lemma RowsCollide(base: nat, draws: seq<Draw>, base': nat, draws': seq<Draw>, i: nat, j: nat)
    requires i < 2 * |draws| && j < 2 * |draws'|
    ensures |LedgerOf(base, draws)| == 2 * |draws| && |LedgerOf(base', draws')| == 2 * |draws'|
    ensures UniqueKey(LedgerOf(base, draws)[i]) == UniqueKey(LedgerOf(base', draws')[j])
        ==> Collide(base + i / 2, draws[i / 2], base' + j / 2, draws'[j / 2]) && (i % 2 == 0 <==> j % 2 == 0)
  {
    KeyAt(base, draws, i);
    KeyAt(base', draws', j);
    RequestIdInjective(base + i / 2, base' + j / 2);
  }

  lemma ReserveAt(base: nat, draws: seq<Draw>, k: nat)
    requires k < |draws|
    ensures |LedgerOf(base, draws)| == 2 * |draws|
    ensures UniqueKey(LedgerOf(base, draws)[2 * k])
         == (draws[k].tenant, Meter(draws[k].requestType), RequestId(base + k), RESERVE)
  {
    assert 2 * k / 2 == k && 2 * k % 2 == 0;
    KeyAt(base, draws, 2 * k);
  }

  lemma DrawsCollide(base: nat, draws: seq<Draw>, base': nat, draws': seq<Draw>, k: nat, l: nat)
    requires k < |draws| && l < |draws'| && Collide(base + k, draws[k], base' + l, draws'[l])
    ensures |LedgerOf(base, draws)| == 2 * |draws| && |LedgerOf(base', draws')| == 2 * |draws'|
    ensures UniqueKey(LedgerOf(base, draws)[2 * k]) == UniqueKey(LedgerOf(base', draws')[2 * l])
  {
    ReserveAt(base, draws, k);
    ReserveAt(base', draws', l);
  }

  lemma WithinLedger(base: nat, draws: seq<Draw>, i: nat, j: nat)
    requires i < j < 2 * |draws|
    ensures |LedgerOf(base, draws)| == 2 * |draws|
    ensures UniqueKey(LedgerOf(base, draws)[i]) != UniqueKey(LedgerOf(base, draws)[j])
  {
    RowsCollide(base, draws, base, draws, i, j);
  }

  /** Every generated ledger can be stored. */
  lemma LedgerStorable(base: nat, draws: seq<Draw>)
    ensures Storable(LedgerOf(base, draws))
  {
    LedgerSize(base, draws);
    forall i, j | 0 <= i < j < 2 * |draws|
      ensures UniqueKey(LedgerOf(base, draws)[i]) != UniqueKey(LedgerOf(base, draws)[j])
    {
      WithinLedger(base, draws, i, j);
    }
  }

  ghost predicate KeysApart(a: seq<Event>, b: seq<Event>) {
    forall i, j :: 0 <= i < |a| && 0 <= j < |b| ==> UniqueKey(a[i]) != UniqueKey(b[j])
  }

  lemma ConcatStorableIff(a: seq<Event>, b: seq<Event>)
    requires Storable(a) && Storable(b)
    ensures Storable(a + b) <==> KeysApart(a, b)
  {
    if Storable(a + b) {
      forall i, j | 0 <= i < |a| && 0 <= j < |b| ensures UniqueKey(a[i]) != UniqueKey(b[j]) {
        assert (a + b)[i] == a[i] && (a + b)[|a| + j] == b[j];
      }
    }
  }

  ghost predicate NoneCollide(base: nat, draws: seq<Draw>, base': nat, draws': seq<Draw>) {
    forall k, l :: 0 <= k < |draws| && 0 <= l < |draws'| ==> !Collide(base + k, draws[k], base' + l, draws'[l])
  }

  /** Two ledgers can be stored one after the other exactly when no draw of the one has the
      number, tenant and meter of a draw of the other. */
  lemma BothStorableIff(base: nat, draws: seq<Draw>, base': nat, draws': seq<Draw>)
    ensures Storable(LedgerOf(base, draws) + LedgerOf(base', draws')) <==> NoneCollide(base, draws, base', draws')
  {
    var a, b := LedgerOf(base, draws), LedgerOf(base', draws');
    LedgerSize(base, draws);
    LedgerSize(base', draws');
    LedgerStorable(base, draws);
    LedgerStorable(base', draws');
    ConcatStorableIff(a, b);
    if NoneCollide(base, draws, base', draws') {
      forall i, j | 0 <= i < |a| && 0 <= j < |b| ensures UniqueKey(a[i]) != UniqueKey(b[j]) {
        RowsCollide(base, draws, base', draws', i, j);
      }
    } else {
      var k, l :| 0 <= k < |draws| && 0 <= l < |draws'| && Collide(base + k, draws[k], base' + l, draws'[l]);
      DrawsCollide(base, draws, base', draws', k, l);
    }
  }

  const N_USERS := 40

  /** A run takes 40 user ids but as many request ids as its scale, counted from the first user
      id: two runs in a row, without truncation, share a request id exactly when the first had
      more than 40 usage rows. */
  lemma RerunSharesIdsIff(base: nat, n: nat, m: nat)
    requires m >= 1
    ensures (exists i: nat, j: nat ::
               base <= i < base + n && base + 40 <= j < base + 40 + m && RequestId(i) == RequestId(j))
       <==> n > 40
  {
    var first := base + N_USERS;
    if n > N_USERS {
      assert RequestId(first) == RequestId(first);
    }
    forall i: nat, j: nat | base <= i < base + n && first <= j < first + m && RequestId(i) == RequestId(j)
      ensures n > N_USERS
    {
      RequestIdInjective(i, j);
    }
  }

  // ---- weighted choices ----------------------------------------------------------------

  function Before(weights: seq<real>, i: nat): real
    requires i <= |weights|
  {
    if i == 0 then 0.0 else Before(weights, i - 1) + weights[i - 1]
  }

  /** `weighted`: the first item whose cumulated weight reaches the draw, else the last. */
  method Weighted(r: real, weights: seq<real>) returns (i: nat)
    requires weights != []
    ensures i < |weights|
    ensures forall j :: 0 < j <= i ==> Before(weights, j) < r
    ensures r <= Before(weights, i + 1) || i == |weights| - 1
  {
    var acc := 0.0;
    for k := 0 to |weights|
      invariant acc == Before(weights, k)
      invariant forall j :: 0 < j <= k ==> Before(weights, j) < r
    {
      acc := acc + weights[k];
      if r <= acc {
        return k;
      }
    }
    return |weights| - 1;
  }

  const TENANT_WEIGHTS: seq<real> := [0.30, 0.22, 0.16, 0.12, 0.09, 0.06, 0.03, 0.02]

  /** `pick_tenant`: tenant 1 gets the draws up to 0.30, tenant 2 those up to 0.52, and so on. */
  method PickTenant(r: real) returns (tenant: int)
    requires 0.0 <= r < 1.0
    ensures 1 <= tenant <= 8
    ensures tenant > 1 <==> r > 0.30
    ensures tenant > 2 <==> r > 0.52
    ensures tenant > 3 <==> r > 0.68
    ensures tenant > 4 <==> r > 0.80
    ensures tenant > 5 <==> r > 0.89
    ensures tenant > 6 <==> r > 0.95
    ensures tenant > 7 <==> r > 0.98
  {
    var i := Weighted(r, TENANT_WEIGHTS);
    assert Before(TENANT_WEIGHTS, 1) == 0.30;
    assert Before(TENANT_WEIGHTS, 2) == 0.52;
    assert Before(TENANT_WEIGHTS, 3) == 0.68;
    assert Before(TENANT_WEIGHTS, 4) == 0.80;
    assert Before(TENANT_WEIGHTS, 5) == 0.89;
    assert Before(TENANT_WEIGHTS, 6) == 0.95;
    assert Before(TENANT_WEIGHTS, 7) == 0.98;
    assert i == 0 || i == 1 || i == 2 || i == 3 || i == 4 || i == 5 || i == 6 || i == 7;
    tenant := 1 + i;
  }
}
