/** The aggregation plans of bigdata/spark-jobs/dws_aggregate.py and ads_build.py: the same
    totals reach the dashboard along two chains of group-bys. */
module Warehouse {
  import opened Common
  import opened Aggregation

  /** `count(*)`, `sum(total_tokens)` and `sum(cost_usd)`; a sum over nulls only is null. */
  datatype Measure = Measure(calls: int, tokens: Option<int>, cost: Option<real>)

  function AddInt(a: Option<int>, b: Option<int>): Option<int> {
    match (a, b)
    case (Some(x), Some(y)) => Some(x + y)
    case (None, _) => b
    case (_, None) => a
  }

  function AddReal(a: Option<real>, b: Option<real>): Option<real> {
    match (a, b)
    case (Some(x), Some(y)) => Some(x + y)
    case (None, _) => b
    case (_, None) => a
  }

  function Add(a: Measure, b: Measure): Measure {
    Measure(a.calls + b.calls, AddInt(a.tokens, b.tokens), AddReal(a.cost, b.cost))
  }

  function Sums(): Aggregate<Measure> {
    Aggregate(Measure(0, None, None), Add)
  }

  lemma SumsLawful()
    ensures Lawful(Sums())
  {
    var o := Sums();
    forall a ensures UnitLaw(o, a) {}
    forall a, b ensures CommutativeLaw(o, a, b) {}
    forall a, b, c ensures AssociativeLaw(o, a, b, c) {}
  }

  // ---- the plans -----------------------------------------------------------------------

  /** A row of dwd_llm_call, as far as the plans use it. */
  datatype Call = Call(tenant: int, model: Option<string>, date: string, tokens: Option<int>, cost: Option<real>)

  /** The keys of the four tables. */
  datatype TenantModelDay = TenantModelDay(tenant: int, model: Option<string>, day: string)
  datatype ModelDay = ModelDay(model: Option<string>, day: string)
  datatype TenantDay = TenantDay(tenant: int, day: string)

  function DropModel(k: TenantModelDay): TenantDay { TenantDay(k.tenant, k.day) }

  function DropTenant(k: TenantModelDay): ModelDay { ModelDay(k.model, k.day) }

  function DayOfCall(k: TenantModelDay): string { k.day }

  function DayOfModel(k: ModelDay): string { k.day }

  function DayOfTenant(k: TenantDay): string { k.day }

  function DayOfDay(k: string): string { k }

  function CallRows(calls: seq<Call>): Table<TenantModelDay, Measure> {
    if calls == [] then []
    else [(TenantModelDay(calls[0].tenant, calls[0].model, calls[0].date), Measure(1, calls[0].tokens, calls[0].cost))]
         + CallRows(calls[1..])
  }

  /** dws_tenant_model_daily. */
  function TenantModelDaily(calls: seq<Call>): Table<TenantModelDay, Measure> {
    GroupBy(Sums(), CallRows(calls))
  }

  /** dws_model_daily. */
  function ModelDaily(calls: seq<Call>): Table<ModelDay, Measure> {
    GroupBy(Sums(), Rekey(CallRows(calls), DropTenant))
  }

  /** The per-tenant rows of ads_cost_daily. */
  function PerTenant(calls: seq<Call>): Table<TenantDay, Measure> {
    GroupBy(Sums(), Rekey(TenantModelDaily(calls), DropModel))
  }

  /** The platform rows of ads_cost_daily. */
  function Platform(calls: seq<Call>): Table<string, Measure> {
    GroupBy(Sums(), Rekey(ModelDaily(calls), DayOfModel))
  }

  function OfDay<K>(dayOf: K -> string, day: string): K -> bool {
    (k: K) => dayOf(k) == day
  }

  /** The total of one day in a table. */
  function DayTotal<K>(rows: Table<K, Measure>, dayOf: K -> string, day: string): Measure {
    Total(Sums(), rows, OfDay(dayOf, day))
  }

  lemma TenantPlan(o: Aggregate<Measure>, rows: Table<TenantModelDay, Measure>, day: string)
    requires Lawful(o)
    ensures Total(o, GroupBy(o, Rekey(GroupBy(o, rows), DropModel)), OfDay(DayOfTenant, day))
         == Total(o, rows, OfDay(DayOfCall, day))
  {
    var g := GroupBy(o, rows);
    forall i | 0 <= i < |g| ensures OfDay(DayOfCall, day)(g[i].0) == OfDay(DayOfTenant, day)(DropModel(g[i].0)) {
      var k := g[i].0;
      assert OfDay(DayOfCall, day)(k) == (DayOfCall(k) == day);
      assert OfDay(DayOfTenant, day)(DropModel(k)) == (DayOfTenant(DropModel(k)) == day);
    }
    RollUpTotal(o, g, DropModel, OfDay(DayOfTenant, day), OfDay(DayOfCall, day));
    GroupTotal(o, rows, OfDay(DayOfCall, day));
  }

  lemma PlatformPlan(o: Aggregate<Measure>, rows: Table<TenantModelDay, Measure>, day: string)
    requires Lawful(o)
    ensures Total(o, GroupBy(o, Rekey(GroupBy(o, Rekey(rows, DropTenant)), DayOfModel)), OfDay(DayOfDay, day))
         == Total(o, rows, OfDay(DayOfCall, day))
  {
    var byModel := GroupBy(o, Rekey(rows, DropTenant));
    forall i | 0 <= i < |byModel|
      ensures OfDay(DayOfModel, day)(byModel[i].0) == OfDay(DayOfDay, day)(DayOfModel(byModel[i].0))
    {
      var k := byModel[i].0;
      assert OfDay(DayOfModel, day)(k) == (DayOfModel(k) == day);
      assert OfDay(DayOfDay, day)(DayOfModel(k)) == (DayOfDay(DayOfModel(k)) == day);
    }
    forall i | 0 <= i < |rows|
      ensures OfDay(DayOfCall, day)(rows[i].0) == OfDay(DayOfModel, day)(DropTenant(rows[i].0))
    {
      var k := rows[i].0;
      assert OfDay(DayOfCall, day)(k) == (DayOfCall(k) == day);
      assert OfDay(DayOfModel, day)(DropTenant(k)) == (DayOfModel(DropTenant(k)) == day);
    }
    RollUpTotal(o, byModel, DayOfModel, OfDay(DayOfDay, day), OfDay(DayOfModel, day));
    RollUpTotal(o, rows, DropTenant, OfDay(DayOfModel, day), OfDay(DayOfCall, day));
  }

  /** For every day, the per-tenant rows add up to the platform row, and both to the day's
      calls, although one goes through tenants and models and the other through models only. */
  lemma PlansAgree(calls: seq<Call>, day: string)
    ensures DayTotal(PerTenant(calls), DayOfTenant, day)
         == DayTotal(Platform(calls), DayOfDay, day)
         == DayTotal(CallRows(calls), DayOfCall, day)
  {
    SumsLawful();
    TenantPlan(Sums(), CallRows(calls), day);
    PlatformPlan(Sums(), CallRows(calls), day);
  }

  lemma {:induction false} CallRowsDates(calls: seq<Call>)
    ensures |CallRows(calls)| == |calls|
    ensures forall i :: 0 <= i < |calls| ==> CallRows(calls)[i].0.day == calls[i].date
  {
    if calls != [] {
      CallRowsDates(calls[1..]);
    }
  }

  ghost predicate HasCalls(calls: seq<Call>, day: string) {
    exists i :: 0 <= i < |calls| && calls[i].date == day
  }

  /** A day has exactly one platform row when it has calls and none otherwise, and that row is
      the sum of the day's per-tenant rows. */
  lemma PlatformRowIsTenantSum(calls: seq<Call>, day: string, m: Measure)
    ensures (day, m) in Platform(calls) <==> HasCalls(calls, day) && m == DayTotal(PerTenant(calls), DayOfTenant, day)
    ensures KeysDiffer(Platform(calls))
  {
    SumsLawful();
    PlansAgree(calls, day);
    var rows := Rekey(ModelDaily(calls), DayOfModel);
    PlatformRow(Sums(), rows, day, m);
    GroupKeys(Sums(), rows, day);
    PlatformDays(Sums(), calls, day);
  }

  lemma PlatformRow(o: Aggregate<Measure>, rows: Table<string, Measure>, day: string, m: Measure)
    requires Lawful(o)
    ensures (day, m) in GroupBy(o, rows) <==> HasKey(rows, day) && m == Total(o, GroupBy(o, rows), OfDay(DayOfDay, day))
  {
    GroupRowsAre(o, rows, day, m);
    GroupTotal(o, rows, OfDay(DayOfDay, day));
    assert forall i :: 0 <= i < |rows| ==> Is(day)(rows[i].0) == (DayOfDay(rows[i].0) == day);
    SameTotal(o, rows, Is(day), OfDay(DayOfDay, day));
  }

  lemma {:induction false} SameTotal<K>(o: Aggregate<Measure>, rows: Table<K, Measure>, p: K -> bool, q: K -> bool)
    requires forall i :: 0 <= i < |rows| ==> p(rows[i].0) == q(rows[i].0)
    ensures Total(o, rows, p) == Total(o, rows, q)
  {
    if rows != [] {
      assert forall i :: 0 <= i < |rows[1..]| ==> rows[1..][i] == rows[i + 1];
      SameTotal(o, rows[1..], p, q);
    }
  }

  lemma PlatformDays(o: Aggregate<Measure>, calls: seq<Call>, day: string)
    ensures HasKey(Rekey(GroupBy(o, Rekey(CallRows(calls), DropTenant)), DayOfModel), day) <==> HasCalls(calls, day)
  {
    var rows := CallRows(calls);
    var re := Rekey(rows, DropTenant);
    var daily := GroupBy(o, re);
    RekeyKeys(daily, DayOfModel, day);
    CallRowsDates(calls);
    if exists i :: 0 <= i < |daily| && DayOfModel(daily[i].0) == day {
      var i :| 0 <= i < |daily| && DayOfModel(daily[i].0) == day;
      var k := daily[i].0;
      GroupKeys(o, re, k);
      RekeyKeys(rows, DropTenant, k);
      var j :| 0 <= j < |rows| && DropTenant(rows[j].0) == k;
      assert calls[j].date == day;
    }
    if HasCalls(calls, day) {
      var i :| 0 <= i < |calls| && calls[i].date == day;
      var k := DropTenant(rows[i].0);
      RekeyKeys(rows, DropTenant, k);
      GroupKeys(o, re, k);
      var j :| 0 <= j < |daily| && daily[j].0 == k;
      assert DayOfModel(daily[j].0) == day;
    }
  }

  // ---- every row, from the calls alone -------------------------------------------------

  /** The sum of the token counts that are not null; null if all are. */
  function TokenSum(calls: seq<Call>): Option<int> {
    if calls == [] then None
    else
      var rest := TokenSum(calls[1..]);
      match calls[0].tokens
      case None => rest
      case Some(n) => Some(n + if rest.Some? then rest.value else 0)
  }

  function CostSum(calls: seq<Call>): Option<real> {
    if calls == [] then None
    else
      var rest := CostSum(calls[1..]);
      match calls[0].cost
      case None => rest
      case Some(x) => Some(x + if rest.Some? then rest.value else 0.0)
  }

  /** The row's measures are the number of the calls and the sums of their tokens and costs. */
  predicate Measures(m: Measure, calls: seq<Call>) {
    m.calls == |calls| && m.tokens == TokenSum(calls) && m.cost == CostSum(calls)
  }

  lemma {:induction false} CallTotalIs(calls: seq<Call>, p: TenantModelDay -> bool, q: Call -> bool)
    requires forall c :: c in calls ==> p(TenantModelDay(c.tenant, c.model, c.date)) == q(c)
    ensures Measures(Total(Sums(), CallRows(calls), p), Filter(calls, q))
  {
    if calls != [] {
      var tail := calls[1..];
      assert calls == [calls[0]] + tail;
      CallTotalIs(tail, p, q);
      assert CallRows(calls)[1..] == CallRows(tail);
      assert ([calls[0]] + Filter(tail, q))[1..] == Filter(tail, q);
    }
  }

  lemma {:induction false} CallRowsAt(calls: seq<Call>)
    ensures |CallRows(calls)| == |calls|
    ensures forall i :: 0 <= i < |calls| ==>
      CallRows(calls)[i].0 == TenantModelDay(calls[i].tenant, calls[i].model, calls[i].date)
  {
    if calls != [] {
      CallRowsAt(calls[1..]);
    }
  }

  lemma {:induction false} FilterEmptyIff(calls: seq<Call>, q: Call -> bool)
    ensures Filter(calls, q) != [] <==> exists i :: 0 <= i < |calls| && q(calls[i])
  {
    if calls != [] {
      var tail := calls[1..];
      FilterEmptyIff(tail, q);
      assert forall i :: 0 <= i < |tail| ==> tail[i] == calls[i + 1];
      assert forall i :: 1 <= i < |calls| ==> calls[i] == tail[i - 1];
    }
  }

  /** The row of a key in a table that was grouped twice, the second time by `f`. */
  lemma RowIs<L(!new)>(calls: seq<Call>, f: TenantModelDay -> L, k: L, q: Call -> bool, m: Measure)
    requires forall c :: c in calls ==> (f(TenantModelDay(c.tenant, c.model, c.date)) == k) == q(c)
    ensures (exists i :: 0 <= i < |CallRows(calls)| && f(CallRows(calls)[i].0) == k) &&
            m == Total(Sums(), CallRows(calls), Onto(f, k))
       <==> Filter(calls, q) != [] && Measures(m, Filter(calls, q))
  {
    CallTotalIs(calls, Onto(f, k), q);
    CallRowsAt(calls);
    FilterEmptyIff(calls, q);
    assert forall i :: 0 <= i < |calls| ==> (f(CallRows(calls)[i].0) == k) == q(calls[i]);
  }

  /** The per-tenant row of a day exists exactly if the tenant has calls on that day, and counts
      and sums those calls. */
  lemma TenantRowIs(calls: seq<Call>, tenant: int, day: string, m: Measure)
    ensures var own := Filter(calls, (c: Call) => c.tenant == tenant && c.date == day);
      (TenantDay(tenant, day), m) in PerTenant(calls) <==> own != [] && Measures(m, own)
  {
    SumsLawful();
    RegroupRowsAre(Sums(), CallRows(calls), DropModel, TenantDay(tenant, day), m);
    RowIs(calls, DropModel, TenantDay(tenant, day), (c: Call) => c.tenant == tenant && c.date == day, m);
  }

  /** Likewise the rows of the two fine tables, by tenant, model and day and by model and day. */
  lemma FineRowsAre(calls: seq<Call>, tenant: int, model: Option<string>, day: string, m: Measure)
    ensures var own := Filter(calls, (c: Call) => c.tenant == tenant && c.model == model && c.date == day);
      (TenantModelDay(tenant, model, day), m) in TenantModelDaily(calls) <==> own != [] && Measures(m, own)
    ensures var all := Filter(calls, (c: Call) => c.model == model && c.date == day);
      (ModelDay(model, day), m) in ModelDaily(calls) <==> all != [] && Measures(m, all)
  {
    SumsLawful();
    var rows, k, n := CallRows(calls), TenantModelDay(tenant, model, day), ModelDay(model, day);
    GroupRowsAre(Sums(), rows, k, m);
    SameTotal(Sums(), rows, Is(k), Onto(Whole, k));
    RowIs(calls, Whole, k, (c: Call) => c.tenant == tenant && c.model == model && c.date == day, m);
    GroupRowsAre(Sums(), Rekey(rows, DropTenant), n, m);
    RekeyKeys(rows, DropTenant, n);
    RekeyTotal(Sums(), rows, DropTenant, Is(n), Onto(DropTenant, n));
    RowIs(calls, DropTenant, n, (c: Call) => c.model == model && c.date == day, m);
  }

  function Whole(k: TenantModelDay): TenantModelDay { k }

  /** Likewise the platform row, with all calls of the day, whatever tenant and model. */
  lemma PlatformRowIs(calls: seq<Call>, day: string, m: Measure)
    ensures var own := Filter(calls, (c: Call) => c.date == day);
      (day, m) in Platform(calls) <==> own != [] && Measures(m, own)
  {
    SumsLawful();
    var rows, byModel := CallRows(calls), Rekey(CallRows(calls), DropTenant);
    RegroupRowsAre(Sums(), byModel, DayOfModel, day, m);
    forall i | 0 <= i < |rows|
      ensures Onto(DayOfCall, day)(rows[i].0) == Onto(DayOfModel, day)(DropTenant(rows[i].0))
    {
      var k := rows[i].0;
      assert Onto(DayOfCall, day)(k) == (DayOfCall(k) == day);
      assert Onto(DayOfModel, day)(DropTenant(k)) == (DayOfModel(DropTenant(k)) == day);
    }
    RekeyTotal(Sums(), rows, DropTenant, Onto(DayOfModel, day), Onto(DayOfCall, day));
    CallRowsDates(calls);
    RekeyedDays(rows, day);
    RowIs(calls, DayOfCall, day, (c: Call) => c.date == day, m);
  }

  lemma {:induction false} RekeyedDays(rows: Table<TenantModelDay, Measure>, day: string)
    ensures (exists i :: 0 <= i < |Rekey(rows, DropTenant)| && DayOfModel(Rekey(rows, DropTenant)[i].0) == day) <==>
      (exists i :: 0 <= i < |rows| && DayOfCall(rows[i].0) == day)
  {
    RekeyAt(rows, DropTenant);
    assert forall i :: 0 <= i < |rows| ==>
      DayOfModel(Rekey(rows, DropTenant)[i].0) == DayOfCall(rows[i].0);
  }

  lemma {:induction false} RekeyAt<K, L>(rows: Table<K, Measure>, f: K -> L)
    ensures |Rekey(rows, f)| == |rows| && forall i :: 0 <= i < |rows| ==> Rekey(rows, f)[i].0 == f(rows[i].0)
  {
    if rows != [] {
      RekeyAt(rows[1..], f);
    }
  }

  // ---- cost shares ---------------------------------------------------------------------

  /** `cost_usd / sum(cost_usd).over(window)`: null for a null cost and for a zero sum. */
  function Share(cost: Option<real>, sum: Option<real>): Option<real> {
    if cost.None? || sum.None? || sum.value == 0.0 then None else Some(cost.value / sum.value)
  }

  /** `round(x, 6)`, half away from zero. */
  function Round6(x: real): real {
    if x >= 0.0 then (x * 1000000.0 + 0.5).Floor as real / 1000000.0
    else -((-x * 1000000.0 + 0.5).Floor as real / 1000000.0)
  }

  lemma Round6Close(x: real)
    ensures -0.0000005 <= Round6(x) - x <= 0.0000005
  {
  }

  /** The costs of one window partition. */
  function Costs<K>(rows: Table<K, Measure>, p: K -> bool): seq<Option<real>> {
    if rows == [] then []
    else (if p(rows[0].0) then [rows[0].1.cost] else []) + Costs(rows[1..], p)
  }

  function Sum(costs: seq<Option<real>>): Option<real> {
    if costs == [] then None else AddReal(costs[0], Sum(costs[1..]))
  }

  /** The sum of the non-null shares, and of their rounded values, and how many there are. */
  function ShareSum(costs: seq<Option<real>>, sum: Option<real>, rounded: bool): real {
    if costs == [] then 0.0
    else
      (match Share(costs[0], sum)
       case Some(x) => if rounded then Round6(x) else x
       case None => 0.0)
      + ShareSum(costs[1..], sum, rounded)
  }

  function ShareCount(costs: seq<Option<real>>): nat {
    if costs == [] then 0 else (if costs[0].Some? then 1 else 0) + ShareCount(costs[1..])
  }

  lemma {:induction false} WindowSum<K>(rows: Table<K, Measure>, p: K -> bool)
    ensures Total(Sums(), rows, p).cost == Sum(Costs(rows, p))
  {
    if rows != [] {
      WindowSum(rows[1..], p);
      if p(rows[0].0) {
        assert Costs(rows, p)[1..] == Costs(rows[1..], p);
      } else {
        assert Costs(rows, p) == Costs(rows[1..], p);
      }
    }
  }

  lemma {:induction false} SharesAreQuotient(costs: seq<Option<real>>, sum: real)
    requires sum != 0.0
    ensures ShareSum(costs, Some(sum), false) == (if Sum(costs).Some? then Sum(costs).value else 0.0) / sum
  {
    if costs != [] {
      SharesAreQuotient(costs[1..], sum);
      var rest := if Sum(costs[1..]).Some? then Sum(costs[1..]).value else 0.0;
      if costs[0].Some? {
        AddQuotients(costs[0].value, rest, sum);
      }
    }
  }

  lemma AddQuotients(x: real, y: real, z: real)
    requires z != 0.0
    ensures x / z + y / z == (x + y) / z
  {
  }

  lemma {:induction false} RoundingError(costs: seq<Option<real>>, sum: real)
    requires sum != 0.0
    ensures var d := ShareSum(costs, Some(sum), true) - ShareSum(costs, Some(sum), false);
      -(ShareCount(costs) as real * 0.0000005) <= d <= ShareCount(costs) as real * 0.0000005
  {
    if costs != [] {
      RoundingError(costs[1..], sum);
      if costs[0].Some? {
        Round6Close(costs[0].value / sum);
      }
    }
  }

  lemma CostSharesSumToOne(costs: seq<Option<real>>, sum: real)
    requires Sum(costs) == Some(sum) && sum != 0.0
    ensures ShareSum(costs, Some(sum), false) == 1.0
  {
    SharesAreQuotient(costs, sum);
    assert sum / sum == 1.0;
  }

  /** In every partition of either share table whose costs do not sum to zero, the unrounded
      shares add up to 1, and rounding to six decimals moves that by at most 5e-7 a row. */
  lemma SharesSumToOne<K>(rows: Table<K, Measure>, p: K -> bool, sum: real)
    requires Total(Sums(), rows, p).cost == Some(sum) && sum != 0.0
    ensures ShareSum(Costs(rows, p), Some(sum), false) == 1.0
    ensures var d := ShareSum(Costs(rows, p), Some(sum), true) - 1.0;
      -(ShareCount(Costs(rows, p)) as real * 0.0000005) <= d <= ShareCount(Costs(rows, p)) as real * 0.0000005
  {
    WindowSum(rows, p);
    CostSharesSumToOne(Costs(rows, p), sum);
    RoundingError(Costs(rows, p), sum);
  }

  ghost predicate NonNegative(costs: seq<Option<real>>) {
    forall c :: c in costs && c.Some? ==> c.value >= 0.0
  }

  lemma {:induction false} PartAtMostSum(costs: seq<Option<real>>, x: real)
    requires NonNegative(costs)
    ensures Sum(costs).Some? ==> Sum(costs).value >= 0.0
    ensures Some(x) in costs ==> Sum(costs).Some? && x <= Sum(costs).value
  {
    if costs != [] {
      var tail := costs[1..];
      assert forall c :: c in tail ==> c in costs;
      PartAtMostSum(tail, x);
      assert costs == [costs[0]] + tail;
      assert costs[0] in costs;
    }
  }

  lemma {:induction false} CostsOfRows<K>(rows: Table<K, Measure>, p: K -> bool)
    ensures forall i :: 0 <= i < |rows| && p(rows[i].0) ==> rows[i].1.cost in Costs(rows, p)
    ensures forall c :: c in Costs(rows, p) ==> exists i :: 0 <= i < |rows| && p(rows[i].0) && rows[i].1.cost == c
  {
    if rows != [] {
      var tail := rows[1..];
      CostsOfRows(tail, p);
      forall c | c in Costs(rows, p) ensures exists i :: 0 <= i < |rows| && p(rows[i].0) && rows[i].1.cost == c {
        if c in Costs(tail, p) {
          var i :| 0 <= i < |tail| && p(tail[i].0) && tail[i].1.cost == c;
          assert rows[i + 1] == tail[i];
        }
      }
      forall i | 0 <= i < |rows| && p(rows[i].0) ensures rows[i].1.cost in Costs(rows, p) {
        assert i > 0 ==> rows[i] == tail[i - 1];
      }
    }
  }

  /** With non-negative costs, a row of a partition has a share exactly if it has a cost and the
      partition's costs do not sum to zero, and the share lies between 0 and 1. */
  lemma ShareInUnit<K>(rows: Table<K, Measure>, p: K -> bool, i: nat)
    requires i < |rows| && p(rows[i].0)
    requires forall j :: 0 <= j < |rows| && p(rows[j].0) && rows[j].1.cost.Some? ==> rows[j].1.cost.value >= 0.0
    ensures var share, sum := Share(rows[i].1.cost, Total(Sums(), rows, p).cost), Total(Sums(), rows, p).cost;
      (share.Some? <==> rows[i].1.cost.Some? && sum != Some(0.0)) &&
      (share.Some? ==> 0.0 <= share.value <= 1.0)
  {
    var costs := Costs(rows, p);
    WindowSum(rows, p);
    CostsOfRows(rows, p);
    assert NonNegative(costs);
    if rows[i].1.cost.Some? {
      PartAtMostSum(costs, rows[i].1.cost.value);
      if Sum(costs) != Some(0.0) {
        QuotientInUnit(rows[i].1.cost.value, Sum(costs).value);
      }
    }
  }
}
