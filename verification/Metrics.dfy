/** The ranking metrics of python-ai/scripts/eval_baseline.py and eval_reranker.py, over the
    reals.  `1 / log2(x)` is any discount that is positive and strictly decreasing from 2 on. */
module Metrics {
  import opened Common

  type Discount = nat -> real

  ghost predicate Decreasing(d: Discount) {
    (forall x :: 2 <= x ==> d(x) > 0.0) &&
    (forall x, y :: 2 <= x < y ==> d(x) > d(y))
  }

  // ---- _ndcg: ranks from 1 -------------------------------------------------------------

  /** Sum of `d(rank + 1)` over the ranks whose item is relevant. */
  function Dcg(d: Discount, ids: seq<string>, expected: set<string>): real {
    if ids == [] then 0.0
    else
      var rank := |ids|;
      Dcg(d, ids[..rank - 1], expected) + (if ids[rank - 1] in expected then d(rank + 1) else 0.0)
  }

  /** Sum of `d(rank + 1)` for `rank` from 1 to `m`. */
  function IdealDcg(d: Discount, m: nat): real {
    if m == 0 then 0.0 else IdealDcg(d, m - 1) + d(m + 1)
  }

  function Min(a: nat, b: nat): nat {
    if a <= b then a else b
  }

  function Ndcg(d: Discount, retrieved: seq<string>, expected: seq<string>, topK: nat): real {
    var relevant := |SetOf(expected)|;
    if relevant == 0 then 0.0
    else
      var ideal := IdealDcg(d, Min(relevant, topK));
      if ideal != 0.0 then Dcg(d, retrieved, SetOf(expected)) / ideal else 0.0
  }

  // ---- _ndcg_at_k: positions from 0 ----------------------------------------------------

  /** Sum of `d(position + 2)` over the positions whose item is in the list. */
  function DcgFrom(d: Discount, ids: seq<string>, expected: seq<string>, position: nat): real {
    if ids == [] then 0.0
    else (if ids[0] in expected then d(position + 2) else 0.0) + DcgFrom(d, ids[1..], expected, position + 1)
  }

  /** Sum of `d(position + 2)` for `position` from `lo` up to `hi`. */
  function IdealFrom(d: Discount, lo: nat, hi: nat): real
    decreases hi - lo
  {
    if lo >= hi then 0.0 else d(lo + 2) + IdealFrom(d, lo + 1, hi)
  }

  function NdcgAtK(d: Discount, ranked: seq<string>, expected: seq<string>, k: nat): real {
    if expected == [] then 0.0
    else
      var ideal := IdealFrom(d, 0, Min(|expected|, k));
      if ideal != 0.0 then DcgFrom(d, Take(ranked, k), expected, 0) / ideal else 0.0
  }

  // ---- the exchange argument -----------------------------------------------------------

  /** Number of ranks whose item is relevant. */
  function Hits(ids: seq<string>, expected: set<string>): nat {
    if ids == [] then 0
    else Hits(ids[..|ids| - 1], expected) + (if ids[|ids| - 1] in expected then 1 else 0)
  }

  predicate AllRelevant(ids: seq<string>, expected: set<string>, m: nat) {
    m <= |ids| && forall i :: 0 <= i < m ==> ids[i] in expected
  }

  lemma {:induction false} HitsBounded(ids: seq<string>, expected: set<string>)
    ensures Hits(ids, expected) <= |ids|
    ensures Hits(ids, expected) == |ids| <==> AllRelevant(ids, expected, |ids|)
  {
    if ids != [] {
      HitsBounded(ids[..|ids| - 1], expected);
    }
  }

  /** The hits are worth at most as much as equally many hits at the top, and exactly as much
      only if they are the top ones. */
  lemma {:induction false} DcgAtMostIdeal(d: Discount, ids: seq<string>, expected: set<string>)
    requires Decreasing(d)
    ensures 0.0 <= Dcg(d, ids, expected) <= IdealDcg(d, Hits(ids, expected))
    ensures Dcg(d, ids, expected) == IdealDcg(d, Hits(ids, expected))
       <==> AllRelevant(ids, expected, Hits(ids, expected))
  {
    if ids != [] {
      var init := ids[..|ids| - 1];
      var h := Hits(init, expected);
      DcgAtMostIdeal(d, init, expected);
      HitsBounded(init, expected);
      if ids[|ids| - 1] in expected {
        assert IdealDcg(d, h + 1) == IdealDcg(d, h) + d(h + 2);
        assert h < |init| ==> d(|ids| + 1) < d(h + 2);
        LastHit(ids, expected);
      } else {
        assert AllRelevant(ids, expected, h) <==> AllRelevant(init, expected, h);
      }
    }
  }

  /** With a hit at the last rank, the hits come first exactly when there is nothing else. */
  lemma LastHit(ids: seq<string>, expected: set<string>)
    requires ids != [] && ids[|ids| - 1] in expected
    ensures var init := ids[..|ids| - 1];
      AllRelevant(ids, expected, Hits(ids, expected)) <==>
      Hits(init, expected) == |init| && AllRelevant(init, expected, Hits(init, expected))
  {
    var init := ids[..|ids| - 1];
    var h := Hits(init, expected);
    HitsBounded(init, expected);
    if AllRelevant(ids, expected, h + 1) && h < |init| {
      assert AllRelevant(init, expected, h + 1);
      PrefixHits(init, expected, h + 1);
    }
  }

  lemma {:induction false} PrefixHits(ids: seq<string>, expected: set<string>, m: nat)
    requires AllRelevant(ids, expected, m)
    ensures Hits(ids, expected) >= m
  {
    if m < |ids| {
      PrefixHits(ids[..|ids| - 1], expected, m);
    } else {
      HitsBounded(ids, expected);
      assert ids[..m] == ids;
    }
  }

  lemma {:induction false} IdealIncreasing(d: Discount, a: nat, b: nat)
    requires Decreasing(d) && a < b
    ensures 0.0 <= IdealDcg(d, a) < IdealDcg(d, b)
    decreases b
  {
    if a < b - 1 {
      IdealIncreasing(d, a, b - 1);
    } else if a > 0 {
      IdealIncreasing(d, 0, a);
    }
  }

  /** Distinct items hit each expected id at most once. */
  lemma {:induction false} HitsAtMostExpected(ids: seq<string>, expected: set<string>)
    requires Distinct(ids)
    ensures Hits(ids, expected) == |SetOf(ids) * expected|
    ensures Hits(ids, expected) <= |expected|
  {
    if ids != [] {
      var init, last := ids[..|ids| - 1], ids[|ids| - 1];
      HitsAtMostExpected(init, expected);
      assert ids == init + [last];
      SetOfSnoc(init, last);
      assert last !in SetOf(init);
      if last in expected {
        assert SetOf(ids) * expected == SetOf(init) * expected + {last};
      } else {
        assert SetOf(ids) * expected == SetOf(init) * expected;
      }
    }
    SubsetSize(SetOf(ids) * expected, expected);
  }

  lemma SetOfSnoc(init: seq<string>, last: string)
    ensures SetOf(init + [last]) == SetOf(init) + {last}
  {
    var s := init + [last];
    forall x | x in SetOf(init) + {last} ensures x in SetOf(s) {
      if x in SetOf(init) {
        var i :| 0 <= i < |init| && init[i] == x;
        assert s[i] == x;
      } else {
        assert s[|init|] == x;
      }
    }
  }

  lemma {:induction false} SubsetSize<T>(a: set<T>, b: set<T>)
    requires a <= b
    ensures |a| <= |b|
    ensures |a| == |b| ==> a == b
  {
    if a != {} {
      var x :| x in a;
      SubsetSize(a - {x}, b - {x});
    }
  }

  // ---- nDCG ----------------------------------------------------------------------------

  /** nDCG of distinct items cut at `topK` lies between 0 and 1, and is 1 exactly when the
      first min(|E|, k) ranks are all relevant. */
  lemma NdcgBounds(d: Discount, retrieved: seq<string>, expected: seq<string>, topK: nat)
    requires Decreasing(d)
    requires Distinct(retrieved) && |retrieved| <= topK
    ensures 0.0 <= Ndcg(d, retrieved, expected, topK) <= 1.0
    ensures expected != [] && topK >= 1 ==>
      (Ndcg(d, retrieved, expected, topK) == 1.0
       <==> AllRelevant(retrieved, SetOf(expected), Min(|SetOf(expected)|, topK)))
  {
    var e := SetOf(expected);
    if expected != [] {
      assert expected[0] in e;
      var m, h := Min(|e|, topK), Hits(retrieved, e);
      DcgAtMostIdeal(d, retrieved, e);
      HitsBounded(retrieved, e);
      HitsAtMostExpected(retrieved, e);
      if topK >= 1 {
        IdealIncreasing(d, 0, m);
        if h < m {
          IdealIncreasing(d, h, m);
        }
        var x, y := Dcg(d, retrieved, e), IdealDcg(d, m);
        QuotientInUnit(x, y);
        if AllRelevant(retrieved, e, m) {
          PrefixHits(retrieved, e, m);
        }
      }
    }
  }

  /** Sum of one hit. */
  lemma {:induction false} DcgOfOneHit(d: Discount, ids: seq<string>, x: string, i: nat)
    requires i < |ids| && forall j :: 0 <= j < |ids| ==> (ids[j] == x <==> j == i)
    ensures Dcg(d, ids, {x}) == d(i + 2)
  {
    var n := |ids| - 1;
    if i == n {
      NoHitsNoSum(d, ids[..n], {x});
    } else {
      DcgOfOneHit(d, ids[..n], x, i);
    }
  }

  lemma {:induction false} NoHitsNoSum(d: Discount, ids: seq<string>, expected: set<string>)
    requires forall j :: 0 <= j < |ids| ==> ids[j] !in expected
    ensures Dcg(d, ids, expected) == 0.0
  {
    if ids != [] {
      NoHitsNoSum(d, ids[..|ids| - 1], expected);
    }
  }

  /** The nDCG of a single expected id found at position `i`, counted from 0, is the discount
      of that position over that of the top one; without the id it is 0. */
  lemma SingleHitNdcg(d: Discount, retrieved: seq<string>, x: string, topK: nat, i: nat)
    requires Decreasing(d) && topK >= 1 && i <= |retrieved|
    requires forall j :: 0 <= j < |retrieved| ==> (retrieved[j] == x <==> j == i)
    ensures Ndcg(d, retrieved, [x], topK) == if i < |retrieved| then d(i + 2) / d(2) else 0.0
  {
    assert SetOf([x]) == {x} by {
      SetOfSnoc([], x);
      assert [] + [x] == [x];
    }
    assert IdealDcg(d, 1) == IdealDcg(d, 0) + d(2) == d(2);
    if i < |retrieved| {
      DcgOfOneHit(d, retrieved, x, i);
    } else {
      NoHitsNoSum(d, retrieved, {x});
      QuotientOf(0.0, d(2), 0.0);
    }
  }

  lemma QuotientIncreasing(x: real, y: real, z: real)
    requires x < y && z > 0.0
    ensures x / z < y / z
  {
    assert x == (x / z) * z && y == (y / z) * z;
    MulMono(y / z, x / z, z);
  }

  lemma MulMono(x: real, y: real, z: real)
    requires z >= 0.0
    ensures x <= y ==> x * z <= y * z
  {
  }

  /** Exchanging what stands at rank `i + 1` changes the sum by that rank's discount alone. */
  lemma {:induction false} DcgUpdate(d: Discount, ids: seq<string>, expected: set<string>, i: nat, x: string)
    requires i < |ids|
    ensures Dcg(d, ids[i := x], expected)
         == Dcg(d, ids, expected) +
           (if x in expected then d(i + 2) else 0.0) - (if ids[i] in expected then d(i + 2) else 0.0)
  {
    var n := |ids|;
    var ids' := ids[i := x];
    if i == n - 1 {
      assert ids'[..n - 1] == ids[..n - 1];
    } else {
      assert ids'[..n - 1] == ids[..n - 1][i := x];
      DcgUpdate(d, ids[..n - 1], expected, i, x);
    }
  }

  /** Moving a relevant item up past an irrelevant one raises nDCG. */
  lemma MovingRelevantUpRaisesNdcg(d: Discount, retrieved: seq<string>, expected: seq<string>, topK: nat, i: nat,
      j: nat)
    requires Decreasing(d) && i < j < |retrieved| <= topK
    requires retrieved[i] !in SetOf(expected) && retrieved[j] in SetOf(expected)
    ensures Ndcg(d, retrieved[i := retrieved[j]][j := retrieved[i]], expected, topK)
          > Ndcg(d, retrieved, expected, topK)
  {
    var e := SetOf(expected);
    var up := retrieved[i := retrieved[j]];
    DcgUpdate(d, retrieved, e, i, retrieved[j]);
    DcgUpdate(d, up, e, j, retrieved[i]);
    SubsetSize({retrieved[j]}, e);
    IdealIncreasing(d, 0, Min(|e|, topK));
    QuotientIncreasing(Dcg(d, retrieved, e), Dcg(d, up[j := retrieved[i]], e), IdealDcg(d, Min(|e|, topK)));
  }

  // ---- lists with repetitions ----------------------------------------------------------

  /** A discount that is nearly flat. */
  function NearOne(eps: real): Discount {
    (x: nat) => 1.0 + eps / (x + 1) as real
  }

  lemma SmallerFraction(eps: real, a: nat, b: nat)
    requires eps > 0.0 && 0 < a < b
    ensures 0.0 < eps / b as real < eps / a as real <= eps
  {
    var x, y := a as real, b as real;
    var p, q := eps / x, eps / y;
    assert p * x == eps && q * y == eps;
    assert p > 0.0 && q > 0.0;
    MulMono(p, q, y);
    MulMono(1.0, x, p);
    assert p * y - p * x == p * (y - x) > 0.0;
  }

  lemma NearOneDecreasing(eps: real)
    requires eps > 0.0
    ensures Decreasing(NearOne(eps))
    ensures forall x :: 2 <= x ==> 1.0 <= NearOne(eps)(x) <= 1.0 + eps
  {
    var d := NearOne(eps);
    forall x: nat, y: nat | 2 <= x < y ensures d(x) > d(y) {
      SmallerFraction(eps, x + 1, y + 1);
    }
    forall x: nat | 2 <= x ensures 1.0 <= d(x) <= 1.0 + eps {
      SmallerFraction(eps, x + 1, x + 2);
    }
  }

  lemma {:induction false} DcgAtLeastHits(d: Discount, ids: seq<string>, expected: set<string>)
    requires forall x :: 2 <= x ==> 1.0 <= d(x)
    ensures Dcg(d, ids, expected) >= Hits(ids, expected) as real
  {
    if ids != [] {
      DcgAtLeastHits(d, ids[..|ids| - 1], expected);
    }
  }

  lemma {:induction false} IdealAtMost(d: Discount, m: nat, top: real)
    requires forall x :: 2 <= x ==> d(x) <= top
    ensures IdealDcg(d, m) <= m as real * top
  {
    if m > 0 {
      IdealAtMost(d, m - 1, top);
      assert m as real * top == (m - 1) as real * top + top;
    }
  }

  lemma FlatEnough(n: real, eps: real)
    requires n >= 0.0 && eps == 1.0 / (n + 1.0)
    ensures eps > 0.0 && n * (1.0 + eps) < n + 1.0
  {
    assert eps * (n + 1.0) == 1.0;
    assert n * (1.0 + eps) == n + (eps * (n + 1.0) - eps);
  }

  lemma FlatExceeds(d: Discount, ids: seq<string>, expected: set<string>, m: nat, top: real)
    requires Decreasing(d) && 0 < m < Hits(ids, expected)
    requires forall x :: 2 <= x ==> 1.0 <= d(x) <= top
    requires m as real * top < m as real + 1.0
    ensures Dcg(d, ids, expected) > IdealDcg(d, m) > 0.0
  {
    DcgAtLeastHits(d, ids, expected);
    IdealAtMost(d, m, top);
    IdealIncreasing(d, 0, m);
  }

  /** With more than `m` hits, a flat enough discount gives more than the ideal of `m`. */
  lemma FlatDiscountExceeds(ids: seq<string>, expected: set<string>, m: nat) returns (d: Discount)
    requires 0 < m < Hits(ids, expected)
    ensures Decreasing(d) && Dcg(d, ids, expected) > IdealDcg(d, m) > 0.0
  {
    var eps := 1.0 / (m as real + 1.0);
    FlatEnough(m as real, eps);
    NearOneDecreasing(eps);
    d := NearOne(eps);
    FlatExceeds(d, ids, expected, m, 1.0 + eps);
  }

  /** Whatever the list, nDCG is at most 1 for every discount exactly when the list has no more
      hits than the ideal ranking; distinct ids cut at `topK` never have. */
  lemma NdcgAtMostOneIff(retrieved: seq<string>, expected: seq<string>, topK: nat)
    requires expected != [] && topK >= 1
    ensures (forall d :: Decreasing(d) ==> Ndcg(d, retrieved, expected, topK) <= 1.0)
       <==> Hits(retrieved, SetOf(expected)) <= Min(|SetOf(expected)|, topK)
  {
    var e := SetOf(expected);
    assert expected[0] in e;
    var m, h := Min(|e|, topK), Hits(retrieved, e);
    if h <= m {
      forall d | Decreasing(d) ensures Ndcg(d, retrieved, expected, topK) <= 1.0 {
        FewHitsAtMostOne(d, retrieved, expected, topK);
      }
    } else {
      var d := FlatDiscountExceeds(retrieved, e, m);
      QuotientIncreasing(IdealDcg(d, m), Dcg(d, retrieved, e), IdealDcg(d, m));
      QuotientInUnit(IdealDcg(d, m), IdealDcg(d, m));
      assert Ndcg(d, retrieved, expected, topK) > 1.0;
    }
  }

  lemma FewHitsAtMostOne(d: Discount, retrieved: seq<string>, expected: seq<string>, topK: nat)
    requires Decreasing(d) && expected != [] && topK >= 1
    requires Hits(retrieved, SetOf(expected)) <= Min(|SetOf(expected)|, topK)
    ensures Ndcg(d, retrieved, expected, topK) <= 1.0
  {
    var e := SetOf(expected);
    assert expected[0] in e;
    var m, h := Min(|e|, topK), Hits(retrieved, e);
    DcgAtMostIdeal(d, retrieved, e);
    IdealIncreasing(d, 0, m);
    if h < m {
      IdealIncreasing(d, h, m);
    }
    QuotientInUnit(Dcg(d, retrieved, e), IdealDcg(d, m));
  }

  /** A repeated item is counted each time: nDCG can exceed 1. */
  lemma RepeatedItemExceedsOne(d: Discount)
    requires Decreasing(d)
    ensures Ndcg(d, ["a", "a"], ["a"], 10) > 1.0
  {
    var ids := ["a", "a"];
    assert SetOf(["a"]) == {"a"} by {
      SetOfSnoc([], "a");
      assert [] + ["a"] == ["a"];
    }
    assert ids[..1] == ["a"] && ids[..1][..0] == [];
    assert Dcg(d, ids, {"a"}) == d(2) + d(3);
    assert IdealDcg(d, 1) == IdealDcg(d, 0) + d(2) == d(2);
    QuotientIncreasing(d(2), d(2) + d(3), d(2));
    QuotientInUnit(d(2), d(2));
  }

  // ---- the two implementations ---------------------------------------------------------

  lemma {:induction false} DcgFromIsDcg(d: Discount, head: seq<string>, ids: seq<string>, expected: seq<string>)
    ensures Dcg(d, head + ids, SetOf(expected)) == Dcg(d, head, SetOf(expected)) + DcgFrom(d, ids, expected, |head|)
    decreases ids
  {
    if ids == [] {
      assert head + ids == head;
    } else {
      assert head + ids == head + [ids[0]] + ids[1..];
      DcgFromIsDcg(d, head + [ids[0]], ids[1..], expected);
      assert (head + [ids[0]])[..|head|] == head;
      assert ids[0] in expected <==> ids[0] in SetOf(expected);
    }
  }

  lemma {:induction false} IdealFromIsIdeal(d: Discount, lo: nat, hi: nat)
    requires lo <= hi
    ensures IdealFrom(d, lo, hi) == IdealDcg(d, hi) - IdealDcg(d, lo)
    decreases hi - lo
  {
    if lo < hi {
      IdealFromIsIdeal(d, lo + 1, hi);
    }
  }

  lemma {:induction false} SetOfSize(ids: seq<string>)
    ensures |SetOf(ids)| <= |ids|
    ensures |SetOf(ids)| == |ids| <==> Distinct(ids)
    ensures ids != [] ==> |SetOf(ids)| > 0
  {
    if ids != [] {
      var init, last := ids[..|ids| - 1], ids[|ids| - 1];
      SetOfSize(init);
      assert ids == init + [last];
      SetOfSnoc(init, last);
      if last in SetOf(init) {
        assert SetOf(ids) == SetOf(init);
        var i :| 0 <= i < |init| && init[i] == last;
        assert ids[i] == ids[|ids| - 1];
      } else {
        assert forall i :: 0 <= i < |init| ==> init[i] in SetOf(init);
        assert forall i :: 0 <= i < |init| ==> init[i] == ids[i];
      }
    }
  }

  /** The reranker's value, with the baseline's sums. */
  lemma NdcgAtKValue(d: Discount, ranked: seq<string>, expected: seq<string>, k: nat)
    requires Decreasing(d) && expected != [] && k > 0
    ensures IdealDcg(d, Min(|expected|, k)) > 0.0
    ensures NdcgAtK(d, ranked, expected, k)
         == Dcg(d, Take(ranked, k), SetOf(expected)) / IdealDcg(d, Min(|expected|, k))
  {
    var cut, n := Take(ranked, k), Min(|expected|, k);
    assert [] + cut == cut;
    DcgFromIsDcg(d, [], cut, expected);
    IdealFromIsIdeal(d, 0, n);
    IdealIncreasing(d, 0, n);
  }

  lemma {:induction false} NoHitsNoGain(d: Discount, ids: seq<string>, expected: set<string>)
    requires Decreasing(d)
    ensures Dcg(d, ids, expected) >= 0.0
    ensures Dcg(d, ids, expected) == 0.0 <==> Hits(ids, expected) == 0
  {
    if ids != [] {
      NoHitsNoGain(d, ids[..|ids| - 1], expected);
    }
  }

  /** The reranker benchmark computes the same value as the baseline on the cut list exactly
      when nothing relevant was found or repetitions in the expected list do not lengthen its
      ideal; in particular for distinct expected ids. */
  lemma ImplementationsAgree(d: Discount, ranked: seq<string>, expected: seq<string>, k: nat)
    requires Decreasing(d)
    ensures NdcgAtK(d, ranked, expected, k) == Ndcg(d, Take(ranked, k), expected, k)
       <==> Hits(Take(ranked, k), SetOf(expected)) == 0 || Min(|expected|, k) == Min(|SetOf(expected)|, k)
    ensures Distinct(expected) ==> NdcgAtK(d, ranked, expected, k) == Ndcg(d, Take(ranked, k), expected, k)
  {
    SetOfSize(expected);
    if expected != [] && k > 0 {
      NdcgAtKValue(d, ranked, expected, k);
      var x, m, n := Dcg(d, Take(ranked, k), SetOf(expected)), Min(|SetOf(expected)|, k), Min(|expected|, k);
      IdealIncreasing(d, 0, m);
      NoHitsNoGain(d, Take(ranked, k), SetOf(expected));
      if m < n {
        IdealIncreasing(d, m, n);
        DivisorMatters(x, IdealDcg(d, m), IdealDcg(d, n));
      }
    }
  }

  lemma DivisorMatters(x: real, y: real, z: real)
    requires 0.0 < y < z && x >= 0.0
    ensures x / y == x / z <==> x == 0.0
  {
    if x > 0.0 {
      LargerDivisor(x, y, z);
    } else {
      QuotientOf(0.0, y, x);
      QuotientOf(0.0, z, x);
    }
  }

  lemma LargerDivisor(x: real, y: real, z: real)
    requires 0.0 < y < z && x > 0.0
    ensures x / z < x / y
  {
    var q := x / z;
    assert q * z == x && q > 0.0;
    assert q * y < q * z;
    QuotientIncreasing(q * y, x, y);
    QuotientOf(q, y, q * y);
  }

  // ---- citations -----------------------------------------------------------------------

  function Overlap(cited: seq<string>, expected: seq<string>): nat {
    |SetOf(expected) * SetOf(cited)|
  }

  function Faithfulness(cited: seq<string>, expected: seq<string>): Option<real> {
    if cited == [] || expected == [] then None
    else Some(Overlap(cited, expected) as real / |cited| as real)
  }

  function Recall(cited: seq<string>, expected: seq<string>): Option<real> {
    if expected == [] then None
    else if cited == [] then Some(0.0)
    else
      assert expected[0] in SetOf(expected);
      Some(Overlap(cited, expected) as real / |SetOf(expected)| as real)
  }

  function F1(precision: Option<real>, recall: Option<real>): Option<real> {
    match (precision, recall)
    case (Some(p), Some(r)) => Some(Harmonic(p, r))
    case _ => None
  }

  function Harmonic(p: real, r: real): real {
    if p + r <= 0.0 then 0.0 else 2.0 * p * r / (p + r)
  }

  /** F1 is the overlap counted twice over the sizes of the two lists: it is 1 exactly when
      the citations are the expected ids without repetition. */
  lemma F1IsOverlap(cited: seq<string>, expected: seq<string>)
    requires cited != [] && expected != []
    ensures var f := F1(Faithfulness(cited, expected), Recall(cited, expected));
      f == Some(2.0 * Overlap(cited, expected) as real / (|cited| + |SetOf(expected)|) as real)
    ensures F1(Faithfulness(cited, expected), Recall(cited, expected)) == Some(1.0)
       <==> SetOf(cited) == SetOf(expected) && Distinct(cited)
  {
    SetOfSize(cited);
    SetOfSize(expected);
    var h, c, e := Overlap(cited, expected), |cited|, |SetOf(expected)|;
    F1Value(h, c, e);
    var both := SetOf(expected) * SetOf(cited);
    SubsetSize(both, SetOf(expected));
    SubsetSize(both, SetOf(cited));
    var n, k := 2.0 * h as real, (c + e) as real;
    QuotientInUnit(n, k);
    if SetOf(cited) == SetOf(expected) {
      assert both == SetOf(expected);
    }
  }

  lemma InSetOf(ids: seq<string>)
    ensures forall x :: x in SetOf(ids) <==> x in ids
  {
    forall x | x in ids ensures x in SetOf(ids) {
      var i :| 0 <= i < |ids| && ids[i] == x;
      assert ids[i] in SetOf(ids);
    }
  }

  /** Which of the citation measures are absent, and what their extreme values mean: precision
      is 1 for citations without repetition that are all expected, recall is 1 when all expected
      ids are cited, and either is 0 when none is. */
  lemma CitationExtremes(cited: seq<string>, expected: seq<string>)
    ensures Faithfulness(cited, expected) == None <==> cited == [] || expected == []
    ensures Recall(cited, expected) == None <==> expected == []
    ensures F1(Faithfulness(cited, expected), Recall(cited, expected)) == None <==> cited == [] || expected == []
    ensures Faithfulness(cited, expected) == Some(1.0) <==>
      cited != [] && expected != [] && Distinct(cited) && forall x :: x in cited ==> x in expected
    ensures Recall(cited, expected) == Some(1.0) <==> expected != [] && forall x :: x in expected ==> x in cited
    ensures Recall(cited, expected) == Some(0.0) <==> expected != [] && forall x :: x in expected ==> x !in cited
    ensures Faithfulness(cited, expected) == Some(0.0) <==>
      cited != [] && expected != [] && forall x :: x in expected ==> x !in cited
  {
    if cited != [] && expected != [] {
      OverlapExtremes(cited, expected);
      assert expected[0] in SetOf(expected);
      Extremes(Overlap(cited, expected), |cited|);
      Extremes(Overlap(cited, expected), |SetOf(expected)|);
    } else if expected != [] {
      assert expected[0] in expected;
    }
  }

  lemma OverlapExtremes(cited: seq<string>, expected: seq<string>)
    ensures Overlap(cited, expected) <= |SetOf(expected)| && Overlap(cited, expected) <= |cited|
    ensures Overlap(cited, expected) == |cited| <==> Distinct(cited) && forall x :: x in cited ==> x in expected
    ensures Overlap(cited, expected) == |SetOf(expected)| <==> forall x :: x in expected ==> x in cited
    ensures Overlap(cited, expected) == 0 <==> forall x :: x in expected ==> x !in cited
  {
    SetOfSize(cited);
    var c, e := SetOf(cited), SetOf(expected);
    InSetOf(cited);
    InSetOf(expected);
    IntersectionSizes(e, c);
    assert c <= e <==> forall x :: x in cited ==> x in expected;
    assert e <= c <==> forall x :: x in expected ==> x in cited;
    if e * c == {} {
      forall x | x in expected ensures x !in cited {
        assert x !in e * c;
      }
    }
  }

  lemma IntersectionSizes<T>(a: set<T>, b: set<T>)
    ensures |a * b| <= |a| && |a * b| <= |b|
    ensures |a * b| == |a| <==> a <= b
    ensures |a * b| == |b| <==> b <= a
    ensures |a * b| == 0 <==> a * b == {}
  {
    SubsetSize(a * b, a);
    SubsetSize(a * b, b);
    if a <= b {
      assert a * b == a;
    }
    if b <= a {
      assert a * b == b;
    }
  }

  lemma Extremes(h: nat, n: nat)
    requires h <= n && n > 0
    ensures h as real / n as real == 1.0 <==> h == n
    ensures h as real / n as real == 0.0 <==> h == 0
  {
    QuotientInUnit(h as real, n as real);
    var q := h as real / n as real;
    assert q * n as real == h as real;
  }

  lemma F1Value(h: nat, c: nat, e: nat)
    requires c > 0 && e > 0
    ensures F1(Some(h as real / c as real), Some(h as real / e as real)) == Some(2.0 * h as real / (c + e) as real)
  {
    assert (c + e) as real == c as real + e as real;
    var x, y, z := h as real, c as real, e as real;
    var n := 2.0 * x;
    var p, r, q := x / y, x / z, n / (y + z);
    HarmonicMean(x, y, z, p, r, q);
  }

  /** The harmonic mean of `h / c` and `h / e` is `2 * h / (c + e)`. */
  lemma HarmonicMean(h: real, c: real, e: real, p: real, r: real, q: real)
    requires h >= 0.0 && c > 0.0 && e > 0.0
    requires p * c == h && r * e == h && q * (c + e) == 2.0 * h
    ensures Harmonic(p, r) == q
  {
    if h == 0.0 {
      CancelRight(p, 0.0, c);
      CancelRight(r, 0.0, e);
      CancelRight(q, 0.0, c + e);
    } else {
      assert p > 0.0 && r > 0.0;
      calc {
        (p + r) * c * e;
        (p * c) * e + (r * e) * c;
        h * e + h * c;
        h * (c + e);
      }
      calc {
        q * (p + r) * (c * e);
        q * ((p + r) * c * e);
        q * (h * (c + e));
        h * (q * (c + e));
        2.0 * h * h;
        2.0 * (p * c) * (r * e);
        2.0 * p * r * (c * e);
      }
      CancelRight(q * (p + r), 2.0 * p * r, c * e);
      QuotientOf(q, p + r, 2.0 * p * r);
    }
  }

  lemma CancelRight(a: real, b: real, z: real)
    requires a * z == b * z && z > 0.0
    ensures a == b
  {
    assert (a - b) * z == 0.0;
  }

  lemma QuotientOf(q: real, y: real, x: real)
    requires y > 0.0 && q * y == x
    ensures x / y == q
  {
    assert (x / y) * y == x;
    CancelRight(x / y, q, y);
  }

  /** `select_cited_chunks`. */
  function SelectCited(ranked: seq<(string, real)>, topK: nat, ratio: real): seq<string> {
    if ranked == [] || ranked[0].1 <= 0.0 then []
    else
      var threshold := Threshold(ranked[0].1, ratio);
      Take(Ids(Filter(ranked, AtLeast(threshold))), topK)
  }

  function AtLeast(t: real): ((string, real)) -> bool {
    (x: (string, real)) => x.1 >= t
  }

  function Threshold(top: real, ratio: real): real {
    top * ratio
  }

  lemma ThresholdMono(top: real, ratio: real, ratio': real)
    requires ratio <= ratio' && top >= 0.0
    ensures Threshold(top, ratio) <= Threshold(top, ratio')
  {
    assert top * (ratio' - ratio) >= 0.0;
  }

  function Ids(ranked: seq<(string, real)>): (r: seq<string>)
    ensures |r| == |ranked|
  {
    if ranked == [] then [] else [ranked[0].0] + Ids(ranked[1..])
  }

  ghost predicate Sorted(ranked: seq<(string, real)>) {
    forall i, j :: 0 <= i < j < |ranked| ==> ranked[i].1 >= ranked[j].1
  }

  /** How many leading entries have a score of at least `t`. */
  function Window(ranked: seq<(string, real)>, t: real): (n: nat)
    ensures n <= |ranked|
  {
    if ranked == [] || ranked[0].1 < t then 0 else 1 + Window(ranked[1..], t)
  }

  lemma {:induction false} FilterIsWindow(ranked: seq<(string, real)>, t: real)
    requires Sorted(ranked)
    ensures Filter(ranked, AtLeast(t)) == ranked[..Window(ranked, t)]
  {
    if ranked != [] {
      var tail := ranked[1..];
      assert forall i :: 0 <= i < |tail| ==> tail[i] == ranked[i + 1];
      if ranked[0].1 < t {
        FilterNone(tail, AtLeast(t));
      } else {
        assert Sorted(tail);
        FilterIsWindow(tail, t);
        assert ranked[..Window(ranked, t)] == [ranked[0]] + tail[..Window(tail, t)];
      }
    }
  }

  lemma {:induction false} FilterNone(ranked: seq<(string, real)>, p: ((string, real)) -> bool)
    requires forall i :: 0 <= i < |ranked| ==> !p(ranked[i])
    ensures Filter(ranked, p) == []
  {
    if ranked != [] {
      FilterNone(ranked[1..], p);
    }
  }

  lemma {:induction false} IdsPrefix(ranked: seq<(string, real)>, n: nat)
    requires n <= |ranked|
    ensures Ids(ranked[..n]) == Ids(ranked)[..n]
  {
    if n > 0 {
      assert ranked[..n][1..] == ranked[1..][..n - 1];
      IdsPrefix(ranked[1..], n - 1);
    }
  }

  lemma {:induction false} WindowGrows(ranked: seq<(string, real)>, t: real, u: real)
    requires u <= t
    ensures Window(ranked, t) <= Window(ranked, u)
  {
    if ranked != [] && ranked[0].1 >= t {
      WindowGrows(ranked[1..], t, u);
    }
  }

  /** On a ranking sorted by score, the citations are the first min(k, window) ids. */
  lemma CitedArePrefix(ranked: seq<(string, real)>, topK: nat, ratio: real)
    requires Sorted(ranked) && ranked != [] && ranked[0].1 > 0.0
    ensures SelectCited(ranked, topK, ratio) == Ids(ranked)[..Min(topK, Window(ranked, Threshold(ranked[0].1, ratio)))]
  {
    var t := Threshold(ranked[0].1, ratio);
    var n := Window(ranked, t);
    FilterIsWindow(ranked, t);
    IdsPrefix(ranked, n);
    assert Take(Ids(ranked)[..n], topK) == Ids(ranked)[..Min(topK, n)];
  }

  lemma {:induction false} WindowIs(ranked: seq<(string, real)>, t: real)
    requires Sorted(ranked)
    ensures forall i :: 0 <= i < |ranked| ==> (i < Window(ranked, t) <==> ranked[i].1 >= t)
  {
    if ranked != [] && ranked[0].1 >= t {
      var tail := ranked[1..];
      assert forall i :: 0 <= i < |tail| ==> tail[i] == ranked[i + 1];
      WindowIs(tail, t);
      assert forall i :: 1 <= i < |ranked| ==> ranked[i] == tail[i - 1];
    }
  }

  /** Which entries of a sorted ranking are cited: those among the first `topK` whose score is
      at least `ratio` times the top score, in their order; none where the ranking is empty or
      the top score is not positive. */
  lemma CitedIff(ranked: seq<(string, real)>, topK: nat, ratio: real) returns (n: nat)
    requires Sorted(ranked)
    ensures n <= |ranked| && |SelectCited(ranked, topK, ratio)| == n
    ensures forall i :: 0 <= i < n ==> SelectCited(ranked, topK, ratio)[i] == ranked[i].0
    ensures forall i :: 0 <= i < |ranked| ==>
      (i < n <==> ranked[0].1 > 0.0 && i < topK && ranked[i].1 >= ratio * ranked[0].1)
  {
    n := |SelectCited(ranked, topK, ratio)|;
    if ranked != [] && ranked[0].1 > 0.0 {
      CitedArePrefix(ranked, topK, ratio);
      WindowIs(ranked, Threshold(ranked[0].1, ratio));
      IdsAt(ranked);
    }
  }

  lemma {:induction false} IdsAt(ranked: seq<(string, real)>)
    ensures forall i :: 0 <= i < |ranked| ==> Ids(ranked)[i] == ranked[i].0
  {
    if ranked != [] {
      IdsAt(ranked[1..]);
    }
  }

  lemma WideningExtends(ranked: seq<(string, real)>, k: nat, k': nat, ratio: real, ratio': real)
    requires Sorted(ranked) && k <= k' && ratio' <= ratio
    ensures SelectCited(ranked, k, ratio) <= SelectCited(ranked, k', ratio')
  {
    if ranked != [] && ranked[0].1 > 0.0 {
      CitedArePrefix(ranked, k, ratio);
      CitedArePrefix(ranked, k', ratio');
      var top := ranked[0].1;
      ThresholdMono(top, ratio', ratio);
      var t, u := Threshold(top, ratio), Threshold(top, ratio');
      WindowGrows(ranked, t, u);
    }
  }

  lemma MoreCitationsKeepRecall(narrow: seq<string>, wide: seq<string>, expected: seq<string>)
    requires narrow <= wide && expected != []
    ensures Recall(narrow, expected).value <= Recall(wide, expected).value
  {
    var e := SetOf(expected);
    SetOfSize(expected);
    forall x | x in SetOf(narrow) ensures x in SetOf(wide) {
      var i :| 0 <= i < |narrow| && narrow[i] == x;
      assert wide[i] == x;
    }
    SubsetSize(e * SetOf(narrow), e * SetOf(wide));
    if narrow != [] {
      QuotientMono(Overlap(narrow, expected) as real, Overlap(wide, expected) as real, |e| as real);
    } else if wide != [] {
      QuotientMono(0.0, Overlap(wide, expected) as real, |e| as real);
    }
  }

  /** A lower ratio or a higher cap only adds citations at the end, and never lowers recall. */
  lemma WideningKeepsRecall(ranked: seq<(string, real)>, k: nat, k': nat, ratio: real, ratio': real,
      expected: seq<string>)
    requires Sorted(ranked) && expected != [] && k <= k' && ratio' <= ratio
    ensures SelectCited(ranked, k, ratio) <= SelectCited(ranked, k', ratio')
    ensures Recall(SelectCited(ranked, k, ratio), expected).value
         <= Recall(SelectCited(ranked, k', ratio'), expected).value
  {
    WideningExtends(ranked, k, k', ratio, ratio');
    MoreCitationsKeepRecall(SelectCited(ranked, k, ratio), SelectCited(ranked, k', ratio'), expected);
  }

  lemma QuotientMono(x: real, y: real, z: real)
    requires x <= y && z > 0.0
    ensures x / z <= y / z
    ensures x == 0.0 ==> x / z == 0.0
  {
    if x < y {
      QuotientIncreasing(x, y, z);
    }
  }
}
