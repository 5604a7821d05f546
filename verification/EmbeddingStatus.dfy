/** What the embedding batches report while they run: the percentages, and which steps write
    them. */
module EmbeddingStatus {
  import opened Embedding
  import TS = TaskStatus

  /** 40 percent and the embedded share of 45 more, rounded down: 85 exactly at the end. */
  lemma PercentIs(done: nat, total: nat)
    requires done <= total && total > 0
    ensures (Percent(done, total) - 40) * total <= 45 * done < (Percent(done, total) - 39) * total
    ensures 40 <= Percent(done, total) <= 85
    ensures Percent(done, total) == 85 <==> done == total
  {
    var q := done * 45 / total;
    assert done * 45 == q * total + done * 45 % total;
    assert (q + 1) * total == q * total + total;
    Multiples(q, -1, total);
    Multiples(46, q, total);
    Multiples(45, q, total);
    Multiples(q, 44, total);
  }

  lemma Multiples(a: int, b: int, n: nat)
    ensures a <= b ==> a * n <= b * n
  {
    assert a <= b ==> (b - a) * n >= 0;
  }

  /** The share of `done` chunks out of `total`, on the scale from 40 to 85. */
  predicate IsShare(progress: int, done: nat, total: nat) {
    (progress - 40) * total <= 45 * done < (progress - 39) * total
  }

  /** What the finished batch writes: nothing, unless the finished chunks are now a multiple of
      five or all of them; then PROCESSING with the share, but never less than before. */
  predicate Records(before: TS.Entry, e: TS.Entry, done: nat, total: nat) {
    if done % 5 == 0 || done == total then
      e.status == TS.PROCESSING && before.progress <= e.progress &&
      (e.progress > before.progress ==> IsShare(e.progress, done, total)) && (done == total ==> e.progress >= 85)
    else e == before
  }

  lemma ReturnRecords(c: Config, entry: TS.Entry, acts: seq<Action>, k: nat, vectors: seq<Vector>)
    requires Exec(c, entry, acts).Some? && Enabled(c, Exec(c, entry, acts).value, Return(k, vectors))
    requires |vectors| == |c.batches[k]| && Total(c) > 0
    ensures var s := Exec(c, entry, acts).value; var s' := Apply(c, s, Return(k, vectors));
      s'.done == s.done + |c.batches[k]| <= Total(c) && Records(s.entry, s'.entry, s'.done, Total(c))
  {
    var s := Exec(c, entry, acts).value;
    InvReachable(c, entry, acts);
    DoneAtMostTotal(c, s, k, vectors);
    ShareIsRecorded(s, s.done + |c.batches[k]|, Total(c));
  }

  lemma ShareIsRecorded(s: State, done: nat, total: nat)
    requires done <= total && total > 0
    ensures Records(s.entry,
                    if done % 5 == 0 || done == total
                    then Write(s, TS.PROCESSING, Percent(done, total)).entry else s.entry, done, total)
  {
    PercentIs(done, total);
    WriteIs(s, TS.PROCESSING, Percent(done, total));
  }

  lemma WriteIs(s: State, status: TS.Status, progress: int)
    requires progress <= 95
    ensures var e := Write(s, status, progress).entry;
      e.status == status &&
      (status == TS.PROCESSING ==> e.progress == if s.entry.progress < progress then progress else s.entry.progress)
  {
  }

  lemma DoneAtMostTotal(c: Config, s: State, k: nat, vectors: seq<Vector>)
    requires Inv(c, s) && Enabled(c, s, Return(k, vectors)) && |vectors| == |c.batches[k]|
    ensures Apply(c, s, Return(k, vectors)).done == s.done + |c.batches[k]| <= Total(c)
  {
    InvKept(c, s, Return(k, vectors));
    StoredAtMostTotal(Apply(c, s, Return(k, vectors)).batches, c.batches);
  }

  /** A wrong number of vectors fails the batch like an exception, and the outcome is recorded:
      FAILED at 100 by the handler, at least 90 once the vectors are collected. */
  lemma OutcomeRecords(c: Config, s: State, a: Action)
    requires |s.batches| == |c.batches| && Enabled(c, s, a)
    ensures a.Return? && |a.vectors| != |c.batches[a.k]| ==>
      Apply(c, s, a) == Apply(c, s, Throw(a.k)) && Apply(c, s, a).batches[a.k] == Raised
    ensures a == Fail ==> Apply(c, s, a).entry.status == TS.FAILED && Apply(c, s, a).entry.progress == 100
    ensures a == Collect ==>
      Apply(c, s, a).entry.status == TS.PROCESSING &&
      Apply(c, s, a).entry.progress == if s.entry.progress < 90 then 90 else s.entry.progress
  {
  }
}
