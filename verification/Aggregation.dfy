/** Group-by and window sums over tables of keyed rows, for any commutative aggregate. */
module Aggregation {

  /** An aggregate such as SUM: how two partial results combine, and the empty one. */
  datatype Aggregate<!M> = Aggregate(zero: M, plus: (M, M) -> M)

  ghost predicate UnitLaw<M>(o: Aggregate<M>, a: M) {
    o.plus(a, o.zero) == a
  }

  ghost predicate CommutativeLaw<M>(o: Aggregate<M>, a: M, b: M) {
    o.plus(a, b) == o.plus(b, a)
  }

  ghost predicate AssociativeLaw<M>(o: Aggregate<M>, a: M, b: M, c: M) {
    o.plus(o.plus(a, b), c) == o.plus(a, o.plus(b, c))
  }

  /** Rows may be combined in any order and grouping. */
  ghost predicate Lawful<M(!new)>(o: Aggregate<M>) {
    (forall a :: UnitLaw(o, a)) && (forall a, b :: CommutativeLaw(o, a, b)) &&
      (forall a, b, c :: AssociativeLaw(o, a, b, c))
  }

  type Table<K, M> = seq<(K, M)>

  function Upsert<K(==), M>(o: Aggregate<M>, t: Table<K, M>, k: K, m: M): Table<K, M> {
    if t == [] then [(k, m)]
    else if t[0].0 == k then [(k, o.plus(t[0].1, m))] + t[1..]
    else [t[0]] + Upsert(o, t[1..], k, m)
  }

  /** `groupBy(key).agg(...)`: one row for each key, with the aggregate of the key's rows. */
  function GroupBy<K(==), M>(o: Aggregate<M>, rows: Table<K, M>): Table<K, M> {
    if rows == [] then []
    else Upsert(o, GroupBy(o, rows[..|rows| - 1]), rows[|rows| - 1].0, rows[|rows| - 1].1)
  }

  function If<M>(o: Aggregate<M>, c: bool, m: M): M {
    if c then m else o.zero
  }

  /** The aggregate of the rows whose key satisfies `p`. */
  function Total<K, M>(o: Aggregate<M>, rows: Table<K, M>, p: K -> bool): M {
    if rows == [] then o.zero else o.plus(If(o, p(rows[0].0), rows[0].1), Total(o, rows[1..], p))
  }

  function Rekey<K, L, M>(rows: Table<K, M>, f: K -> L): Table<L, M> {
    if rows == [] then [] else [(f(rows[0].0), rows[0].1)] + Rekey(rows[1..], f)
  }

  function Is<K(==)>(k: K): K -> bool {
    (x: K) => x == k
  }

  predicate HasKey<K(==), M>(rows: Table<K, M>, k: K) {
    exists i :: 0 <= i < |rows| && rows[i].0 == k
  }

  ghost predicate KeysDiffer<K(!new), M>(rows: Table<K, M>) {
    forall i, j :: 0 <= i < j < |rows| ==> rows[i].0 != rows[j].0
  }

  // ---- totals --------------------------------------------------------------------------

  lemma {:induction false} TotalConcat<K, M(!new)>(o: Aggregate<M>, a: Table<K, M>, b: Table<K, M>, p: K -> bool)
    requires Lawful(o)
    ensures Total(o, a + b, p) == o.plus(Total(o, a, p), Total(o, b, p))
  {
    if a == [] {
      assert a + b == b;
      assert CommutativeLaw(o, o.zero, Total(o, b, p)) && UnitLaw(o, Total(o, b, p));
    } else {
      assert (a + b)[1..] == a[1..] + b;
      TotalConcat(o, a[1..], b, p);
      assert AssociativeLaw(o, If(o, p(a[0].0), a[0].1), Total(o, a[1..], p), Total(o, b, p));
    }
  }

  lemma TotalOne<K, M(!new)>(o: Aggregate<M>, k: K, m: M, p: K -> bool)
    requires Lawful(o)
    ensures Total(o, [(k, m)], p) == If(o, p(k), m)
  {
    assert Total(o, [(k, m)], p) == o.plus(If(o, p(k), m), Total<K, M>(o, [], p));
    assert UnitLaw(o, If(o, p(k), m));
  }

  lemma {:induction false} UpsertTotal<K, M(!new)>(o: Aggregate<M>, t: Table<K, M>, k: K, m: M, p: K -> bool)
    requires Lawful(o)
    ensures Total(o, Upsert(o, t, k, m), p) == o.plus(Total(o, t, p), If(o, p(k), m))
  {
    if t == [] {
      TotalOne(o, k, m, p);
      assert CommutativeLaw(o, o.zero, If(o, p(k), m)) && UnitLaw(o, If(o, p(k), m));
    } else {
      var head, rest, add := If(o, p(t[0].0), t[0].1), Total(o, t[1..], p), If(o, p(k), m);
      if t[0].0 == k {
        assert Upsert(o, t, k, m)[1..] == t[1..];
        // (head + add) + rest == (head + rest) + add
        assert AssociativeLaw(o, head, add, rest) && CommutativeLaw(o, add, rest) && AssociativeLaw(o, head, rest, add);
        assert UnitLaw(o, o.zero);
      } else {
        UpsertTotal(o, t[1..], k, m, p);
        assert Upsert(o, t, k, m)[1..] == Upsert(o, t[1..], k, m);
        assert AssociativeLaw(o, head, rest, add);
      }
    }
  }

  /** Grouping keeps every total. */
  lemma {:induction false} GroupTotal<K, M(!new)>(o: Aggregate<M>, rows: Table<K, M>, p: K -> bool)
    requires Lawful(o)
    ensures Total(o, GroupBy(o, rows), p) == Total(o, rows, p)
  {
    if rows != [] {
      var init, last := rows[..|rows| - 1], rows[|rows| - 1];
      GroupTotal(o, init, p);
      UpsertTotal(o, GroupBy(o, init), last.0, last.1, p);
      assert rows == init + [(last.0, last.1)];
      TotalConcat(o, init, [(last.0, last.1)], p);
      TotalOne(o, last.0, last.1, p);
    }
  }

  lemma {:induction false} RekeyTotal<K, L, M>(o: Aggregate<M>, rows: Table<K, M>, f: K -> L, p: L -> bool,
      q: K -> bool)
    requires forall i :: 0 <= i < |rows| ==> q(rows[i].0) == p(f(rows[i].0))
    ensures Total(o, Rekey(rows, f), p) == Total(o, rows, q)
  {
    if rows != [] {
      assert forall i :: 0 <= i < |rows[1..]| ==> rows[1..][i] == rows[i + 1];
      RekeyTotal(o, rows[1..], f, p, q);
      assert Rekey(rows, f)[1..] == Rekey(rows[1..], f);
    }
  }

  /** Grouping by a coarser key and keeping the rows of some coarse keys keeps the total of
      the fine rows that belong to them. */
  lemma RollUpTotal<K, L, M(!new)>(o: Aggregate<M>, rows: Table<K, M>, f: K -> L, p: L -> bool, q: K -> bool)
    requires Lawful(o)
    requires forall i :: 0 <= i < |rows| ==> q(rows[i].0) == p(f(rows[i].0))
    ensures Total(o, GroupBy(o, Rekey(rows, f)), p) == Total(o, rows, q)
  {
    GroupTotal(o, Rekey(rows, f), p);
    RekeyTotal(o, rows, f, p, q);
  }

  // ---- rows ----------------------------------------------------------------------------

  lemma HasKeyHead<K(!new), M>(rows: Table<K, M>, x: K)
    requires rows != []
    ensures HasKey(rows, x) <==> x == rows[0].0 || HasKey(rows[1..], x)
  {
    var tail := rows[1..];
    if HasKey(tail, x) {
      var i :| 0 <= i < |tail| && tail[i].0 == x;
      assert rows[i + 1].0 == x;
    }
    if HasKey(rows, x) && x != rows[0].0 {
      var i :| 0 <= i < |rows| && rows[i].0 == x;
      assert tail[i - 1].0 == x;
    }
  }

  lemma {:induction false} UpsertHasKey<K(!new), M>(o: Aggregate<M>, t: Table<K, M>, k: K, m: M, x: K)
    ensures HasKey(Upsert(o, t, k, m), x) <==> x == k || HasKey(t, x)
  {
    var up := Upsert(o, t, k, m);
    HasKeyHead(up, x);
    if t == [] {
      assert up[1..] == [];
    } else {
      HasKeyHead(t, x);
      if t[0].0 == k {
        assert up[1..] == t[1..];
      } else {
        assert up[1..] == Upsert(o, t[1..], k, m);
        UpsertHasKey(o, t[1..], k, m, x);
      }
    }
  }

  lemma {:induction false} UpsertKeysDiffer<K(!new), M>(o: Aggregate<M>, t: Table<K, M>, k: K, m: M)
    requires KeysDiffer(t)
    ensures KeysDiffer(Upsert(o, t, k, m))
  {
    if t != [] && t[0].0 != k {
      var tail, rest := t[1..], Upsert(o, t[1..], k, m);
      assert KeysDiffer(tail);
      UpsertKeysDiffer(o, tail, k, m);
      forall i | 0 <= i < |rest| ensures rest[i].0 != t[0].0 {
        assert HasKey(rest, rest[i].0);
        UpsertHasKey(o, tail, k, m, rest[i].0);
        if HasKey(tail, rest[i].0) {
          var j :| 0 <= j < |tail| && tail[j].0 == rest[i].0;
          assert t[j + 1].0 == rest[i].0;
        }
      }
    }
  }

  lemma {:induction false} GroupKeys<K(!new), M>(o: Aggregate<M>, rows: Table<K, M>, x: K)
    ensures KeysDiffer(GroupBy(o, rows))
    ensures HasKey(GroupBy(o, rows), x) <==> HasKey(rows, x)
  {
    if rows != [] {
      var init, last := rows[..|rows| - 1], rows[|rows| - 1];
      GroupKeys(o, init, x);
      UpsertKeysDiffer(o, GroupBy(o, init), last.0, last.1);
      UpsertHasKey(o, GroupBy(o, init), last.0, last.1, x);
      if HasKey(init, x) {
        var i :| 0 <= i < |init| && init[i].0 == x;
        assert rows[i].0 == x;
      }
      if HasKey(rows, x) && x != last.0 {
        var i :| 0 <= i < |rows| && rows[i].0 == x;
        assert init[i].0 == x;
      }
      assert rows[|rows| - 1].0 == last.0;
    }
  }

  lemma {:induction false} TotalNone<K, M(!new)>(o: Aggregate<M>, rows: Table<K, M>, p: K -> bool)
    requires Lawful(o) && forall i :: 0 <= i < |rows| ==> !p(rows[i].0)
    ensures Total(o, rows, p) == o.zero
  {
    if rows != [] {
      assert forall i :: 0 <= i < |rows[1..]| ==> rows[1..][i] == rows[i + 1];
      TotalNone(o, rows[1..], p);
      assert UnitLaw(o, o.zero);
    }
  }

  lemma TotalAt<K(!new), M(!new)>(o: Aggregate<M>, rows: Table<K, M>, i: nat, p: K -> bool)
    requires Lawful(o) && i < |rows|
    requires forall j :: 0 <= j < |rows| ==> (p(rows[j].0) <==> j == i)
    ensures Total(o, rows, p) == rows[i].1
  {
    var a, b := rows[..i], rows[i + 1..];
    assert rows == a + ([(rows[i].0, rows[i].1)] + b);
    assert forall j :: 0 <= j < |b| ==> b[j] == rows[j + i + 1];
    TotalConcat(o, a, [(rows[i].0, rows[i].1)] + b, p);
    TotalConcat(o, [(rows[i].0, rows[i].1)], b, p);
    TotalNone(o, a, p);
    TotalNone(o, b, p);
    TotalOne(o, rows[i].0, rows[i].1, p);
    assert UnitLaw(o, rows[i].1) && CommutativeLaw(o, o.zero, rows[i].1);
  }

  /** The rows of a grouped table are exactly the keys that occur, each with its own total. */
  lemma GroupRowsAre<K(!new), M(!new)>(o: Aggregate<M>, rows: Table<K, M>, k: K, m: M)
    requires Lawful(o)
    ensures (k, m) in GroupBy(o, rows) <==> HasKey(rows, k) && m == Total(o, rows, Is(k))
  {
    var g, p := GroupBy(o, rows), Is(k);
    GroupKeys(o, rows, k);
    GroupTotal(o, rows, p);
    if HasKey(g, k) {
      var i :| 0 <= i < |g| && g[i].0 == k;
      assert forall j :: 0 <= j < |g| ==> (p(g[j].0) <==> j == i);
      TotalAt(o, g, i, p);
      assert g[i] == (k, Total(o, rows, p));
    }
    if (k, m) in g {
      var i :| 0 <= i < |g| && g[i] == (k, m);
      assert HasKey(g, k);
      assert forall j :: 0 <= j < |g| ==> (p(g[j].0) <==> j == i);
      TotalAt(o, g, i, p);
    }
  }

  lemma FindFirst<T(!new)>(a: seq<T>, b: seq<T>) returns (i: nat)
    requires multiset(a) == multiset(b) && a != []
    ensures i < |b| && b[i] == a[0]
    ensures multiset(a[1..]) == multiset(b[..i] + b[i + 1..])
  {
    var x := a[0];
    WithoutFirst(a);
    i := IndexOf(b, x);
    WithoutElement(b, i);
  }

  lemma IndexOf<T(!new)>(s: seq<T>, x: T) returns (i: nat)
    requires x in multiset(s)
    ensures i < |s| && s[i] == x
  {
    i :| 0 <= i < |s| && s[i] == x;
  }

  lemma WithoutFirst<T>(s: seq<T>)
    requires s != []
    ensures s[0] in multiset(s) && multiset(s[1..]) == multiset(s) - multiset{s[0]}
  {
    assert s == [s[0]] + s[1..];
  }

  lemma WithoutElement<T>(s: seq<T>, i: nat)
    requires i < |s|
    ensures multiset(s[..i] + s[i + 1..]) == multiset(s) - multiset{s[i]}
  {
    assert s == s[..i] + ([s[i]] + s[i + 1..]);
  }

  /** The order in which rows arrive, or are shuffled, is immaterial. */
  lemma {:induction false} TotalPermutation<K(!new), M(!new)>(o: Aggregate<M>, a: Table<K, M>, b: Table<K, M>,
      p: K -> bool)
    requires Lawful(o) && multiset(a) == multiset(b)
    ensures Total(o, a, p) == Total(o, b, p)
  {
    if a == [] {
      assert |multiset(b)| == 0;
    } else {
      var i := FindFirst(a, b);
      TotalPermutation(o, a[1..], b[..i] + b[i + 1..], p);
      TotalMiddle(o, b[..i], a[0].0, a[0].1, b[i + 1..], p);
      assert b == b[..i] + ([(a[0].0, a[0].1)] + b[i + 1..]);
    }
  }

  /** A row may be taken out of the middle of a table. */
  lemma TotalMiddle<K, M(!new)>(o: Aggregate<M>, front: Table<K, M>, k: K, m: M, back: Table<K, M>, p: K -> bool)
    requires Lawful(o)
    ensures Total(o, front + ([(k, m)] + back), p) == o.plus(If(o, p(k), m), Total(o, front + back, p))
  {
    TotalConcat(o, front, back, p);
    TotalConcat(o, front, [(k, m)] + back, p);
    TotalConcat(o, [(k, m)], back, p);
    TotalOne(o, k, m, p);
    var h, f, r := If(o, p(k), m), Total(o, front, p), Total(o, back, p);
    // f + (h + r) == h + (f + r)
    assert AssociativeLaw(o, h, f, r) && CommutativeLaw(o, h, f) && AssociativeLaw(o, f, h, r);
  }

  lemma SameKeys<K(!new), M(!new)>(a: Table<K, M>, b: Table<K, M>, k: K)
    requires multiset(a) == multiset(b) && HasKey(a, k)
    ensures HasKey(b, k)
  {
    var i :| 0 <= i < |a| && a[i].0 == k;
    assert a[i] in multiset(b);
  }

  /** Hence so are the rows of a grouped table. */
  lemma GroupOrderIrrelevant<K(!new), M(!new)>(o: Aggregate<M>, a: Table<K, M>, b: Table<K, M>, k: K, m: M)
    requires Lawful(o) && multiset(a) == multiset(b)
    ensures (k, m) in GroupBy(o, a) <==> (k, m) in GroupBy(o, b)
  {
    GroupRowsAre(o, a, k, m);
    GroupRowsAre(o, b, k, m);
    TotalPermutation(o, a, b, Is(k));
    if HasKey(a, k) {
      SameKeys(a, b, k);
    }
    if HasKey(b, k) {
      SameKeys(b, a, k);
    }
  }

  lemma {:induction false} RekeyKeys<K(!new), L(!new), M>(rows: Table<K, M>, f: K -> L, y: L)
    ensures HasKey(Rekey(rows, f), y) <==> exists i :: 0 <= i < |rows| && f(rows[i].0) == y
  {
    if rows != [] {
      var tail, re := rows[1..], Rekey(rows, f);
      RekeyKeys(tail, f, y);
      HasKeyHead(re, y);
      assert re[1..] == Rekey(tail, f);
      if exists i :: 0 <= i < |tail| && f(tail[i].0) == y {
        var i :| 0 <= i < |tail| && f(tail[i].0) == y;
        assert f(rows[i + 1].0) == y;
      }
      if exists i :: 0 <= i < |rows| && f(rows[i].0) == y && i > 0 {
        var i :| 0 <= i < |rows| && f(rows[i].0) == y && i > 0;
        assert f(tail[i - 1].0) == y;
      }
    }
  }

  function Onto<K, L(==)>(f: K -> L, k: L): K -> bool {
    (x: K) => f(x) == k
  }

  /** Grouping the rows of a grouped table once more by a coarser key gives the keys that occur,
      each with the total of the fine rows that belong to it. */
  lemma RegroupRowsAre<K(!new), L(!new), M(!new)>(o: Aggregate<M>, rows: Table<K, M>, f: K -> L, k: L, m: M)
    requires Lawful(o)
    ensures (k, m) in GroupBy(o, Rekey(GroupBy(o, rows), f)) <==>
      (exists i :: 0 <= i < |rows| && f(rows[i].0) == k) && m == Total(o, rows, Onto(f, k))
  {
    var g := GroupBy(o, rows);
    GroupRowsAre(o, Rekey(g, f), k, m);
    RekeyTotal(o, g, f, Is(k), Onto(f, k));
    GroupTotal(o, rows, Onto(f, k));
    RekeyKeys(g, f, k);
    if exists i :: 0 <= i < |g| && f(g[i].0) == k {
      var i :| 0 <= i < |g| && f(g[i].0) == k;
      GroupKeys(o, rows, g[i].0);
      var j :| 0 <= j < |rows| && rows[j].0 == g[i].0;
      assert f(rows[j].0) == k;
    }
    if exists i :: 0 <= i < |rows| && f(rows[i].0) == k {
      var i :| 0 <= i < |rows| && f(rows[i].0) == k;
      GroupKeys(o, rows, rows[i].0);
      var j :| 0 <= j < |g| && g[j].0 == rows[i].0;
      assert f(g[j].0) == k;
    }
  }
}
