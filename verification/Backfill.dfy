/** The tenant backfill of bigdata/spark-jobs/dwd_transform.py and the quality rules R2 and R5
    of quality_check.py that judge its result. */
module Backfill {
  import opened Common

  /** A model_usage_record row; `payload` stands for the columns that are passed through. */
  datatype Usage = Usage(tenant: Option<int>, agentTask: Option<int>, payload: int)

  datatype AgentRun = AgentRun(id: int, tenant: Option<int>)
  datatype AgentTask = AgentTask(id: int, user: Option<int>)
  datatype SysUser = SysUser(id: int, tenant: Option<int>)

  /** A row of the task-to-tenant map. */
  datatype TaskTenant = TaskTenant(id: int, tenant: Option<int>)

  datatype Sources = Sources(runs: seq<AgentRun>, tasks: seq<AgentTask>, users: seq<SysUser>)

  // ---- left joins ----------------------------------------------------------------------

  /** The right rows that join with `l`. */
  function Matching<L, R>(on: (L, R) -> bool, l: L): R -> bool {
    (x: R) => on(l, x)
  }

  /** The output rows of one left row: its matches, or one row of nulls. */
  function JoinRow<L, R>(l: L, rs: seq<R>, on: (L, R) -> bool): (r: seq<(L, Option<R>)>)
    ensures |r| >= 1
  {
    var found := Filter(rs, Matching(on, l));
    if found == [] then [(l, None)]
    else seq(|found|, i requires 0 <= i < |found| => (l, Some(found[i])))
  }

  function LeftJoin<L, R>(ls: seq<L>, rs: seq<R>, on: (L, R) -> bool): seq<(L, Option<R>)> {
    if ls == [] then [] else JoinRow(ls[0], rs, on) + LeftJoin(ls[1..], rs, on)
  }

  function Value<R>(o: Option<R>, f: R -> Option<int>): Option<int> {
    if o.Some? then f(o.value) else None
  }

  function UserTenant(u: SysUser): Option<int> { u.tenant }

  function RunTenant(r: AgentRun): Option<int> { r.tenant }

  function MapTenant(t: TaskTenant): Option<int> { t.tenant }

  function Coalesce(a: Option<int>, b: Option<int>): Option<int> {
    if a.Some? then a else b
  }

  // ---- the transform -------------------------------------------------------------------

  predicate OwnedBy(t: AgentTask, u: SysUser) {
    t.user == Some(u.id)
  }

  /** task_tenant: every task with its user's tenant. */
  function TaskTenants(s: Sources): seq<TaskTenant> {
    Pick(LeftJoin(s.tasks, s.users, OwnedBy))
  }

  function Pick(rows: seq<(AgentTask, Option<SysUser>)>): (r: seq<TaskTenant>)
    ensures |r| == |rows|
  {
    if rows == [] then []
    else [TaskTenant(rows[0].0.id, Value(rows[0].1, UserTenant))] + Pick(rows[1..])
  }

  predicate OfRun(m: Usage, r: AgentRun) {
    m.agentTask == Some(r.id)
  }

  predicate OfTask(m: (Usage, Option<AgentRun>), t: TaskTenant) {
    m.0.agentTask == Some(t.id)
  }

  type Joined = ((Usage, Option<AgentRun>), Option<TaskTenant>)

  function JoinAll(s: Sources, usage: seq<Usage>): seq<Joined> {
    LeftJoin(LeftJoin(usage, s.runs, OfRun), TaskTenants(s), OfTask)
  }

  /** The row's own tenant, else its run's, else its user's. */
  function Resolve(j: Joined): Option<int> {
    Coalesce(j.0.0.tenant, Coalesce(Value(j.0.1, RunTenant), Value(j.1, MapTenant)))
  }

  /** A dwd_llm_call row. */
  datatype Row = Row(tenant: Option<int>, usage: Usage)

  function Resolved(js: seq<Joined>): seq<Row> {
    if js == [] then []
    else (if Resolve(js[0]).Some? then [Row(Resolve(js[0]), js[0].0.0)] else []) + Resolved(js[1..])
  }

  /** `_backfill_tenant_for_calls`. */
  function BackfillTenants(s: Sources, usage: seq<Usage>): seq<Row> {
    Resolved(JoinAll(s, usage))
  }

  // ---- with unique ids -----------------------------------------------------------------

  ghost predicate RunIdsDiffer(runs: seq<AgentRun>) {
    forall i, j :: 0 <= i < j < |runs| ==> runs[i].id != runs[j].id
  }

  ghost predicate TaskIdsDiffer(tts: seq<TaskTenant>) {
    forall i, j :: 0 <= i < j < |tts| ==> tts[i].id != tts[j].id
  }

  /** No run id and no id of the task map occurs twice. */
  ghost predicate JoinsUnique(s: Sources) {
    RunIdsDiffer(s.runs) && TaskIdsDiffer(TaskTenants(s))
  }

  /** Run, task and user ids are unique, as primary keys are. */
  ghost predicate UniqueIds(s: Sources) {
    RunIdsDiffer(s.runs) &&
    (forall i, j :: 0 <= i < j < |s.tasks| ==> s.tasks[i].id != s.tasks[j].id) &&
    (forall i, j :: 0 <= i < j < |s.users| ==> s.users[i].id != s.users[j].id)
  }

  /** At most one right row matches. */
  ghost predicate AtMostOne<L, R>(l: L, rs: seq<R>, on: (L, R) -> bool) {
    forall i, j :: 0 <= i < j < |rs| ==> !(on(l, rs[i]) && on(l, rs[j]))
  }

  lemma {:induction false} FilterSize<R>(rs: seq<R>, p: R -> bool)
    ensures |Filter(rs, p)| == 0 <==> forall i :: 0 <= i < |rs| ==> !p(rs[i])
    ensures |Filter(rs, p)| <= 1 <==> forall i, j :: 0 <= i < j < |rs| ==> !(p(rs[i]) && p(rs[j]))
  {
    if rs != [] {
      var tail := rs[1..];
      FilterSize(tail, p);
      assert forall i :: 0 <= i < |tail| ==> tail[i] == rs[i + 1];
      assert forall i :: 1 <= i < |rs| ==> rs[i] == tail[i - 1];
    }
  }

  lemma JoinRowSize<L, R>(l: L, rs: seq<R>, on: (L, R) -> bool)
    ensures |JoinRow(l, rs, on)| == 1 <==> AtMostOne(l, rs, on)
  {
    FilterSize(rs, Matching(on, l));
  }

  /** A left join never loses a left row, and repeats none exactly when no left row has two
      matches. */
  lemma {:induction false} JoinKeepsRowsIff<L, R>(ls: seq<L>, rs: seq<R>, on: (L, R) -> bool)
    ensures |LeftJoin(ls, rs, on)| >= |ls|
    ensures |LeftJoin(ls, rs, on)| == |ls| <==> forall i :: 0 <= i < |ls| ==> AtMostOne(ls[i], rs, on)
  {
    if ls != [] {
      var tail := ls[1..];
      JoinKeepsRowsIff(tail, rs, on);
      JoinRowSize(ls[0], rs, on);
      if AtMostOne(ls[0], rs, on) && forall i :: 0 <= i < |tail| ==> AtMostOne(tail[i], rs, on) {
        assert forall i :: 1 <= i < |ls| ==> ls[i] == tail[i - 1];
      }
      if forall i :: 0 <= i < |ls| ==> AtMostOne(ls[i], rs, on) {
        assert forall i :: 0 <= i < |tail| ==> tail[i] == ls[i + 1];
      }
    }
  }

  /** The value that a lookup by unique key finds. */
  function Lookup<R>(rs: seq<R>, p: R -> bool): Option<R> {
    if rs == [] then None else if p(rs[0]) then Some(rs[0]) else Lookup(rs[1..], p)
  }

  lemma {:induction false} LookupIsFirst<R>(rs: seq<R>, p: R -> bool)
    ensures Lookup(rs, p) == if Filter(rs, p) == [] then None else Some(Filter(rs, p)[0])
  {
    if rs != [] {
      LookupIsFirst(rs[1..], p);
    }
  }

  predicate TaskIs(m: Usage, t: AgentTask) {
    m.agentTask == Some(t.id)
  }

  /** The tenant a usage row belongs to, by looking ids up. */
  function TenantOf(s: Sources, m: Usage): Option<int> {
    Coalesce(m.tenant, Coalesce(Value(Lookup(s.runs, Matching(OfRun, m)), RunTenant), TaskTenantOf(s, m)))
  }

  function UserTenantOf(s: Sources, t: AgentTask): Option<int> {
    Value(Lookup(s.users, Matching(OwnedBy, t)), UserTenant)
  }

  function TaskTenantOf(s: Sources, m: Usage): Option<int> {
    match Lookup(s.tasks, Matching(TaskIs, m))
    case None => None
    case Some(t) => UserTenantOf(s, t)
  }

  /** The expected result: the source rows with a tenant, in order. */
  function Expected(s: Sources, usage: seq<Usage>): seq<Row> {
    if usage == [] then []
    else (if TenantOf(s, usage[0]).Some? then [Row(TenantOf(s, usage[0]), usage[0])] else []) + Expected(s, usage[1..])
  }

  lemma {:induction false} PickAt(rows: seq<(AgentTask, Option<SysUser>)>)
    ensures forall i :: 0 <= i < |rows| ==> Pick(rows)[i] == TaskTenant(rows[i].0.id, Value(rows[i].1, UserTenant))
  {
    if rows != [] {
      PickAt(rows[1..]);
    }
  }

  lemma JoinRowIsLookup<L, R>(l: L, rs: seq<R>, on: (L, R) -> bool)
    ensures JoinRow(l, rs, on)[0] == (l, Lookup(rs, Matching(on, l)))
  {
    LookupIsFirst(rs, Matching(on, l));
  }

  lemma HeadAppearsOnce<L, R>(ls: seq<L>, rs: seq<R>, on: (L, R) -> bool)
    requires |LeftJoin(ls, rs, on)| == |ls| && ls != []
    ensures LeftJoin(ls, rs, on) == [JoinRow(ls[0], rs, on)[0]] + LeftJoin(ls[1..], rs, on)
  {
    JoinKeepsRowsIff(ls[1..], rs, on);
  }

  /** A join that repeats nothing looks its rows up, each in its place. */
  lemma {:induction false} JoinedAt<L, R>(ls: seq<L>, rs: seq<R>, on: (L, R) -> bool, i: nat)
    requires |LeftJoin(ls, rs, on)| == |ls| && i < |ls|
    ensures LeftJoin(ls, rs, on)[i] == (ls[i], Lookup(rs, Matching(on, ls[i])))
  {
    HeadAppearsOnce(ls, rs, on);
    if i == 0 {
      JoinRowIsLookup(ls[0], rs, on);
    } else {
      JoinedAt(ls[1..], rs, on, i - 1);
    }
  }

  /** A task map of one row a task holds, in their order, the tasks' users' tenants. */
  lemma TaskMapIs(s: Sources)
    requires |TaskTenants(s)| == |s.tasks|
    ensures forall i :: 0 <= i < |s.tasks| ==>
      TaskTenants(s)[i] == TaskTenant(s.tasks[i].id, UserTenantOf(s, s.tasks[i]))
  {
    var rows := LeftJoin(s.tasks, s.users, OwnedBy);
    PickAt(rows);
    forall i | 0 <= i < |s.tasks| ensures rows[i] == (s.tasks[i], Lookup(s.users, Matching(OwnedBy, s.tasks[i]))) {
      JoinedAt(s.tasks, s.users, OwnedBy, i);
    }
  }

  /** A task that has two users would be in the map twice. */
  lemma TwoMatchesRepeatId(tasks: seq<AgentTask>, users: seq<SysUser>)
    requires tasks != [] && |JoinRow(tasks[0], users, OwnedBy)| > 1
    ensures !TaskIdsDiffer(Pick(LeftJoin(tasks, users, OwnedBy)))
  {
    var row, all := JoinRow(tasks[0], users, OwnedBy), LeftJoin(tasks, users, OwnedBy);
    PickAt(all);
    assert all[0] == row[0] && all[1] == row[1];
    assert Pick(all)[0].id == Pick(all)[1].id == tasks[0].id;
  }

  lemma {:induction false} DifferingIdsMatchOnce(tasks: seq<AgentTask>, users: seq<SysUser>)
    requires TaskIdsDiffer(Pick(LeftJoin(tasks, users, OwnedBy)))
    ensures |LeftJoin(tasks, users, OwnedBy)| == |tasks|
  {
    if tasks != [] {
      var row, rest := JoinRow(tasks[0], users, OwnedBy), LeftJoin(tasks[1..], users, OwnedBy);
      if |row| > 1 {
        TwoMatchesRepeatId(tasks, users);
      }
      PickConcat(row, rest);
      assert Pick(rest) == Pick(row + rest)[1..];
      DifferingIdsMatchOnce(tasks[1..], users);
    }
  }

  lemma {:induction false} PickConcat(a: seq<(AgentTask, Option<SysUser>)>, b: seq<(AgentTask, Option<SysUser>)>)
    ensures Pick(a + b) == Pick(a) + Pick(b)
  {
    if a == [] {
      assert a + b == b;
    } else {
      assert (a + b)[0] == a[0] && (a + b)[1..] == a[1..] + b;
      PickConcat(a[1..], b);
    }
  }

  /** Unique ids make the joins unique. */
  lemma UniqueIdsSuffice(s: Sources)
    requires UniqueIds(s)
    ensures JoinsUnique(s)
  {
    JoinKeepsRowsIff(s.tasks, s.users, OwnedBy);
    TaskMapIs(s);
  }

  /** Looking a task up in the map is looking it up among the tasks. */
  lemma {:induction false} MapLookup(s: Sources, tasks: seq<AgentTask>, tts: seq<TaskTenant>,
      j: (Usage, Option<AgentRun>))
    requires |tts| == |tasks|
    requires forall i :: 0 <= i < |tasks| ==> tts[i] == TaskTenant(tasks[i].id, UserTenantOf(s, tasks[i]))
    ensures Value(Lookup(tts, Matching(OfTask, j)), MapTenant)
         == match Lookup(tasks, Matching(TaskIs, j.0)) case None => None case Some(t) => UserTenantOf(s, t)
  {
    if tasks != [] {
      assert OfTask(j, tts[0]) == TaskIs(j.0, tasks[0]);
      MapLookup(s, tasks[1..], tts[1..], j);
    }
  }

  lemma {:induction false} ResolvedIs(s: Sources, usage: seq<Usage>, js: seq<Joined>)
    requires |js| == |usage|
    requires forall i :: 0 <= i < |usage| ==> js[i].0.0 == usage[i] && Resolve(js[i]) == TenantOf(s, usage[i])
    ensures Resolved(js) == Expected(s, usage)
  {
    if usage != [] {
      ResolvedIs(s, usage[1..], js[1..]);
    }
  }

  /** With unique ids the joins neither repeat nor lose a row: the output is exactly the source
      rows with a tenant, in their order. */
  lemma BackfillIsExact(s: Sources, usage: seq<Usage>)
    requires JoinsUnique(s)
    ensures |JoinAll(s, usage)| == |usage|
    ensures BackfillTenants(s, usage) == Expected(s, usage)
  {
    DifferingIdsMatchOnce(s.tasks, s.users);
    TaskMapIs(s);
    var tts, first := TaskTenants(s), LeftJoin(usage, s.runs, OfRun);
    JoinKeepsRowsIff(usage, s.runs, OfRun);
    JoinKeepsRowsIff(first, tts, OfTask);
    var js := JoinAll(s, usage);
    forall i | 0 <= i < |usage|
      ensures js[i].0.0 == usage[i] && Resolve(js[i]) == TenantOf(s, usage[i])
    {
      JoinedAt(usage, s.runs, OfRun, i);
      JoinedAt(first, tts, OfTask, i);
      MapLookup(s, s.tasks, tts, first[i]);
    }
    ResolvedIs(s, usage, js);
  }

  lemma {:induction false} LookupFinds<R>(rs: seq<R>, p: R -> bool)
    ensures Lookup(rs, p) == None <==> forall r :: r in rs ==> !p(r)
    ensures Lookup(rs, p).Some? ==> Lookup(rs, p).value in rs && p(Lookup(rs, p).value)
  {
    if rs != [] {
      assert rs == [rs[0]] + rs[1..];
      LookupFinds(rs[1..], p);
    }
  }

  /** The record names the task, and the task names the user. */
  predicate Owns(m: Usage, t: AgentTask, u: SysUser) {
    m.agentTask == Some(t.id) && t.user == Some(u.id)
  }

  /** Whose call it is: the tenant on the record; without one, that of the run the record names;
      without either, that of the user of the task it names. */
  ghost predicate Belongs(s: Sources, m: Usage, x: int) {
    if m.tenant.Some? then m.tenant.value == x
    else if exists r :: r in s.runs && m.agentTask == Some(r.id) && r.tenant.Some?
    then exists r :: r in s.runs && m.agentTask == Some(r.id) && r.tenant == Some(x)
    else exists t, u :: t in s.tasks && u in s.users && Owns(m, t, u) && u.tenant == Some(x)
  }

  lemma RunTenantIs(s: Sources, m: Usage, r: AgentRun)
    requires UniqueIds(s) && r in s.runs && m.agentTask == Some(r.id)
    ensures Value(Lookup(s.runs, Matching(OfRun, m)), RunTenant) == r.tenant
  {
    var p := Matching(OfRun, m);
    LookupFinds(s.runs, p);
    assert OfRun(m, r) && p(r);
    var found := Lookup(s.runs, p).value;
    assert OfRun(m, found);
    var i :| 0 <= i < |s.runs| && s.runs[i] == r;
    var j :| 0 <= j < |s.runs| && s.runs[j] == found;
    assert i == j;
  }

  lemma NoRunNoTenant(s: Sources, m: Usage)
    ensures Value(Lookup(s.runs, Matching(OfRun, m)), RunTenant).Some? ==>
      exists r :: r in s.runs && m.agentTask == Some(r.id) && r.tenant.Some?
  {
    var p := Matching(OfRun, m);
    LookupFinds(s.runs, p);
    if Lookup(s.runs, p).Some? {
      assert OfRun(m, Lookup(s.runs, p).value);
    }
  }

  lemma UserTenantIs(s: Sources, m: Usage, t: AgentTask, u: SysUser)
    requires UniqueIds(s) && t in s.tasks && u in s.users && Owns(m, t, u)
    ensures TaskTenantOf(s, m) == u.tenant
  {
    var p, q := Matching(TaskIs, m), Matching(OwnedBy, t);
    LookupFinds(s.tasks, p);
    LookupFinds(s.users, q);
    assert TaskIs(m, t) && p(t) && OwnedBy(t, u) && q(u);
    var task, user := Lookup(s.tasks, p).value, Lookup(s.users, q).value;
    assert TaskIs(m, task) && OwnedBy(t, user);
    var i, j :| 0 <= i < |s.tasks| && s.tasks[i] == t && 0 <= j < |s.tasks| && s.tasks[j] == task;
    assert i == j;
    var k, l :| 0 <= k < |s.users| && s.users[k] == u && 0 <= l < |s.users| && s.users[l] == user;
    assert k == l;
  }

  lemma NoUserNoTenant(s: Sources, m: Usage)
    ensures TaskTenantOf(s, m).Some? ==>
      exists t, u :: t in s.tasks && u in s.users && Owns(m, t, u) && u.tenant == TaskTenantOf(s, m)
  {
    var p := Matching(TaskIs, m);
    LookupFinds(s.tasks, p);
    if TaskTenantOf(s, m).Some? {
      var t := Lookup(s.tasks, p).value;
      var q := Matching(OwnedBy, t);
      LookupFinds(s.users, q);
      var u := Lookup(s.users, q).value;
      assert TaskIs(m, t) && OwnedBy(t, u);
      assert Owns(m, t, u);
    }
  }

  lemma TenantIs(s: Sources, m: Usage, x: int)
    requires UniqueIds(s)
    ensures TenantOf(s, m) == Some(x) <==> Belongs(s, m, x)
  {
    forall r | r in s.runs && m.agentTask == Some(r.id)
      ensures Value(Lookup(s.runs, Matching(OfRun, m)), RunTenant) == r.tenant
    {
      RunTenantIs(s, m, r);
    }
    NoRunNoTenant(s, m);
    forall t, u | t in s.tasks && u in s.users && Owns(m, t, u) ensures TaskTenantOf(s, m) == u.tenant {
      UserTenantIs(s, m, t, u);
    }
    NoUserNoTenant(s, m);
  }

  lemma {:induction false} ExpectedRows(s: Sources, usage: seq<Usage>, m: Usage, x: int)
    ensures Row(Some(x), m) in Expected(s, usage) <==> m in usage && TenantOf(s, m) == Some(x)
  {
    if usage != [] {
      assert usage == [usage[0]] + usage[1..];
      ExpectedRows(s, usage[1..], m, x);
    }
  }

  /** With unique ids, a call is in the output under the tenant that it belongs to, and under
      no other. */
  lemma OutputRowsAre(s: Sources, usage: seq<Usage>, m: Usage, x: int)
    requires UniqueIds(s)
    ensures Row(Some(x), m) in BackfillTenants(s, usage) <==> m in usage && Belongs(s, m, x)
  {
    UniqueIdsSuffice(s);
    BackfillIsExact(s, usage);
    ExpectedRows(s, usage, m, x);
    TenantIs(s, m, x);
  }

  // ---- the quality rules ---------------------------------------------------------------

  function NullTenants(rows: seq<Row>): nat {
    if rows == [] then 0 else (if rows[0].tenant == None then 1 else 0) + NullTenants(rows[1..])
  }

  /** R2 always finds a null rate of 0, whatever the sources. */
  lemma {:induction false} NoNullTenants(js: seq<Joined>)
    ensures NullTenants(Resolved(js)) == 0
  {
    if js != [] {
      NoNullTenants(js[1..]);
      if Resolve(js[0]).Some? {
        assert Resolved(js)[1..] == Resolved(js[1..]);
      } else {
        assert Resolved(js) == Resolved(js[1..]);
      }
    }
  }

  lemma RuleR2Passes(s: Sources, usage: seq<Usage>)
    ensures NullTenants(BackfillTenants(s, usage)) == 0
  {
    NoNullTenants(JoinAll(s, usage));
  }

  /** R5's drift ratio between source and output rows. */
  function DriftRatio(ods: nat, dwd: nat): real {
    if ods == 0 then 0.0 else (ods - dwd) as real / ods as real
  }

  function Unresolved(s: Sources, usage: seq<Usage>): (n: nat)
    ensures n <= |usage|
  {
    if usage == [] then 0 else (if TenantOf(s, usage[0]) == None then 1 else 0) + Unresolved(s, usage[1..])
  }

  lemma {:induction false} ExpectedSize(s: Sources, usage: seq<Usage>)
    ensures |Expected(s, usage)| + Unresolved(s, usage) == |usage|
  {
    if usage != [] {
      ExpectedSize(s, usage[1..]);
    }
  }

  lemma DriftInUnit(n: nat, lost: nat)
    requires lost <= n
    ensures 0.0 <= DriftRatio(n, n - lost) <= 1.0
  {
    if n > 0 {
      QuotientInUnit(lost as real, n as real);
    }
  }

  /** With unique ids, R5 measures exactly the fraction of rows without a tenant, which lies
      between 0 and 1. */
  lemma RuleR5Measures(s: Sources, usage: seq<Usage>)
    requires JoinsUnique(s)
    ensures DriftRatio(|usage|, |BackfillTenants(s, usage)|) == DriftRatio(|usage|, |usage| - Unresolved(s, usage))
    ensures 0.0 <= DriftRatio(|usage|, |BackfillTenants(s, usage)|) <= 1.0
  {
    BackfillIsExact(s, usage);
    ExpectedSize(s, usage);
    assert |BackfillTenants(s, usage)| == |usage| - Unresolved(s, usage);
    DriftInUnit(|usage|, Unresolved(s, usage));
  }

  // ---- without unique ids --------------------------------------------------------------

  lemma {:induction false} LeftPart<L, R>(ls: seq<L>, rs: seq<R>, on: (L, R) -> bool)
    ensures forall r :: r in LeftJoin(ls, rs, on) ==> r.0 in ls
  {
    if ls != [] {
      LeftPart(ls[1..], rs, on);
    }
  }

  lemma {:induction false} OwnTenantsKept(js: seq<Joined>)
    requires forall j :: j in js ==> j.0.0.tenant.Some?
    ensures |Resolved(js)| == |js|
  {
    if js != [] {
      OwnTenantsKept(js[1..]);
    }
  }

  /** A single call with a tenant of its own is in the output once for each joined row. */
  lemma OwnTenantCopies(s: Sources, u: Usage)
    requires u.tenant.Some?
    ensures |BackfillTenants(s, [u])| == |JoinAll(s, [u])| && Unresolved(s, [u]) == 0
  {
    LeftPart([u], s.runs, OfRun);
    LeftPart(LeftJoin([u], s.runs, OfRun), TaskTenants(s), OfTask);
    OwnTenantsKept(JoinAll(s, [u]));
    assert [u][1..] == [];
    assert TenantOf(s, u) == u.tenant;
    assert Unresolved(s, [u]) == 0 + Unresolved(s, []);
  }

  /** Two runs of the call's id, or two rows of that id in the task map, copy the call. */
  lemma RepeatedIdCopies(s: Sources, u: Usage)
    requires !AtMostOne(u, s.runs, OfRun) ||
      exists i, j :: 0 <= i < j < |TaskTenants(s)| &&
        u.agentTask == Some(TaskTenants(s)[i].id) == Some(TaskTenants(s)[j].id)
    ensures |JoinAll(s, [u])| > 1
  {
    var first, tts := LeftJoin([u], s.runs, OfRun), TaskTenants(s);
    JoinKeepsRowsIff([u], s.runs, OfRun);
    JoinKeepsRowsIff(first, tts, OfTask);
    LeftPart([u], s.runs, OfRun);
    if AtMostOne([u][0], s.runs, OfRun) {
      var i, j :| 0 <= i < j < |tts| && u.agentTask == Some(tts[i].id) == Some(tts[j].id);
      assert first[0] in first && first[0].0 == u;
      assert OfTask(first[0], tts[i]) && OfTask(first[0], tts[j]);
      assert !AtMostOne(first[0], tts, OfTask);
    }
  }

  /** The output has as many rows as there are calls with a tenant, whatever the calls, if and
      only if no run id and no id of the task map occurs twice. */
  lemma CountIsExactIff(s: Sources)
    ensures (forall usage :: |BackfillTenants(s, usage)| == |usage| - Unresolved(s, usage)) <==> JoinsUnique(s)
  {
    if JoinsUnique(s) {
      forall usage ensures |BackfillTenants(s, usage)| == |usage| - Unresolved(s, usage) {
        BackfillIsExact(s, usage);
        ExpectedSize(s, usage);
      }
    } else {
      var id := RepeatedId(s);
      var u := Usage(Some(1), Some(id), 0);
      RepeatedIdCopies(s, u);
      OwnTenantCopies(s, u);
      assert |BackfillTenants(s, [u])| != |[u]| - Unresolved(s, [u]);
    }
  }

  lemma RepeatedId(s: Sources) returns (id: int)
    requires !JoinsUnique(s)
    ensures forall u: Usage :: u.agentTask == Some(id) ==>
      !AtMostOne(u, s.runs, OfRun) ||
      exists i, j :: 0 <= i < j < |TaskTenants(s)| &&
        u.agentTask == Some(TaskTenants(s)[i].id) == Some(TaskTenants(s)[j].id)
  {
    var tts := TaskTenants(s);
    if !RunIdsDiffer(s.runs) {
      var i, j :| 0 <= i < j < |s.runs| && s.runs[i].id == s.runs[j].id;
      id := s.runs[i].id;
      forall u: Usage | u.agentTask == Some(id) ensures !AtMostOne(u, s.runs, OfRun) {
        assert OfRun(u, s.runs[i]) && OfRun(u, s.runs[j]);
      }
    } else {
      var i, j :| 0 <= i < j < |tts| && tts[i].id == tts[j].id;
      id := tts[i].id;
    }
  }

  lemma JoinTwice<L, R>(l: L, r: R, on: (L, R) -> bool)
    ensures JoinRow(l, [r, r], on) == if on(l, r) then [(l, Some(r)), (l, Some(r))] else [(l, None)]
  {
    var p := Matching(on, l);
    assert [r, r][1..] == [r] && [r][1..] == [];
    assert Filter([r], p) == if p(r) then [r] else [];
    assert Filter([r, r], p) == if p(r) then [r, r] else [];
  }

  lemma JoinPair<L, R>(a: L, b: L, rs: seq<R>, on: (L, R) -> bool)
    ensures LeftJoin([a, b], rs, on) == JoinRow(a, rs, on) + JoinRow(b, rs, on)
  {
    assert [a, b][1..] == [b] && [b][1..] == [];
    assert LeftJoin([b], rs, on) == JoinRow(b, rs, on) + LeftJoin([], rs, on);
  }

  lemma {:induction false} JoinNothing<L, R>(ls: seq<L>, on: (L, R) -> bool)
    ensures LeftJoin(ls, [], on) == seq(|ls|, i requires 0 <= i < |ls| => (ls[i], None))
  {
    if ls != [] {
      JoinNothing(ls[1..], on);
    }
  }

  lemma ResolvedThree(a: Joined, b: Joined, c: Joined)
    requires Resolve(a).Some? && Resolve(b).Some? && Resolve(c) == None
    ensures |Resolved([a, b, c])| == 2
  {
    assert [a, b, c][1..] == [b, c] && [b, c][1..] == [c] && [c][1..] == [];
    assert Resolved([c]) == [] + Resolved([]);
    assert |Resolved([b, c])| == 1;
  }

  /** The copies can hide a loss: a run id that occurs twice repeats one row, which makes up
      for another that has no tenant, and the ratio is 0. */
  lemma RepeatedIdHidesLoss(run: AgentRun, a: Usage, b: Usage)
    requires run.tenant.Some? && a == Usage(None, Some(run.id), 10) && b == Usage(None, None, 20)
    ensures var s := Sources([run, run], [], []);
      TenantOf(s, b) == None && DriftRatio(2, |BackfillTenants(s, [a, b])|) == 0.0
  {
    var s := Sources([run, run], [], []);
    JoinTwice(a, run, OfRun);
    JoinTwice(b, run, OfRun);
    JoinPair(a, b, [run, run], OfRun);
    var first := LeftJoin([a, b], [run, run], OfRun);
    assert first == [(a, Some(run)), (a, Some(run)), (b, None)];
    var none: seq<AgentTask> := [];
    assert LeftJoin(none, s.users, OwnedBy) == [];
    JoinNothing<(Usage, Option<AgentRun>), TaskTenant>(first, OfTask);
    var x: Joined, y: Joined := ((a, Some(run)), None), ((b, None), None);
    assert JoinAll(s, [a, b]) == [x, x, y];
    ResolvedThree(x, x, y);
    assert Lookup(s.runs, Matching(OfRun, b)) == None by {
      LookupIsFirst(s.runs, Matching(OfRun, b));
      FilterSize(s.runs, Matching(OfRun, b));
    }
  }
}
