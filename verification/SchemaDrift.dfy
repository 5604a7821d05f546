/** The migration replay and schema comparison of scripts/check-h2-schema-drift.py.
    Statements are taken after parsing; names are already lower case. */
module SchemaDrift {
  import opened Common

  type Schema = map<string, set<string>>

  /** A parsed statement.  An ALTER TABLE that is not a table rename carries the column words
      of its ADD, DROP COLUMN and RENAME COLUMN clauses, which are applied in that order. */
  datatype Statement =
    | CreateTable(table: string, columns: set<string>)
    | RenameTable(table: string, newName: string)
    | AlterTable(table: string, adds: seq<string>, drops: seq<string>, renames: seq<(string, string)>)
    | Other

  const SKIP_KEYWORDS: set<string> :=
    {"primary", "unique", "key", "index", "constraint", "foreign",
     "fulltext", "spatial", "check", "exclude", "period"}

  function Columns(s: Schema, t: string): set<string> {
    if t in s then s[t] else {}
  }

  function AddColumn(s: Schema, t: string, word: string): Schema {
    if word in SKIP_KEYWORDS then s else s[t := Columns(s, t) + {word}]
  }

  function DropColumn(s: Schema, t: string, c: string): Schema {
    if t in s then s[t := s[t] - {c}] else s
  }

  function RenameColumn(s: Schema, t: string, r: (string, string)): Schema {
    if r.0 in Columns(s, t) then s[t := s[t] - {r.0} + {r.1}] else s
  }

  function AddColumns(s: Schema, t: string, words: seq<string>): Schema {
    if words == [] then s
    else AddColumn(AddColumns(s, t, words[..|words| - 1]), t, words[|words| - 1])
  }

  function DropColumns(s: Schema, t: string, cs: seq<string>): Schema {
    if cs == [] then s
    else DropColumn(DropColumns(s, t, cs[..|cs| - 1]), t, cs[|cs| - 1])
  }

  function RenameColumns(s: Schema, t: string, rs: seq<(string, string)>): Schema {
    if rs == [] then s
    else RenameColumn(RenameColumns(s, t, rs[..|rs| - 1]), t, rs[|rs| - 1])
  }

  /** The effect of one statement. */
  function Apply(s: Schema, stmt: Statement): Schema {
    match stmt
    case CreateTable(t, cols) => s[t := Columns(s, t) + cols]
    case RenameTable(t, n) => if t in s then (s - {t})[n := s[t]] else s
    case AlterTable(t, adds, drops, renames) =>
      RenameColumns(DropColumns(AddColumns(s, t, adds), t, drops), t, renames)
    case Other => s
  }

  /** The effect of a migration chain. */
  function Replay(s: Schema, stmts: seq<Statement>): Schema
    decreases stmts
  {
    if stmts == [] then s else Replay(Apply(s, stmts[0]), stmts[1..])
  }

  /** The schema dictionary that `apply_statement` mutates. */
  class SchemaDict {
    var schema: Schema

    constructor ()
      ensures schema == map[]
    {
      schema := map[];
    }

    method ApplyStatement(stmt: Statement)
      modifies this
      ensures schema == Apply(old(schema), stmt)
    {
      match stmt
      case CreateTable(t, cols) =>
        if t !in schema {
          schema := schema[t := {}];
        }
        schema := schema[t := schema[t] + cols];
      case RenameTable(t, n) =>
        if t in schema {
          var popped := schema[t];
          schema := schema - {t};
          schema := schema[n := popped];
        }
      case AlterTable(t, adds, drops, renames) =>
        AlterColumns(t, adds, drops, renames);
      case Other =>
    }

    method AlterColumns(t: string, adds: seq<string>, drops: seq<string>, renames: seq<(string, string)>)
      modifies this
      ensures schema == RenameColumns(DropColumns(AddColumns(old(schema), t, adds), t, drops), t, renames)
    {
      ghost var s0 := schema;
      for i := 0 to |adds|
        invariant schema == AddColumns(s0, t, adds[..i])
      {
        assert adds[..i + 1][..i] == adds[..i];
        if adds[i] !in SKIP_KEYWORDS {
          if t !in schema {
            schema := schema[t := {}];
          }
          schema := schema[t := schema[t] + {adds[i]}];
        }
      }
      assert adds[..|adds|] == adds;
      ghost var s1 := schema;
      for i := 0 to |drops|
        invariant schema == DropColumns(s1, t, drops[..i])
      {
        assert drops[..i + 1][..i] == drops[..i];
        if t in schema {
          schema := schema[t := schema[t] - {drops[i]}];
        }
      }
      assert drops[..|drops|] == drops;
      ghost var s2 := schema;
      for i := 0 to |renames|
        invariant schema == RenameColumns(s2, t, renames[..i])
      {
        assert renames[..i + 1][..i] == renames[..i];
        if t in schema && schema[t] != {} && renames[i].0 in schema[t] {
          schema := schema[t := schema[t] - {renames[i].0} + {renames[i].1}];
        }
      }
      assert renames[..|renames|] == renames;
    }

    method ApplyAll(stmts: seq<Statement>)
      modifies this
      ensures schema == Replay(old(schema), stmts)
    {
      for i := 0 to |stmts|
        invariant Replay(schema, stmts[i..]) == Replay(old(schema), stmts)
      {
        assert stmts[i..][1..] == stmts[i + 1..];
        ApplyStatement(stmts[i]);
      }
    }
  }

  /** What one statement does to the tables, one by one: CREATE adds columns to a table that it
      makes if need be, a table rename moves all columns and replaces the target, and an ALTER
      concerns its own table only. */
  lemma EffectIs(s: Schema, stmt: Statement, u: string)
    ensures stmt.CreateTable? ==>
      (u in Apply(s, stmt) <==> u in s || u == stmt.table) &&
      (u in Apply(s, stmt) ==>
         forall c :: c in Apply(s, stmt)[u] <==> (u in s && c in s[u]) || (u == stmt.table && c in stmt.columns))
    ensures stmt.RenameTable? && stmt.table !in s ==> Apply(s, stmt) == s
    ensures stmt.RenameTable? && stmt.table in s ==>
      (u in Apply(s, stmt) <==> u == stmt.newName || (u in s && u != stmt.table)) &&
      (u in Apply(s, stmt) ==> Apply(s, stmt)[u] == if u == stmt.newName then s[stmt.table] else s[u])
    ensures stmt.AlterTable? && u != stmt.table ==>
      (u in Apply(s, stmt) <==> u in s) && (u in s ==> Apply(s, stmt)[u] == s[u])
    ensures stmt.Other? ==> Apply(s, stmt) == s
  {
    if stmt.AlterTable? && u != stmt.table {
      OtherTables(s, stmt.table, u, stmt.adds, stmt.drops, stmt.renames);
    }
  }

  lemma {:induction false} OtherTables(s: Schema, t: string, u: string, adds: seq<string>, drops: seq<string>,
      renames: seq<(string, string)>)
    requires u != t
    ensures var s' := RenameColumns(DropColumns(AddColumns(s, t, adds), t, drops), t, renames);
      (u in s' <==> u in s) && (u in s ==> s'[u] == s[u])
    decreases |adds| + |drops| + |renames|
  {
    if renames != [] {
      OtherTables(s, t, u, adds, drops, renames[..|renames| - 1]);
    } else if drops != [] {
      OtherTables(s, t, u, adds, drops[..|drops| - 1], []);
    } else if adds != [] {
      OtherTables(s, t, u, adds[..|adds| - 1], [], []);
    }
  }

  /** What the single clauses do to the columns of their table.  The words behind ADD that begin
      a key or a constraint are no columns, and make no table. */
  lemma ClauseIs(s: Schema, t: string, word: string, r: (string, string), c: string)
    ensures var keyword := word in ["primary", "unique", "key", "index", "constraint", "foreign", "fulltext",
                                    "spatial", "check", "exclude", "period"];
      (c in Columns(AddColumn(s, t, word), t) <==> c in Columns(s, t) || (c == word && !keyword)) &&
      (t in AddColumn(s, t, word) <==> t in s || !keyword)
    ensures c in Columns(DropColumn(s, t, word), t) <==> c in Columns(s, t) && c != word
    ensures c in Columns(RenameColumn(s, t, r), t) <==>
      if r.0 in Columns(s, t) then c == r.1 || (c in Columns(s, t) && c != r.0) else c in Columns(s, t)
    ensures t in DropColumn(s, t, word) <==> t in s
    ensures t in RenameColumn(s, t, r) <==> t in s
  {
  }

  // ---- drift ---------------------------------------------------------------------------

  datatype Entry = MissingTable(table: string) | MissingColumn(table: string, column: string)

  /** The tables and columns of `mig` that `h2` does not have. */
  ghost predicate InDrift(mig: Schema, h2: Schema, e: Entry) {
    match e
    case MissingTable(t) => t in mig && t !in h2
    case MissingColumn(t, c) => t in mig && t in h2 && c in mig[t] && c !in h2[t]
  }

  /** `compute_drift`; the sorted order in which the source visits its sets is immaterial. */
  method ComputeDrift(mig: Schema, h2: Schema) returns (drift: set<Entry>)
    ensures forall e :: e in drift <==> InDrift(mig, h2, e)
  {
    drift := {};
    var todo := mig.Keys;
    while todo != {}
      invariant todo <= mig.Keys
      invariant forall e :: e in drift <==> InDrift(mig, h2, e) && e.table !in todo
      decreases |todo|
    {
      var t :| t in todo;
      todo := todo - {t};
      if t !in h2 {
        drift := drift + {MissingTable(t)};
      } else {
        var cols := mig[t] - h2[t];
        while cols != {}
          invariant cols <= mig[t] - h2[t]
          invariant forall e :: e in drift <==>
            InDrift(mig, h2, e) && e.table !in todo && !(e.MissingColumn? && e.table == t && e.column in cols)
          decreases |cols|
        {
          var c :| c in cols;
          cols := cols - {c};
          drift := drift + {MissingColumn(t, c)};
        }
      }
    }
  }

  /** Table by table and column by column, the migrated schema `mig` is contained in `h2`. */
  ghost predicate Contained(mig: Schema, h2: Schema) {
    forall t :: t in mig ==> t in h2 && mig[t] <= h2[t]
  }

  /** There is no drift exactly when the replayed schema is contained in the H2 schema. */
  lemma NoDriftIffContained(mig: Schema, h2: Schema)
    ensures (forall e :: !InDrift(mig, h2, e)) <==> Contained(mig, h2)
  {
    if forall e :: !InDrift(mig, h2, e) {
      forall t | t in mig ensures t in h2 && mig[t] <= h2[t] {
        assert !InDrift(mig, h2, MissingTable(t));
        forall c | c in mig[t] ensures c in h2[t] {
          assert !InDrift(mig, h2, MissingColumn(t, c));
        }
      }
    }
  }

  // ---- mirroring a migration in the H2 schema ------------------------------------------

  lemma {:induction false} AddColumnsMonotone(a: Schema, b: Schema, t: string, words: seq<string>)
    requires Contained(a, b)
    ensures Contained(AddColumns(a, t, words), AddColumns(b, t, words))
  {
    if words != [] {
      AddColumnsMonotone(a, b, t, words[..|words| - 1]);
    }
  }

  lemma {:induction false} DropColumnsMonotone(a: Schema, b: Schema, t: string, cs: seq<string>)
    requires Contained(a, b)
    ensures Contained(DropColumns(a, t, cs), DropColumns(b, t, cs))
  {
    if cs != [] {
      DropColumnsMonotone(a, b, t, cs[..|cs| - 1]);
    }
  }

  lemma {:induction false} RenameColumnsMonotone(a: Schema, b: Schema, t: string, rs: seq<(string, string)>)
    requires Contained(a, b)
    ensures Contained(RenameColumns(a, t, rs), RenameColumns(b, t, rs))
  {
    if rs != [] {
      RenameColumnsMonotone(a, b, t, rs[..|rs| - 1]);
    }
  }

  /** A table rename whose source only the larger schema has, and whose target the smaller
      schema has too, replaces the larger schema's target. */
  predicate RenameSafe(a: Schema, b: Schema, stmt: Statement) {
    stmt.RenameTable? && stmt.table !in a && stmt.table in b && stmt.newName in a
    ==> a[stmt.newName] <= b[stmt.table]
  }

  /** Applying one statement to both schemas keeps containment exactly when the statement is
      not such a rename with a target that loses columns. */
  lemma MirrorKeepsContainment(a: Schema, b: Schema, stmt: Statement)
    requires Contained(a, b)
    ensures Contained(Apply(a, stmt), Apply(b, stmt)) <==> RenameSafe(a, b, stmt)
  {
    match stmt
    case CreateTable(t, cols) =>
    case RenameTable(t, n) =>
      var a', b' := Apply(a, stmt), Apply(b, stmt);
      if t !in a && t in b && n in a {
        assert a' == a && n in b' && b'[n] == b[t];
        assert forall u :: u in a && u != n ==> u in b' && b'[u] == b[u];
      }
    case AlterTable(t, adds, drops, renames) =>
      AddColumnsMonotone(a, b, t, adds);
      DropColumnsMonotone(AddColumns(a, t, adds), AddColumns(b, t, adds), t, drops);
      RenameColumnsMonotone(DropColumns(AddColumns(a, t, adds), t, drops),
                            DropColumns(AddColumns(b, t, adds), t, drops), t, renames);
    case Other =>
  }

  /** A chain in which every table rename finds its source in the smaller schema. */
  ghost predicate RenamesFindSource(a: Schema, stmts: seq<Statement>)
    decreases stmts
  {
    stmts == [] ||
    ((stmts[0].RenameTable? ==> stmts[0].table in a) && RenamesFindSource(Apply(a, stmts[0]), stmts[1..]))
  }

  /** Mirroring every migration of such a chain keeps the check free of drift. */
  lemma {:induction false} MirroredChainStaysGreen(a: Schema, b: Schema, stmts: seq<Statement>)
    requires Contained(a, b) && RenamesFindSource(a, stmts)
    ensures Contained(Replay(a, stmts), Replay(b, stmts))
    ensures forall e :: !InDrift(Replay(a, stmts), Replay(b, stmts), e)
    decreases stmts
  {
    if stmts != [] {
      MirrorKeepsContainment(a, b, stmts[0]);
      MirroredChainStaysGreen(Apply(a, stmts[0]), Apply(b, stmts[0]), stmts[1..]);
    }
    NoDriftIffContained(Replay(a, stmts), Replay(b, stmts));
  }

  /** The containment can be lost: `RENAME old TO t` when only the H2 schema has `old`. */
  lemma RenameCanLoseContainment()
    ensures exists a: Schema, b: Schema, stmt ::
      Contained(a, b) && !Contained(Apply(a, stmt), Apply(b, stmt))
  {
    var a: Schema := map["t" := {"c"}];
    var b: Schema := map["t" := {"c"}, "old" := {}];
    var stmt := RenameTable("old", "t");
    assert !RenameSafe(a, b, stmt) by {
      assert "c" in a["t"] && "c" !in b["old"];
    }
    MirrorKeepsContainment(a, b, stmt);
  }

  // ---- the baseline --------------------------------------------------------------------

  /** The check passes when every drift entry is in the accepted baseline. */
  ghost predicate Green(mig: Schema, h2: Schema, baseline: set<Entry>) {
    forall e :: InDrift(mig, h2, e) ==> e in baseline
  }

  /** Every baseline that accepts the drift before accepts the drift after. */
  ghost predicate BaselineKept(mig: Schema, h2: Schema, mig': Schema, h2': Schema) {
    forall baseline :: Green(mig, h2, baseline) ==> Green(mig', h2', baseline)
  }

  function AllDrift(mig: Schema, h2: Schema): set<Entry> {
    (set u | u in mig && u !in h2 :: MissingTable(u)) +
    (set u, d | u in mig && u in h2 && d in mig[u] && d !in h2[u] :: MissingColumn(u, d))
  }

  /** That is, nothing drifts that did not drift before. */
  lemma BaselineKeptIff(mig: Schema, h2: Schema, mig': Schema, h2': Schema)
    ensures BaselineKept(mig, h2, mig', h2') <==> forall e :: InDrift(mig', h2', e) ==> InDrift(mig, h2, e)
  {
    if BaselineKept(mig, h2, mig', h2') {
      assert Green(mig, h2, AllDrift(mig, h2));
      forall e | InDrift(mig', h2', e) ensures InDrift(mig, h2, e) {
        assert e in AllDrift(mig, h2);
      }
    }
  }

  /** A column that only the migrations have. */
  predicate Lacks(mig: Schema, h2: Schema, t: string, c: string) {
    t in mig && t in h2 && c in mig[t] && c !in h2[t]
  }

  /** The table is wholly missing in H2 and keeps columns that the mirrored statement, which
      makes the table appear there, does not give it. */
  predicate Uncovers(mig: Schema, h2: Schema, t: string, given: set<string>) {
    t in mig && t !in h2 && mig[t] - given != {}
  }

  /** Which mirrored table renames make new entries: the target is compared with other columns,
      or in one schema only. */
  predicate RenameUncovers(mig: Schema, h2: Schema, t: string, n: string) {
    t != n &&
    if t in mig && t in h2 then exists c :: c in mig[t] - h2[t] && !Lacks(mig, h2, n, c)
    else if t in mig then
      if n in h2 then exists c :: c in mig[t] - h2[n] && !Lacks(mig, h2, n, c) else n !in mig
    else t in h2 && n in mig && exists c :: c in mig[n] - h2[t] && !Lacks(mig, h2, n, c)
  }

  // ---- what an ALTER TABLE does to the columns of its table ----------------------------

  /** The words of ADD clauses that are columns. */
  function ColumnWords(adds: seq<string>): set<string> {
    SetOf(adds) - SKIP_KEYWORDS
  }

  /** The name that a column ends up with. */
  function FinalName(c: string, renames: seq<(string, string)>): string {
    if renames == [] then c
    else
      NewName(FinalName(c, renames[..|renames| - 1]), renames[|renames| - 1])
  }

  function NewName(name: string, r: (string, string)): string {
    if name == r.0 then r.1 else name
  }

  function FinalNames(cs: set<string>, renames: seq<(string, string)>): set<string> {
    set c | c in cs :: FinalName(c, renames)
  }

  lemma SetOfSnoc(ss: seq<string>)
    requires ss != []
    ensures SetOf(ss) == SetOf(ss[..|ss| - 1]) + {ss[|ss| - 1]}
  {
    var init := ss[..|ss| - 1];
    forall x | x in SetOf(ss) ensures x in SetOf(init) + {ss[|ss| - 1]} {
      var i :| 0 <= i < |ss| && ss[i] == x;
      assert i < |init| ==> init[i] == x;
    }
    forall x | x in SetOf(init) ensures x in SetOf(ss) {
      var i :| 0 <= i < |init| && init[i] == x;
      assert ss[i] == x;
    }
    assert ss[|ss| - 1] in SetOf(ss);
  }

  lemma {:induction false} AddsAre(s: Schema, t: string, adds: seq<string>)
    ensures AddColumns(s, t, adds)
         == if ColumnWords(adds) == {} then s else s[t := Columns(s, t) + ColumnWords(adds)]
  {
    if adds != [] {
      var init, last := adds[..|adds| - 1], adds[|adds| - 1];
      AddsAre(s, t, init);
      SetOfSnoc(adds);
      assert ColumnWords(adds) == ColumnWords(init) + (if last in SKIP_KEYWORDS then {} else {last});
      if last in SKIP_KEYWORDS {
        assert ColumnWords(adds) == ColumnWords(init);
      } else {
        assert ColumnWords(adds) == ColumnWords(init) + {last};
        assert last in ColumnWords(adds);
        assert Columns(s, t) + ColumnWords(init) + {last} == Columns(s, t) + ColumnWords(adds);
        assert ColumnWords(init) == {} ==> Columns(s, t) + {last} == Columns(s, t) + ColumnWords(adds);
      }
    } else {
      assert ColumnWords(adds) == {};
    }
  }

  lemma {:induction false} DropsAre(s: Schema, t: string, drops: seq<string>)
    ensures DropColumns(s, t, drops) == if t in s then s[t := s[t] - SetOf(drops)] else s
  {
    if drops != [] {
      var init, last := drops[..|drops| - 1], drops[|drops| - 1];
      DropsAre(s, t, init);
      SetOfSnoc(drops);
      if t in s {
        assert s[t] - SetOf(init) - {last} == s[t] - SetOf(drops);
      }
    } else if t in s {
      assert s[t] - SetOf(drops) == s[t];
      assert s[t := s[t]] == s;
    }
  }

  lemma {:induction false} RenamesAre(s: Schema, t: string, renames: seq<(string, string)>)
    ensures RenameColumns(s, t, renames) == if t in s then s[t := FinalNames(s[t], renames)] else s
  {
    if renames != [] {
      var init, last := renames[..|renames| - 1], renames[|renames| - 1];
      RenamesAre(s, t, init);
      if t in s {
        RenameLast(s[t], renames);
        var before := RenameColumns(s, t, init);
        assert before[t := before[t]] == before;
      }
    } else if t in s {
      assert FinalNames(s[t], renames) == s[t] by {
        assert forall c :: c in s[t] ==> FinalName(c, renames) == c;
      }
      assert s[t := s[t]] == s;
    }
  }

  lemma RenameLast(cs: set<string>, renames: seq<(string, string)>)
    requires renames != []
    ensures FinalNames(cs, renames)
         == Renamed(FinalNames(cs, renames[..|renames| - 1]), renames[|renames| - 1])
  {
    var init, last := renames[..|renames| - 1], renames[|renames| - 1];
    var before := FinalNames(cs, init);
    RenamedIs(before, last);
    forall x | x in FinalNames(cs, renames) ensures x in Renamed(before, last) {
      var c :| c in cs && FinalName(c, renames) == x;
      assert FinalName(c, init) in before;
    }
    forall x | x in Renamed(before, last) ensures x in FinalNames(cs, renames) {
      var name :| name in before && NewName(name, last) == x;
      var c :| c in cs && FinalName(c, init) == name;
      assert FinalName(c, renames) == x;
    }
  }

  /** A renamed column, in a set of columns. */
  function Renamed(cs: set<string>, r: (string, string)): set<string> {
    if r.0 in cs then cs - {r.0} + {r.1} else cs
  }

  lemma RenamedIs(cs: set<string>, r: (string, string))
    ensures forall x :: x in Renamed(cs, r) <==> exists name :: name in cs && NewName(name, r) == x
  {
    forall x | x in Renamed(cs, r) ensures exists name :: name in cs && NewName(name, r) == x {
      if r.0 in cs && x == r.1 {
        assert NewName(r.0, r) == x;
      } else {
        assert NewName(x, r) == x;
      }
    }
  }

  /** The columns of the table before its renames. */
  function Kept(s: Schema, t: string, adds: seq<string>, drops: seq<string>): set<string> {
    Columns(s, t) + ColumnWords(adds) - SetOf(drops)
  }

  /** An ALTER TABLE touches a table that exists, or that its ADD clauses make. */
  predicate Touches(s: Schema, t: string, adds: seq<string>) {
    t in s || ColumnWords(adds) != {}
  }

  lemma AlterIs(s: Schema, t: string, adds: seq<string>, drops: seq<string>, renames: seq<(string, string)>)
    ensures Apply(s, AlterTable(t, adds, drops, renames))
         == if Touches(s, t, adds) then s[t := FinalNames(Kept(s, t, adds, drops), renames)] else s
  {
    var s1 := AddColumns(s, t, adds);
    var s2 := DropColumns(s1, t, drops);
    AddsAre(s, t, adds);
    DropsAre(s1, t, drops);
    RenamesAre(s2, t, renames);
    if Touches(s, t, adds) {
      assert s1[t] == Columns(s, t) + ColumnWords(adds);
    }
  }

  /** A column that stays in the migrations' table only, and ends under a name that neither H2
      has nor the drift before lists. */
  predicate AlterUncovers(mig: Schema, h2: Schema, t: string, adds: seq<string>, drops: seq<string>,
      renames: seq<(string, string)>)
  {
    Touches(mig, t, adds) && Touches(h2, t, adds) &&
    exists c :: c in Kept(mig, t, adds, drops) - Kept(h2, t, adds, drops) &&
      FinalName(c, renames) !in FinalNames(Kept(h2, t, adds, drops), renames) &&
      !Lacks(mig, h2, t, FinalName(c, renames))
  }

  /** Whether a statement, applied to both schemas, makes an entry that no baseline from before
      need contain. */
  predicate MakesNewEntry(mig: Schema, h2: Schema, stmt: Statement) {
    match stmt
    case CreateTable(t, cols) => Uncovers(mig, h2, t, cols)
    case RenameTable(t, n) => RenameUncovers(mig, h2, t, n)
    case AlterTable(t, adds, drops, renames) => AlterUncovers(mig, h2, t, adds, drops, renames)
    case Other => false
  }

  /** With a baseline, mirroring a statement keeps the check green, whatever the baseline, exactly
      when it makes no new entry. */
  lemma MirrorKeepsBaselineIff(mig: Schema, h2: Schema, stmt: Statement)
    ensures BaselineKept(mig, h2, Apply(mig, stmt), Apply(h2, stmt)) <==> !MakesNewEntry(mig, h2, stmt)
  {
    BaselineKeptIff(mig, h2, Apply(mig, stmt), Apply(h2, stmt));
    match stmt
    case CreateTable(t, cols) => GivenColumns(mig, h2, t, cols);
    case RenameTable(t, n) => MirroredTableRename(mig, h2, t, n);
    case AlterTable(t, adds, drops, renames) => MirroredAlter(mig, h2, t, adds, drops, renames);
    case Other =>
  }

  /** For instance, adding and dropping a column of a table that the baseline accepts as missing
      makes the table appear on the H2 side without its other column. */
  lemma BaselineCanBeLeft()
    ensures var mig: Schema, h2: Schema := map["t" := {"c"}], map[];
      var stmt := AlterTable("t", ["d"], ["d"], []);
      Green(mig, h2, {MissingTable("t")}) && !Green(Apply(mig, stmt), Apply(h2, stmt), {MissingTable("t")})
  {
    var mig: Schema, h2: Schema := map["t" := {"c"}], map[];
    var stmt := AlterTable("t", ["d"], ["d"], []);
    assert ["d"][0] == "d";
    assert ColumnWords(["d"]) == {"d"} && SetOf(["d"]) == {"d"};
    AlterIs(mig, "t", ["d"], ["d"], []);
    AlterIs(h2, "t", ["d"], ["d"], []);
    assert Kept(mig, "t", ["d"], ["d"]) == {"c"} && Kept(h2, "t", ["d"], ["d"]) == {};
    assert FinalName("c", []) == "c";
    assert InDrift(Apply(mig, stmt), Apply(h2, stmt), MissingColumn("t", "c"));
  }

  lemma MirroredAlter(mig: Schema, h2: Schema, t: string, adds: seq<string>, drops: seq<string>,
      renames: seq<(string, string)>)
    ensures var stmt := AlterTable(t, adds, drops, renames);
      (forall e :: InDrift(Apply(mig, stmt), Apply(h2, stmt), e) ==> InDrift(mig, h2, e))
      <==> !AlterUncovers(mig, h2, t, adds, drops, renames)
  {
    var stmt := AlterTable(t, adds, drops, renames);
    var mig', h2' := Apply(mig, stmt), Apply(h2, stmt);
    var a, b := Kept(mig, t, adds, drops), Kept(h2, t, adds, drops);
    AlterIs(mig, t, adds, drops, renames);
    AlterIs(h2, t, adds, drops, renames);
    if AlterUncovers(mig, h2, t, adds, drops, renames) {
      var c :| c in a - b && FinalName(c, renames) !in FinalNames(b, renames) &&
        !Lacks(mig, h2, t, FinalName(c, renames));
      assert FinalName(c, renames) in FinalNames(a, renames);
      var e := MissingColumn(t, FinalName(c, renames));
      assert InDrift(mig', h2', e) && !InDrift(mig, h2, e);
    } else {
      forall e | InDrift(mig', h2', e) ensures InDrift(mig, h2, e) {
        if e.table == t && Touches(mig, t, adds) && Touches(h2, t, adds) {
          assert e.MissingColumn?;
          var c :| c in a && FinalName(c, renames) == e.column;
          assert c in b ==> FinalName(c, renames) in FinalNames(b, renames);
          assert Lacks(mig, h2, t, e.column);
        }
      }
    }
  }

  lemma OneAdd(s: Schema, t: string, word: string)
    ensures Apply(s, AlterTable(t, [word], [], [])) == AddColumn(s, t, word)
  {
    assert [word][..0] == [];
    assert AddColumns(s, t, [word]) == AddColumn(AddColumns(s, t, []), t, word);
  }

  lemma OneDrop(s: Schema, t: string, c: string)
    ensures Apply(s, AlterTable(t, [], [c], [])) == DropColumn(s, t, c)
  {
    assert [c][..0] == [];
    assert DropColumns(s, t, [c]) == DropColumn(DropColumns(s, t, []), t, c);
  }

  lemma OneRename(s: Schema, t: string, r: (string, string))
    ensures Apply(s, AlterTable(t, [], [], [r])) == RenameColumn(s, t, r)
  {
    assert [r][..0] == [];
    assert RenameColumns(s, t, [r]) == RenameColumn(RenameColumns(s, t, []), t, r);
  }

  lemma GivenColumns(mig: Schema, h2: Schema, t: string, given: set<string>)
    ensures (forall e :: InDrift(mig[t := Columns(mig, t) + given], h2[t := Columns(h2, t) + given], e) ==>
      InDrift(mig, h2, e))
       <==> !Uncovers(mig, h2, t, given)
  {
    var mig', h2' := mig[t := Columns(mig, t) + given], h2[t := Columns(h2, t) + given];
    if Uncovers(mig, h2, t, given) {
      var c :| c in mig[t] - given;
      assert InDrift(mig', h2', MissingColumn(t, c)) && !InDrift(mig, h2, MissingColumn(t, c));
    } else {
      forall e | InDrift(mig', h2', e) ensures InDrift(mig, h2, e) {
        if e.table == t {
          assert e.MissingColumn? && e.column in mig'[t] && e.column !in h2'[t];
        }
      }
    }
  }

  lemma MirroredTableRename(mig: Schema, h2: Schema, t: string, n: string)
    ensures (forall e :: InDrift(Apply(mig, RenameTable(t, n)), Apply(h2, RenameTable(t, n)), e) ==>
      InDrift(mig, h2, e))
       <==> !RenameUncovers(mig, h2, t, n)
  {
    var mig', h2' := Apply(mig, RenameTable(t, n)), Apply(h2, RenameTable(t, n));
    if t == n {
      assert mig' == mig && h2' == h2;
    } else if RenameUncovers(mig, h2, t, n) {
      if t in mig && n !in h2 && t !in h2 {
        assert InDrift(mig', h2', MissingTable(n)) && !InDrift(mig, h2, MissingTable(n));
      } else {
        var c :| c in mig'[n] - h2'[n] && !Lacks(mig, h2, n, c);
        assert InDrift(mig', h2', MissingColumn(n, c)) && !InDrift(mig, h2, MissingColumn(n, c));
      }
    } else {
      forall e | InDrift(mig', h2', e) ensures InDrift(mig, h2, e) {
        if e.table == n && e.MissingColumn? {
          assert e.column in mig'[n] - h2'[n];
          assert Lacks(mig, h2, n, e.column);
        }
      }
    }
  }

  // ---- statements with several clauses -------------------------------------------------

  function AddClauses(t: string, words: seq<string>): seq<Statement> {
    seq(|words|, i requires 0 <= i < |words| => AlterTable(t, [words[i]], [], []))
  }

  function DropClauses(t: string, cs: seq<string>): seq<Statement> {
    seq(|cs|, i requires 0 <= i < |cs| => AlterTable(t, [], [cs[i]], []))
  }

  function RenameClauses(t: string, rs: seq<(string, string)>): seq<Statement> {
    seq(|rs|, i requires 0 <= i < |rs| => AlterTable(t, [], [], [rs[i]]))
  }

  /** The clauses of a statement, as statements of their own. */
  function Clauses(stmt: Statement): seq<Statement> {
    match stmt
    case AlterTable(t, adds, drops, renames) => AddClauses(t, adds) + DropClauses(t, drops) + RenameClauses(t, renames)
    case _ => [stmt]
  }

  lemma {:induction false} ReplayConcat(s: Schema, a: seq<Statement>, b: seq<Statement>)
    ensures Replay(s, a + b) == Replay(Replay(s, a), b)
    decreases a
  {
    if a == [] {
      assert a + b == b;
    } else {
      assert (a + b)[0] == a[0] && (a + b)[1..] == a[1..] + b;
      ReplayConcat(Apply(s, a[0]), a[1..], b);
    }
  }

  lemma ReplaySnoc(s: Schema, stmts: seq<Statement>, stmt: Statement)
    ensures Replay(s, stmts + [stmt]) == Apply(Replay(s, stmts), stmt)
  {
    ReplayConcat(s, stmts, [stmt]);
    assert [stmt][1..] == [];
    assert Replay(Replay(s, stmts), [stmt]) == Replay(Apply(Replay(s, stmts), stmt), []);
  }

  lemma {:induction false} AddClausesReplay(s: Schema, t: string, words: seq<string>)
    ensures Replay(s, AddClauses(t, words)) == AddColumns(s, t, words)
  {
    if words != [] {
      var init, last := words[..|words| - 1], words[|words| - 1];
      AddClausesReplay(s, t, init);
      assert AddClauses(t, words) == AddClauses(t, init) + [AlterTable(t, [last], [], [])];
      ReplaySnoc(s, AddClauses(t, init), AlterTable(t, [last], [], []));
      OneAdd(AddColumns(s, t, init), t, last);
    } else {
      assert AddClauses(t, words) == [];
    }
  }

  lemma {:induction false} DropClausesReplay(s: Schema, t: string, cs: seq<string>)
    ensures Replay(s, DropClauses(t, cs)) == DropColumns(s, t, cs)
  {
    if cs != [] {
      var init, last := cs[..|cs| - 1], cs[|cs| - 1];
      DropClausesReplay(s, t, init);
      assert DropClauses(t, cs) == DropClauses(t, init) + [AlterTable(t, [], [last], [])];
      ReplaySnoc(s, DropClauses(t, init), AlterTable(t, [], [last], []));
      OneDrop(DropColumns(s, t, init), t, last);
    } else {
      assert DropClauses(t, cs) == [];
    }
  }

  lemma {:induction false} RenameClausesReplay(s: Schema, t: string, rs: seq<(string, string)>)
    ensures Replay(s, RenameClauses(t, rs)) == RenameColumns(s, t, rs)
  {
    if rs != [] {
      var init, last := rs[..|rs| - 1], rs[|rs| - 1];
      RenameClausesReplay(s, t, init);
      assert RenameClauses(t, rs) == RenameClauses(t, init) + [AlterTable(t, [], [], [last])];
      ReplaySnoc(s, RenameClauses(t, init), AlterTable(t, [], [], [last]));
      OneRename(RenameColumns(s, t, init), t, last);
    } else {
      assert RenameClauses(t, rs) == [];
    }
  }

  /** A statement does what its clauses do one after the other. */
  lemma ClausesReplay(s: Schema, stmt: Statement)
    ensures Replay(s, Clauses(stmt)) == Apply(s, stmt)
  {
    match stmt
    case AlterTable(t, adds, drops, renames) =>
      var a, d, r := AddClauses(t, adds), DropClauses(t, drops), RenameClauses(t, renames);
      ReplayConcat(s, a + d, r);
      ReplayConcat(s, a, d);
      AddClausesReplay(s, t, adds);
      DropClausesReplay(AddColumns(s, t, adds), t, drops);
      RenameClausesReplay(DropColumns(AddColumns(s, t, adds), t, drops), t, renames);
    case _ =>
      assert [] + [stmt] == [stmt];
      ReplaySnoc(s, [], stmt);
  }

  /** None of the statements makes a new entry when its turn comes. */
  ghost predicate NoNewEntries(mig: Schema, h2: Schema, stmts: seq<Statement>)
    decreases stmts
  {
    stmts == [] ||
    (!MakesNewEntry(mig, h2, stmts[0]) && NoNewEntries(Apply(mig, stmts[0]), Apply(h2, stmts[0]), stmts[1..]))
  }

  /** Mirroring a chain of such statements keeps the check green under every baseline. */
  lemma {:induction false} MirroredChainKeepsBaseline(mig: Schema, h2: Schema, stmts: seq<Statement>)
    requires NoNewEntries(mig, h2, stmts)
    ensures BaselineKept(mig, h2, Replay(mig, stmts), Replay(h2, stmts))
    decreases stmts
  {
    if stmts != [] {
      MirrorKeepsBaselineIff(mig, h2, stmts[0]);
      MirroredChainKeepsBaseline(Apply(mig, stmts[0]), Apply(h2, stmts[0]), stmts[1..]);
    }
  }
}
