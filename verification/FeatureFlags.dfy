/** Flag evaluation of python-ai/app/utils/feature_flag.py. */
module FeatureFlags {
  import opened Common

  datatype Scope = Environment | Kb | User | Tenant | Global | Unknown

  /** SCOPE_PRIORITY, with 0 for a scope that is not listed. */
  function Priority(s: Scope): nat {
    match s
    case Environment => 5
    case Kb => 4
    case User => 3
    case Tenant => 2
    case Global => 1
    case Unknown => 0
  }

  /** A white- or blacklist as stored: JSON text, or a list already decoded. */
  datatype IdList = Text(json: string) | Items(items: seq<string>)

  datatype Rule = Rule(scope: Scope, scopeValue: string, enabled: Option<bool>,
                       blacklist: Option<IdList>, whitelist: Option<IdList>, percentage: Option<int>)

  datatype Entry = Entry(flagKey: Option<string>, enabled: bool,
                         blacklist: Option<IdList>, whitelist: Option<IdList>, percentage: Option<int>,
                         startTime: string, endTime: string, rules: seq<Rule>)

  /** Ids are in the form that `str` gives them. */
  datatype Context = Context(user: Option<string>, kb: Option<string>, tenant: Option<string>,
      environment: Option<string>)

  /** The library functions that the evaluation calls. */
  datatype Library = Library(
    decode: string -> Option<seq<string>>,  // json.loads, then str of each item; None on any exception
    digest: string -> seq<nat>,             // the bytes of the SHA-256 digest
    lower: string -> string)

  // ---- the bucket ----------------------------------------------------------------------

  ghost predicate Bytes(bs: seq<nat>) {
    forall i :: 0 <= i < |bs| ==> bs[i] < 256
  }

  /** The number whose base-256 digits are `bs`. */
  function BigEndian(bs: seq<nat>): nat {
    if bs == [] then 0 else BigEndian(bs[..|bs| - 1]) * 256 + bs[|bs| - 1]
  }

  function Power256(n: nat): nat {
    if n == 0 then 1 else Power256(n - 1) * 256
  }

  /** A byte string of length n is a number below 256 to the n. */
  lemma {:induction false} BigEndianBounded(bs: seq<nat>)
    requires Bytes(bs)
    ensures BigEndian(bs) < Power256(|bs|)
  {
    if bs != [] {
      BigEndianBounded(bs[..|bs| - 1]);
    }
  }

  function Hash(digest: seq<nat>): nat {
    BigEndian(Take(digest, 8))
  }

  /** The folding loop of `_deterministic_hash`; `(h << 8) | b` of a byte `b` is `h * 256 + b`. */
  method DeterministicHash(digest: seq<nat>) returns (h: nat)
    requires Bytes(digest)
    ensures h == Hash(digest)
    ensures h < 0x1_0000_0000_0000_0000
  {
    var bytes := Take(digest, 8);
    h := 0;
    for i := 0 to |bytes|
      invariant h == BigEndian(bytes[..i])
    {
      assert bytes[..i + 1][..i] == bytes[..i];
      h := h * 256 + bytes[i];
    }
    assert bytes[..|bytes|] == bytes;
    BigEndianBounded(bytes);
    Power256Monotone(|bytes|, 8);
    assert Power256(8) == 0x1_0000_0000_0000_0000;
  }

  lemma {:induction false} Power256Monotone(a: nat, b: nat)
    requires a <= b
    ensures Power256(a) <= Power256(b)
  {
    if a < b {
      Power256Monotone(a, b - 1);
    }
  }

  /** The number is the sum of the bytes, each by its place. */
  lemma EightBytes(bs: seq<nat>)
    requires |bs| == 8
    ensures BigEndian(bs) ==
      bs[0] * 0x100_0000_0000_0000 + bs[1] * 0x1_0000_0000_0000 + bs[2] * 0x100_0000_0000 + bs[3] * 0x1_0000_0000 +
      bs[4] * 0x100_0000 + bs[5] * 0x1_0000 + bs[6] * 0x100 + bs[7]
  {
    var b1, b2, b3, b4 := bs[..1], bs[..2], bs[..3], bs[..4];
    var b5, b6, b7 := bs[..5], bs[..6], bs[..7];
    assert b7[..6] == b6 && b6[..5] == b5 && b5[..4] == b4 && b4[..3] == b3 && b3[..2] == b2 && b2[..1] == b1;
    assert b1[..0] == [];
    assert BigEndian(b1) == bs[0] && BigEndian(b2) == BigEndian(b1) * 256 + bs[1];
    assert BigEndian(b3) == BigEndian(b2) * 256 + bs[2] && BigEndian(b4) == BigEndian(b3) * 256 + bs[3];
    assert BigEndian(b5) == BigEndian(b4) * 256 + bs[4] && BigEndian(b6) == BigEndian(b5) * 256 + bs[5];
    assert BigEndian(b7) == BigEndian(b6) * 256 + bs[6] && BigEndian(bs) == BigEndian(b7) * 256 + bs[7];
  }

  function Bucket(lib: Library, key: Option<string>, user: string): nat {
    Hash(lib.digest((if key.Some? then key.value else "") + ":" + user)) % 100
  }

  // ---- overlays ------------------------------------------------------------------------

  predicate Truthy(l: IdList) {
    match l
    case Text(json) => json != ""
    case Items(items) => items != []
  }

  /** `_json_contains`. */
  predicate Contains(lib: Library, l: IdList, user: string) {
    match l
    case Text(json) => (match lib.decode(json) case Some(items) => user in items case None => false)
    case Items(items) => user in items
  }

  function OrElse<T>(a: Option<T>, b: Option<T>): Option<T> {
    if a.Some? then a else b
  }

  predicate Listed(lib: Library, l: Option<IdList>, user: Option<string>) {
    l.Some? && user.Some? && Truthy(l.value) && Contains(lib, l.value, user.value)
  }

  /** The fixed order: blacklist, whitelist, percentage, base value. */
  predicate Overlay(lib: Library, key: Option<string>, base: bool, bl: Option<IdList>, wl: Option<IdList>,
                    pct: Option<int>, user: Option<string>)
  {
    if Listed(lib, bl, user) then false
    else if wl.Some? && Truthy(wl.value) && user.Some? then base && Contains(lib, wl.value, user.value)
    else if pct.Some? && user.Some? then base && Bucket(lib, key, user.value) < pct.value
    else base
  }

  /** `_resolve_with_order`: what the rule sets overrides what the flag sets. */
  predicate ResolveWithOrder(lib: Library, e: Entry, r: Rule, user: Option<string>) {
    Overlay(lib, e.flagKey, if r.enabled.Some? then r.enabled.value else e.enabled,
            OrElse(r.blacklist, e.blacklist), OrElse(r.whitelist, e.whitelist),
            OrElse(r.percentage, e.percentage), user)
  }

  /** `_resolve_flag_level`. */
  predicate ResolveFlagLevel(lib: Library, e: Entry, user: Option<string>) {
    Overlay(lib, e.flagKey, e.enabled, e.blacklist, e.whitelist, e.percentage, user)
  }

  // ---- scopes --------------------------------------------------------------------------

  predicate ScopeMatches(lib: Library, r: Rule, c: Context) {
    match r.scope
    case Global => true
    case Tenant => c.tenant == Some(r.scopeValue)
    case User => c.user == Some(r.scopeValue)
    case Kb => c.kb == Some(r.scopeValue)
    case Environment => c.environment.Some? && lib.lower(c.environment.value) == lib.lower(r.scopeValue)
    case Unknown => false
  }

  /** A stable sort by descending priority: `r` goes behind all rules of at least its priority. */
  function Insert(sorted: seq<Rule>, r: Rule): seq<Rule> {
    if sorted == [] || Priority(sorted[0].scope) < Priority(r.scope) then [r] + sorted
    else [sorted[0]] + Insert(sorted[1..], r)
  }

  function SortRules(rules: seq<Rule>): seq<Rule> {
    if rules == [] then [] else Insert(SortRules(rules[..|rules| - 1]), rules[|rules| - 1])
  }

  function FirstMatch(lib: Library, rules: seq<Rule>, c: Context): Option<Rule> {
    if rules == [] then None
    else if ScopeMatches(lib, rules[0], c) then Some(rules[0])
    else FirstMatch(lib, rules[1..], c)
  }

  /** String comparison by code points. */
  predicate Before(a: string, b: string) {
    if b == [] then false
    else if a == [] then true
    else a[0] < b[0] || (a[0] == b[0] && Before(a[1..], b[1..]))
  }

  predicate InWindow(e: Entry, now: string) {
    !(e.startTime != "" && Before(now, e.startTime)) && !(e.endTime != "" && Before(e.endTime, now))
  }

  /** `_evaluate`. */
  predicate Evaluate(lib: Library, e: Entry, c: Context, now: string) {
    InWindow(e, now) &&
    match FirstMatch(lib, SortRules(e.rules), c)
    case Some(r) => ResolveWithOrder(lib, e, r, c.user)
    case None => ResolveFlagLevel(lib, e, c.user)
  }

  // ---- sort-then-first-match is the declarative rule -----------------------------------

  /** Rule `i` matches, no matching rule has a higher priority, and none of its priority comes
      before it. */
  ghost predicate Winner(lib: Library, rules: seq<Rule>, c: Context, i: nat) {
    i < |rules| && ScopeMatches(lib, rules[i], c) &&
    forall j :: 0 <= j < |rules| && ScopeMatches(lib, rules[j], c) ==>
      Priority(rules[j].scope) < Priority(rules[i].scope) ||
      (Priority(rules[j].scope) == Priority(rules[i].scope) && i <= j)
  }

  ghost predicate Descending(rules: seq<Rule>) {
    forall i, j :: 0 <= i < j < |rules| ==> Priority(rules[i].scope) >= Priority(rules[j].scope)
  }

  lemma {:induction false} InsertSorted(sorted: seq<Rule>, r: Rule)
    requires Descending(sorted)
    ensures Descending(Insert(sorted, r))
    ensures forall x :: x in Insert(sorted, r) <==> x == r || x in sorted
  {
    if sorted != [] && !(Priority(sorted[0].scope) < Priority(r.scope)) {
      var rest := Insert(sorted[1..], r);
      InsertSorted(sorted[1..], r);
      forall j | 0 <= j < |rest| ensures Priority(sorted[0].scope) >= Priority(rest[j].scope) {
        assert rest[j] in rest;
      }
    }
  }

  lemma {:induction false} SortDescending(rules: seq<Rule>)
    ensures Descending(SortRules(rules))
  {
    if rules != [] {
      SortDescending(rules[..|rules| - 1]);
      InsertSorted(SortRules(rules[..|rules| - 1]), rules[|rules| - 1]);
    }
  }

  /** Inserting a rule changes the first match only if it matches and outranks it. */
  lemma {:induction false} InsertFirstMatch(lib: Library, sorted: seq<Rule>, r: Rule, c: Context)
    requires Descending(sorted)
    ensures var was := FirstMatch(lib, sorted, c);
      FirstMatch(lib, Insert(sorted, r), c) ==
        if ScopeMatches(lib, r, c) && (was == None || Priority(was.value.scope) < Priority(r.scope))
        then Some(r) else was
  {
    if sorted == [] {
      assert [r][1..] == [];
    } else if Priority(sorted[0].scope) < Priority(r.scope) {
      assert ([r] + sorted)[1..] == sorted;
      FirstMatchIn(lib, sorted, c);
    } else {
      InsertFirstMatch(lib, sorted[1..], r, c);
      assert ([sorted[0]] + Insert(sorted[1..], r))[1..] == Insert(sorted[1..], r);
    }
  }

  lemma {:induction false} FirstMatchIn(lib: Library, rules: seq<Rule>, c: Context)
    ensures match FirstMatch(lib, rules, c)
      case Some(r) => r in rules && ScopeMatches(lib, r, c)
      case None => forall r :: r in rules ==> !ScopeMatches(lib, r, c)
  {
    if rules != [] && !ScopeMatches(lib, rules[0], c) {
      FirstMatchIn(lib, rules[1..], c);
    }
  }

  /** The first match of the sorted rules is the highest-priority matching rule, the earliest
      in the list on ties; and there is none exactly when no rule matches. */
  lemma {:induction false} FirstMatchIsWinner(lib: Library, rules: seq<Rule>, c: Context) returns (i: nat)
    ensures match FirstMatch(lib, SortRules(rules), c)
      case Some(r) => Winner(lib, rules, c, i) && r == rules[i]
      case None => forall j :: 0 <= j < |rules| ==> !ScopeMatches(lib, rules[j], c)
  {
    if rules == [] {
      i := 0;
    } else {
      var init, last := rules[..|rules| - 1], rules[|rules| - 1];
      i := FirstMatchIsWinner(lib, init, c);
      SortDescending(init);
      InsertFirstMatch(lib, SortRules(init), last, c);
      assert forall j :: 0 <= j < |init| ==> rules[j] == init[j];
      var before := FirstMatch(lib, SortRules(init), c);
      if ScopeMatches(lib, last, c) && (before == None || Priority(before.value.scope) < Priority(last.scope)) {
        i := |rules| - 1;
      }
    }
  }

  lemma WinnerUnique(lib: Library, rules: seq<Rule>, c: Context, i: nat, j: nat)
    requires Winner(lib, rules, c, i) && Winner(lib, rules, c, j)
    ensures i == j
  {
  }

  /** The declarative reading of a flag: the winning rule decides, */
  lemma EvaluateByWinner(lib: Library, e: Entry, c: Context, now: string, i: nat)
    requires Winner(lib, e.rules, c, i)
    ensures Evaluate(lib, e, c, now) <==> InWindow(e, now) && ResolveWithOrder(lib, e, e.rules[i], c.user)
  {
    var k := FirstMatchIsWinner(lib, e.rules, c);
    if FirstMatch(lib, SortRules(e.rules), c).Some? {
      WinnerUnique(lib, e.rules, c, i, k);
    }
  }

  ghost predicate NoneMatches(lib: Library, rules: seq<Rule>, c: Context) {
    forall j :: 0 <= j < |rules| ==> !ScopeMatches(lib, rules[j], c)
  }

  /** and the flag itself where no rule matches. */
  lemma EvaluateByFlag(lib: Library, e: Entry, c: Context, now: string)
    requires NoneMatches(lib, e.rules, c)
    ensures Evaluate(lib, e, c, now) <==> InWindow(e, now) && ResolveFlagLevel(lib, e, c.user)
  {
    var k := FirstMatchIsWinner(lib, e.rules, c);
  }

  /** One of the two always applies. */
  lemma WinnerOrNone(lib: Library, rules: seq<Rule>, c: Context) returns (i: nat)
    ensures Winner(lib, rules, c, i) || NoneMatches(lib, rules, c)
  {
    i := FirstMatchIsWinner(lib, rules, c);
  }

  // ---- the decision, written out -------------------------------------------------------

  /** The user is on a list that is in force. */
  predicate OnList(lib: Library, l: Option<IdList>, user: string) {
    match l
    case None => false
    case Some(Items(items)) => user in items
    case Some(Text(json)) => json != "" && lib.decode(json).Some? && user in lib.decode(json).value
  }

  /** A list that names anybody; an empty one is as good as none. */
  predicate InForce(l: Option<IdList>) {
    l.Some? && l.value != Items([]) && l.value != Text("")
  }

  /** Now is neither before the start nor behind the end, where they are given. */
  ghost predicate Open(e: Entry, now: string) {
    (e.startTime != "" ==> !Precedes(now, e.startTime)) && (e.endTime != "" ==> !Precedes(e.endTime, now))
  }

  /** `a` comes before `b`: they agree up to some point, where `a` ends or has the smaller
      character. */
  ghost predicate Precedes(a: string, b: string) {
    exists k: nat :: SplitsAt(a, b, k)
  }

  predicate SplitsAt(a: string, b: string, k: nat) {
    k <= |a| && k < |b| && a[..k] == b[..k] && (k == |a| || a[k] < b[k])
  }

  lemma {:induction false} BeforePrecedes(a: string, b: string)
    ensures Before(a, b) <==> Precedes(a, b)
  {
    if a == [] || b == [] {
      assert b != [] ==> SplitsAt(a, b, 0);
    } else {
      BeforePrecedes(a[1..], b[1..]);
      if a[0] < b[0] {
        assert SplitsAt(a, b, 0);
      } else if a[0] == b[0] {
        if k: nat :| SplitsAt(a[1..], b[1..], k) {
          assert a[..k + 1] == [a[0]] + a[1..][..k] && b[..k + 1] == [b[0]] + b[1..][..k];
          assert SplitsAt(a, b, k + 1);
        }
        if k: nat :| SplitsAt(a, b, k) {
          assert k > 0 && a[1..][..k - 1] == a[..k][1..] && b[1..][..k - 1] == b[..k][1..];
          assert SplitsAt(a[1..], b[1..], k - 1);
        }
      } else {
        forall k: nat ensures !SplitsAt(a, b, k) {
          if 0 < k <= |a| && k <= |b| {
            assert a[..k][0] == a[0] && b[..k][0] == b[0];
          }
        }
      }
    }
  }

  /** What is decided from a base value, the lists and percentage in force, and the bucket. */
  ghost predicate Decides(lib: Library, key: string, base: bool, bl: Option<IdList>, wl: Option<IdList>,
      pct: Option<int>, user: Option<string>, on: bool)
  {
    && (user == None ==> (on <==> base))
    && (user.Some? && InForce(wl) ==>
          (on <==> base && !OnList(lib, bl, user.value) && OnList(lib, wl, user.value)))
    && (user.Some? && !InForce(wl) && pct.Some? ==>
          (on <==> (base && !OnList(lib, bl, user.value) &&
                    BigEndian(Take(lib.digest(key + ":" + user.value), 8)) % 100 < pct.value)))
    && (user.Some? && !InForce(wl) && pct == None ==> (on <==> base && !OnList(lib, bl, user.value)))
  }

  lemma OverlayDecides(lib: Library, key: Option<string>, base: bool, bl: Option<IdList>, wl: Option<IdList>,
      pct: Option<int>, user: Option<string>)
    ensures Decides(lib, if key.Some? then key.value else "", base, bl, wl, pct, user,
                    Overlay(lib, key, base, bl, wl, pct, user))
  {
  }

  lemma OpenIs(e: Entry, now: string)
    ensures InWindow(e, now) <==> Open(e, now)
  {
    BeforePrecedes(now, e.startTime);
    BeforePrecedes(e.endTime, now);
  }

  /** Outside the window the flag is off for everybody.  Inside, the winning rule decides with its
      own settings, and with the flag's where it has none: a user on the blacklist in force is
      denied; with a whitelist in force nobody else is let in; otherwise the bucket decides if
      there is a percentage; and the base value has to be on in every case. */
  lemma WinnerDecides(lib: Library, e: Entry, c: Context, now: string, i: nat)
    requires Winner(lib, e.rules, c, i)
    ensures !Open(e, now) ==> !Evaluate(lib, e, c, now)
    ensures Open(e, now) ==>
      var r := e.rules[i];
      Decides(lib, if e.flagKey.Some? then e.flagKey.value else "",
        if r.enabled.Some? then r.enabled.value else e.enabled,
        if r.blacklist.Some? then r.blacklist else e.blacklist,
        if r.whitelist.Some? then r.whitelist else e.whitelist,
        if r.percentage.Some? then r.percentage else e.percentage,
        c.user, Evaluate(lib, e, c, now))
  {
    var r := e.rules[i];
    OpenIs(e, now);
    EvaluateByWinner(lib, e, c, now, i);
    OverlayDecides(lib, e.flagKey, if r.enabled.Some? then r.enabled.value else e.enabled,
      OrElse(r.blacklist, e.blacklist), OrElse(r.whitelist, e.whitelist), OrElse(r.percentage, e.percentage), c.user);
  }

  /** Where no rule matches, the flag's own settings decide in the same way. */
  lemma FlagDecides(lib: Library, e: Entry, c: Context, now: string)
    requires NoneMatches(lib, e.rules, c)
    ensures !Open(e, now) ==> !Evaluate(lib, e, c, now)
    ensures Open(e, now) ==>
      Decides(lib, if e.flagKey.Some? then e.flagKey.value else "", e.enabled, e.blacklist, e.whitelist,
        e.percentage, c.user, Evaluate(lib, e, c, now))
  {
    OpenIs(e, now);
    EvaluateByFlag(lib, e, c, now);
    OverlayDecides(lib, e.flagKey, e.enabled, e.blacklist, e.whitelist, e.percentage, c.user);
  }

  /** For instance, a flag with the whitelist of user 7 alone is on for 7 and for nobody else. */
  lemma WhitelistKeepsOut(lib: Library, user: string, now: string)
    ensures var e := Entry(None, true, None, Some(Items(["7"])), None, "", "", []);
      Evaluate(lib, e, Context(Some(user), None, None, None), now) <==> user == "7"
  {
    var e := Entry(None, true, None, Some(Items(["7"])), None, "", "", []);
    FlagDecides(lib, e, Context(Some(user), None, None, None), now);
  }

  /** The scopes from the strongest to the weakest. */
  const SCOPES: seq<Scope> := [Environment, Kb, User, Tenant, Global, Unknown]

  ghost predicate Stronger(s: Scope, t: Scope) {
    exists i, j :: 0 <= i < j < |SCOPES| && SCOPES[i] == s && SCOPES[j] == t
  }

  /** The rule is for this context: it is global, or for its tenant, user, knowledge base or, up
      to case, its environment. */
  predicate IsFor(lib: Library, r: Rule, c: Context) {
    r.scope == Global ||
    (r.scope == Tenant && c.tenant == Some(r.scopeValue)) ||
    (r.scope == User && c.user == Some(r.scopeValue)) ||
    (r.scope == Kb && c.kb == Some(r.scopeValue)) ||
    (r.scope == Environment && c.environment.Some? && lib.lower(c.environment.value) == lib.lower(r.scopeValue))
  }

  lemma PlaceOf(s: Scope) returns (i: nat)
    ensures i < |SCOPES| && SCOPES[i] == s && Priority(s) == 5 - i
    ensures forall j :: 0 <= j < |SCOPES| && SCOPES[j] == s ==> j == i
  {
    i := match s
      case Environment => 0
      case Kb => 1
      case User => 2
      case Tenant => 3
      case Global => 4
      case Unknown => 5;
  }

  lemma PriorityIs(s: Scope, t: Scope)
    ensures Priority(s) > Priority(t) <==> Stronger(s, t)
    ensures Priority(s) == Priority(t) <==> s == t
  {
    var i := PlaceOf(s);
    var j := PlaceOf(t);
    assert SCOPES[i] == s && SCOPES[j] == t;
  }

  /** A rule wins exactly when it is for the context and every other rule for it is of a weaker
      scope, or of the same scope and later in the list. */
  lemma WinnerIs(lib: Library, rules: seq<Rule>, c: Context, i: nat)
    requires i < |rules|
    ensures Winner(lib, rules, c, i) <==>
      IsFor(lib, rules[i], c) &&
      forall j :: 0 <= j < |rules| && IsFor(lib, rules[j], c) ==>
        Stronger(rules[i].scope, rules[j].scope) || (rules[j].scope == rules[i].scope && i <= j)
  {
    forall j | 0 <= j < |rules|
      ensures Priority(rules[i].scope) > Priority(rules[j].scope) <==> Stronger(rules[i].scope, rules[j].scope)
      ensures Priority(rules[i].scope) == Priority(rules[j].scope) <==> rules[i].scope == rules[j].scope
      ensures ScopeMatches(lib, rules[j], c) <==> IsFor(lib, rules[j], c)
    {
      PriorityIs(rules[i].scope, rules[j].scope);
    }
  }

  ghost predicate ScopesDiffer(lib: Library, rules: seq<Rule>, c: Context) {
    forall i, j :: 0 <= i < j < |rules| && ScopeMatches(lib, rules[i], c) && ScopeMatches(lib, rules[j], c)
      ==> rules[i].scope != rules[j].scope
  }

  /** Reordering rules does not matter while no two matching rules share a scope. */
  lemma OrderIrrelevant(lib: Library, e: Entry, rules: seq<Rule>, c: Context, now: string)
    requires multiset(rules) == multiset(e.rules)
    requires ScopesDiffer(lib, e.rules, c)
    ensures Evaluate(lib, e.(rules := rules), c, now) == Evaluate(lib, e, c, now)
  {
    var i := FirstMatchIsWinner(lib, e.rules, c);
    var j := FirstMatchIsWinner(lib, rules, c);
    var a, b := FirstMatch(lib, SortRules(e.rules), c), FirstMatch(lib, SortRules(rules), c);
    forall r ensures r in rules <==> r in e.rules {
      assert r in rules <==> r in multiset(rules);
      assert r in e.rules <==> r in multiset(e.rules);
    }
    if a.Some? {
      assert a.value in rules;
      var i' :| 0 <= i' < |rules| && rules[i'] == a.value;
      assert ScopeMatches(lib, rules[i'], c);
      assert b.Some? && b.value in e.rules;
      var j' :| 0 <= j' < |e.rules| && e.rules[j'] == b.value;
      assert e.rules[j'].scope == e.rules[i].scope;
      assert j' == i;
    } else {
      assert forall k :: 0 <= k < |rules| ==> rules[k] in e.rules;
    }
    assert a == b;
  }

  // ---- blacklists ----------------------------------------------------------------------

  /** A user on the blacklist in force for the winning rule, or on the flag's when no rule
      matches, always gets false. */
  lemma BlacklistedIsDenied(lib: Library, e: Entry, c: Context, now: string, i: nat)
    requires if i < |e.rules|
             then Winner(lib, e.rules, c, i) && Listed(lib, OrElse(e.rules[i].blacklist, e.blacklist), c.user)
             else NoneMatches(lib, e.rules, c) && Listed(lib, e.blacklist, c.user)
    ensures !Evaluate(lib, e, c, now)
  {
    if i < |e.rules| {
      EvaluateByWinner(lib, e, c, now, i);
    } else {
      EvaluateByFlag(lib, e, c, now);
    }
  }

  /** A rule's own blacklist replaces the flag's.  A user on the flag's blacklist is denied by
      the rule whatever its other settings exactly when the rule has no blacklist, or names
      the user again. */
  lemma FlagBlacklistHoldsIff(lib: Library, e: Entry, r: Rule, user: string)
    requires Listed(lib, e.blacklist, Some(user))
    ensures (forall enabled, wl, pct ::
               !ResolveWithOrder(lib, e, r.(enabled := enabled, whitelist := wl, percentage := pct), Some(user)))
       <==> r.blacklist == None || Listed(lib, r.blacklist, Some(user))
  {
    if r.blacklist.Some? && !Listed(lib, r.blacklist, Some(user)) {
      var open := r.(enabled := Some(true), whitelist := Some(Items([user])), percentage := None);
      assert ResolveWithOrder(lib, e, open, Some(user));
    }
  }

  /** So a blacklisted user can be let in: a global rule with an empty blacklist suffices. */
  lemma FlagBlacklistCanBeLifted(lib: Library, c: Context, now: string)
    requires c.user == Some("7")
    ensures var e := Entry(None, true, Some(Items(["7"])), None, None, "", "",
                           [Rule(Global, "", None, Some(Items([])), None, None)]);
      Listed(lib, e.blacklist, c.user) && Evaluate(lib, e, c, now)
  {
    var e := Entry(None, true, Some(Items(["7"])), None, None, "", "",
                   [Rule(Global, "", None, Some(Items([])), None, None)]);
    EvaluateByWinner(lib, e, c, now, 0);
  }

  // ---- percentages ---------------------------------------------------------------------

  lemma ResolveRaised(lib: Library, e: Entry, e': Entry, r: Rule, user: Option<string>, p: int, q: int)
    requires p <= q && r.percentage == Some(p)
    requires e' == e.(rules := e'.rules)
    requires ResolveWithOrder(lib, e, r, user)
    ensures ResolveWithOrder(lib, e', r.(percentage := Some(q)), user)
  {
  }

  lemma WinnerKept(lib: Library, rules: seq<Rule>, rules': seq<Rule>, c: Context, k: nat)
    requires |rules'| == |rules| && Winner(lib, rules, c, k)
    requires forall j :: 0 <= j < |rules| ==>
      rules'[j].scope == rules[j].scope && rules'[j].scopeValue == rules[j].scopeValue
    ensures Winner(lib, rules', c, k)
  {
    assert forall j :: 0 <= j < |rules| ==> ScopeMatches(lib, rules'[j], c) == ScopeMatches(lib, rules[j], c);
  }

  /** Raising the percentage of a rule never turns the flag off for anyone. */
  lemma RaisingKeepsOn(lib: Library, e: Entry, c: Context, now: string, i: nat, p: int, q: int)
    requires i < |e.rules| && p <= q
    requires e.rules[i].percentage == Some(p)
    requires Evaluate(lib, e, c, now)
    ensures Evaluate(lib, e.(rules := e.rules[i := e.rules[i].(percentage := Some(q))]), c, now)
  {
    var rules' := e.rules[i := e.rules[i].(percentage := Some(q))];
    var e' := e.(rules := rules');
    var k := WinnerOrNone(lib, e.rules, c);
    if Winner(lib, e.rules, c, k) {
      EvaluateByWinner(lib, e, c, now, k);
      WinnerKept(lib, e.rules, rules', c, k);
      EvaluateByWinner(lib, e', c, now, k);
      if k == i {
        ResolveRaised(lib, e, e', e.rules[i], c.user, p, q);
      }
    } else {
      EvaluateByFlag(lib, e, c, now);
      assert NoneMatches(lib, rules', c);
      EvaluateByFlag(lib, e', c, now);
    }
  }

  /** Nor does raising the flag's own percentage, which the rules without one take over. */
  lemma RaisingFlagKeepsOn(lib: Library, e: Entry, c: Context, now: string, p: int, q: int)
    requires e.percentage == Some(p) && p <= q
    requires Evaluate(lib, e, c, now)
    ensures Evaluate(lib, e.(percentage := Some(q)), c, now)
  {
    var e' := e.(percentage := Some(q));
    var k := WinnerOrNone(lib, e.rules, c);
    if Winner(lib, e.rules, c, k) {
      EvaluateByWinner(lib, e, c, now, k);
      EvaluateByWinner(lib, e', c, now, k);
    } else {
      EvaluateByFlag(lib, e, c, now);
      EvaluateByFlag(lib, e', c, now);
    }
  }

  /** Entries without a flag key share their buckets. */
  lemma RolloutsAreNested(lib: Library, a: Entry, b: Entry, user: string)
    requires a.flagKey == None && b.flagKey == None
    requires a.percentage.Some? && b.percentage.Some? && a.percentage.value <= b.percentage.value
    requires b.enabled && b.blacklist == None && a.whitelist == None && b.whitelist == None
    requires ResolveFlagLevel(lib, a, Some(user))
    ensures ResolveFlagLevel(lib, b, Some(user))
  {
    assert Bucket(lib, a.flagKey, user) == Bucket(lib, b.flagKey, user);
  }
}
