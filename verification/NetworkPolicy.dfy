/** The network-policy compiler of docker/plugin-runner/app.py: a configuration is compiled to
    an ordered list of iptables commands, which the kernel reads by first match. */
module NetworkPolicy {
  import opened Common
  import opened Text

  // ---- packets and rules ---------------------------------------------------------------

  datatype Protocol = Tcp | Udp | OtherProtocol

  /** An outgoing IPv4 packet. */
  datatype Packet = Packet(dst: nat, protocol: Protocol, dport: nat)

  /** An IPv4 network: the addresses that share the first `bits` bits with `base`. */
  datatype Cidr = Cidr(base: nat, bits: nat)

  function Pow2(n: nat): (r: nat)
    ensures r > 0
  {
    if n == 0 then 1 else 2 * Pow2(n - 1)
  }

  predicate InCidr(a: nat, c: Cidr) {
    var host := if c.bits <= 32 then Pow2(32 - c.bits) else 1;
    a / host == c.base / host
  }

  datatype Jump = ACCEPT | DROP

  datatype Match = Dest(net: Cidr) | DestPort(protocol: Protocol, port: nat) | Any

  datatype Rule = Rule(selector: Match, jump: Jump)

  predicate Matches(m: Match, p: Packet) {
    match m
    case Dest(net) => InCidr(p.dst, net)
    case DestPort(protocol, port) => p.protocol == protocol && p.dport == port
    case Any => true
  }

  /** The OUTPUT chain: the first matching rule decides, and the default policy accepts. */
  function Verdict(rules: seq<Rule>, p: Packet): Jump {
    if rules == [] then ACCEPT
    else if Matches(rules[0].selector, p) then rules[0].jump
    else Verdict(rules[1..], p)
  }

  // ---- configuration -------------------------------------------------------------------

  /** What the source asks of `ipaddress.ip_network` and of its hostname pattern. */
  datatype Syntax = Syntax(network: string -> Option<Cidr>, hostname: string -> bool)

  datatype Config = Config(allowed: seq<string>, blocked: seq<string>)

  const GLOBAL_BLOCKED_DOMAINS: seq<string> :=
    ["169.254.169.254", "metadata.google.internal", "169.254.169.254.nip.io"]

  const LOOPBACK := Cidr(127 * 0x1000000, 8)

  function StripDots(s: string): string {
    TrimRight(s, c => c == '.')
  }

  /** `_normalize_network_target`; `None` is the 400 answer. */
  function NormalizeTarget(syntax: Syntax, value: string): Option<string> {
    var target := Trim(value, PySpace);
    if target == "" then None
    else if syntax.network(target).Some? then Some(target)
    else if !syntax.hostname(target) then None
    else Some(Lower(StripDots(target)))
  }

  /** The target of a list entry: a leading `*.` is dropped before normalization. */
  function EntryTarget(syntax: Syntax, entry: string): Option<string> {
    NormalizeTarget(syntax, if "*." <= entry then entry[2..] else entry)
  }

  /** One line of the entrypoint script: a rule, or a loop that emits one rule for each
      address that the name resolves to when the container starts. */
  datatype Command = Direct(rule: Rule) | PerAddress(host: string, jump: Jump)

  /** `_net_rule`. */
  function NetRule(syntax: Syntax, target: string, jump: Jump): Command {
    match syntax.network(target)
    case Some(net) => Direct(Rule(Dest(net), jump))
    case None => PerAddress(target, jump)
  }

  /** The rules that a command adds, for a resolver that is fixed while the script runs. */
  function Emitted(cmd: Command, resolve: string -> seq<nat>): seq<Rule> {
    match cmd
    case Direct(rule) => [rule]
    case PerAddress(host, jump) =>
      var ips := resolve(host);
      seq(|ips|, i requires 0 <= i < |ips| => Rule(Dest(Cidr(ips[i], 32)), jump))
  }

  function Script(cmds: seq<Command>, resolve: string -> seq<nat>): seq<Rule> {
    if cmds == [] then [] else Emitted(cmds[0], resolve) + Script(cmds[1..], resolve)
  }

  /** The commands for a list of entries; `None` when one of them is invalid. */
  function Compile(syntax: Syntax, entries: seq<string>, jump: Jump): Option<seq<Command>> {
    if entries == [] then Some([])
    else
      var target, before := EntryTarget(syntax, entries[|entries| - 1]),
        Compile(syntax, entries[..|entries| - 1], jump);
      if target.Some? && before.Some? then Some(before.value + [NetRule(syntax, target.value, jump)]) else None
  }

  const ALLOW_HEAD: seq<Command> :=
    [Direct(Rule(Dest(LOOPBACK), ACCEPT)), Direct(Rule(DestPort(Tcp, 53), ACCEPT)),
      Direct(Rule(DestPort(Udp, 53), ACCEPT))]

  const DROP_REST: seq<Command> := [Direct(Rule(Any, DROP))]

  /** Loopback, DNS and the allowed targets pass; everything else is dropped. */
  function AllowPart(config: Config, allow: seq<Command>): seq<Command> {
    if config.allowed == [] then [] else ALLOW_HEAD + allow + DROP_REST
  }

  /** The compiled command list, for any list of global blocks. */
  function CommandsFor(globals: seq<string>, syntax: Syntax, config: Config): Option<seq<Command>> {
    var head, allow, block :=
      Compile(syntax, globals, DROP), Compile(syntax, config.allowed, ACCEPT), Compile(syntax, config.blocked, DROP);
    if head.Some? && allow.Some? && block.Some?
    then Some(head.value + AllowPart(config, allow.value) + block.value) else None
  }

  function Commands(syntax: Syntax, config: Config): Option<seq<Command>> {
    CommandsFor(GLOBAL_BLOCKED_DOMAINS, syntax, config)
  }

  method CompileList(syntax: Syntax, entries: seq<string>, jump: Jump, commands: seq<Command>)
    returns (r: Option<seq<Command>>)
    ensures r.Some? <==> Compile(syntax, entries, jump).Some?
    ensures r.Some? ==> r.value == commands + Compile(syntax, entries, jump).value
  {
    var out := commands;
    for i := 0 to |entries|
      invariant Compile(syntax, entries[..i], jump).Some?
      invariant out == commands + Compile(syntax, entries[..i], jump).value
    {
      assert entries[..i + 1][..i] == entries[..i];
      var target := EntryTarget(syntax, entries[i]);
      if target.None? {
        CompileFails(syntax, entries, jump, i + 1);
        return None;
      }
      out := out + [NetRule(syntax, target.value, jump)];
    }
    assert entries[..|entries|] == entries;
    return Some(out);
  }

  lemma {:induction false} CompileFails(syntax: Syntax, entries: seq<string>, jump: Jump, n: nat)
    requires n <= |entries| && Compile(syntax, entries[..n], jump) == None
    ensures Compile(syntax, entries, jump) == None
    decreases |entries|
  {
    if n == |entries| {
      assert entries[..n] == entries;
    } else {
      assert entries[..|entries| - 1][..n] == entries[..n];
      CompileFails(syntax, entries[..|entries| - 1], jump, n);
    }
  }

  lemma AllowPartIs(config: Config, head: seq<Command>, allow: seq<Command>)
    requires config.allowed != []
    ensures head + ALLOW_HEAD + allow + DROP_REST == head + AllowPart(config, allow)
  {
    ConcatAssociates(head + ALLOW_HEAD, allow, DROP_REST);
    ConcatAssociates(head, ALLOW_HEAD, allow + DROP_REST);
    ConcatAssociates(ALLOW_HEAD, allow, DROP_REST);
  }

  /** `_build_network_commands`. */
  method BuildNetworkCommands(syntax: Syntax, config: Config) returns (r: Option<seq<Command>>)
    ensures r == Commands(syntax, config)
  {
    r := BuildFor(GLOBAL_BLOCKED_DOMAINS, syntax, config);
  }

  method BuildFor(globals: seq<string>, syntax: Syntax, config: Config) returns (r: Option<seq<Command>>)
    ensures r == CommandsFor(globals, syntax, config)
  {
    r := CompileList(syntax, globals, DROP, []);
    if r == None {
      return;
    }
    assert r.value == Compile(syntax, globals, DROP).value;
    if config.allowed != [] {
      ghost var head, allow := r.value, Compile(syntax, config.allowed, ACCEPT);
      r := CompileList(syntax, config.allowed, ACCEPT, r.value + ALLOW_HEAD);
      if r == None {
        return;
      }
      r := Some(r.value + DROP_REST);
      AllowPartIs(config, head, allow.value);
    } else {
      assert r.value + AllowPart(config, []) == r.value;
    }
    assert r.value + [] == r.value;
    if config.blocked != [] {
      r := CompileList(syntax, config.blocked, DROP, r.value);
    }
  }

  // ---- the policy ----------------------------------------------------------------------

  /** The packet goes to an address of the entry's target. */
  predicate Covers(syntax: Syntax, resolve: string -> seq<nat>, entry: string, p: Packet) {
    var target := EntryTarget(syntax, entry);
    target.Some? &&
    match syntax.network(target.value)
    case Some(net) => InCidr(p.dst, net)
    case None => p.dst in resolve(target.value)
  }

  predicate CoveredBy(syntax: Syntax, resolve: string -> seq<nat>, entries: seq<string>, p: Packet) {
    exists i :: 0 <= i < |entries| && Covers(syntax, resolve, entries[i], p)
  }

  predicate Exempt(p: Packet) {
    InCidr(p.dst, LOOPBACK) || (p.dport == 53 && p.protocol in {Tcp, Udp})
  }

  /** What the configuration means, without mentioning rules or their order. */
  function PolicyFor(globals: seq<string>, syntax: Syntax, resolve: string -> seq<nat>, config: Config,
      p: Packet): Jump {
    if CoveredBy(syntax, resolve, globals, p) then DROP
    else if config.allowed != [] then
      if Exempt(p) || CoveredBy(syntax, resolve, config.allowed, p) then ACCEPT else DROP
    else if CoveredBy(syntax, resolve, config.blocked, p) then DROP
    else ACCEPT
  }

  function Policy(syntax: Syntax, resolve: string -> seq<nat>, config: Config, p: Packet): Jump {
    PolicyFor(GLOBAL_BLOCKED_DOMAINS, syntax, resolve, config, p)
  }

  /** No rule of the list matches the packet. */
  predicate Misses(rules: seq<Rule>, p: Packet) {
    forall i :: 0 <= i < |rules| ==> !Matches(rules[i].selector, p)
  }

  lemma {:induction false} VerdictConcat(a: seq<Rule>, b: seq<Rule>, p: Packet)
    ensures Verdict(a + b, p) == if Misses(a, p) then Verdict(b, p) else Verdict(a, p)
  {
    if a == [] {
      assert a + b == b;
    } else {
      assert (a + b)[1..] == a[1..] + b;
      VerdictConcat(a[1..], b, p);
      if Misses(a[1..], p) && !Matches(a[0].selector, p) {
        assert forall i :: 1 <= i < |a| ==> a[i] == a[1..][i - 1];
      }
      if Misses(a, p) {
        assert forall i :: 0 <= i < |a[1..]| ==> a[1..][i] == a[i + 1];
      }
    }
  }

  predicate Uniform(rules: seq<Rule>, jump: Jump) {
    forall i :: 0 <= i < |rules| ==> rules[i].jump == jump
  }

  lemma {:induction false} VerdictUniform(rules: seq<Rule>, jump: Jump, p: Packet)
    requires Uniform(rules, jump)
    requires !Misses(rules, p)
    ensures Verdict(rules, p) == jump
  {
    if !Matches(rules[0].selector, p) {
      assert forall i :: 1 <= i < |rules| ==> rules[i] == rules[1..][i - 1];
      VerdictUniform(rules[1..], jump, p);
    }
  }

  lemma {:induction false} ScriptConcat(a: seq<Command>, b: seq<Command>, resolve: string -> seq<nat>)
    ensures Script(a + b, resolve) == Script(a, resolve) + Script(b, resolve)
  {
    if a == [] {
      assert a + b == b;
    } else {
      assert (a + b)[1..] == a[1..] + b;
      ScriptConcat(a[1..], b, resolve);
    }
  }

  lemma ScriptOfThree(a: seq<Command>, b: seq<Command>, c: seq<Command>, resolve: string -> seq<nat>)
    ensures Script(a + b + c, resolve) == Script(a, resolve) + (Script(b, resolve) + Script(c, resolve))
  {
    ScriptConcat(a + b, c, resolve);
    ScriptConcat(a, b, resolve);
    ConcatAssociates(Script(a, resolve), Script(b, resolve), Script(c, resolve));
  }

  /** An address is in its own /32. */
  lemma HostNetwork(a: nat, b: nat)
    ensures InCidr(a, Cidr(b, 32)) <==> a == b
  {
    assert Pow2(0) == 1;
  }

  lemma EmittedCovers(syntax: Syntax, resolve: string -> seq<nat>, entry: string, jump: Jump, p: Packet)
    requires EntryTarget(syntax, entry).Some?
    ensures Uniform(Emitted(NetRule(syntax, EntryTarget(syntax, entry).value, jump), resolve), jump)
    ensures Misses(Emitted(NetRule(syntax, EntryTarget(syntax, entry).value, jump), resolve), p)
       <==> !Covers(syntax, resolve, entry, p)
  {
    var target := EntryTarget(syntax, entry).value;
    var rules := Emitted(NetRule(syntax, target, jump), resolve);
    if syntax.network(target).None? {
      var ips := resolve(target);
      forall i | 0 <= i < |ips| ensures Matches(rules[i].selector, p) <==> p.dst == ips[i] {
        HostNetwork(p.dst, ips[i]);
      }
    } else {
      assert Matches(rules[0].selector, p) <==> Covers(syntax, resolve, entry, p);
    }
  }

  /** A compiled list matches exactly the packets that one of its entries covers. */
  lemma {:induction false} CompiledList(syntax: Syntax, resolve: string -> seq<nat>, entries: seq<string>, jump: Jump,
      p: Packet)
    requires Compile(syntax, entries, jump).Some?
    ensures Uniform(Script(Compile(syntax, entries, jump).value, resolve), jump)
    ensures Misses(Script(Compile(syntax, entries, jump).value, resolve), p)
       <==> !CoveredBy(syntax, resolve, entries, p)
  {
    if entries != [] {
      var init, last := entries[..|entries| - 1], entries[|entries| - 1];
      var before := Compile(syntax, init, jump).value;
      CompiledList(syntax, resolve, init, jump, p);
      EmittedCovers(syntax, resolve, last, jump, p);
      var cmd := NetRule(syntax, EntryTarget(syntax, last).value, jump);
      ScriptSnoc(before, cmd, resolve);
      MissesConcat(Script(before, resolve), Emitted(cmd, resolve), p);
      CoveredSnoc(syntax, resolve, entries, p);
    }
  }

  lemma ScriptSnoc(cmds: seq<Command>, cmd: Command, resolve: string -> seq<nat>)
    ensures Script(cmds + [cmd], resolve) == Script(cmds, resolve) + Emitted(cmd, resolve)
  {
    ScriptConcat(cmds, [cmd], resolve);
    assert Script([cmd], resolve) == Emitted(cmd, resolve) + Script([], resolve);
  }

  lemma MissesConcat(a: seq<Rule>, b: seq<Rule>, p: Packet)
    ensures Misses(a + b, p) <==> Misses(a, p) && Misses(b, p)
  {
    if Misses(a + b, p) {
      assert forall i :: 0 <= i < |a| ==> a[i] == (a + b)[i];
      assert forall i :: 0 <= i < |b| ==> b[i] == (a + b)[|a| + i];
    }
  }

  lemma CoveredSnoc(syntax: Syntax, resolve: string -> seq<nat>, entries: seq<string>, p: Packet)
    requires entries != []
    ensures CoveredBy(syntax, resolve, entries, p)
       <==> (CoveredBy(syntax, resolve, entries[..|entries| - 1], p) ||
             Covers(syntax, resolve, entries[|entries| - 1], p))
  {
    var init := entries[..|entries| - 1];
    if CoveredBy(syntax, resolve, init, p) {
      var i :| 0 <= i < |init| && Covers(syntax, resolve, init[i], p);
      assert entries[i] == init[i];
    }
    if CoveredBy(syntax, resolve, entries, p) {
      var i :| 0 <= i < |entries| && Covers(syntax, resolve, entries[i], p);
      assert i < |init| ==> init[i] == entries[i];
    }
  }

  /** A list's verdict followed by more rules. */
  lemma ListThen(syntax: Syntax, resolve: string -> seq<nat>, entries: seq<string>, jump: Jump, rest: seq<Rule>,
      p: Packet)
    requires Compile(syntax, entries, jump).Some?
    ensures Verdict(Script(Compile(syntax, entries, jump).value, resolve) + rest, p)
         == if CoveredBy(syntax, resolve, entries, p) then jump else Verdict(rest, p)
  {
    var rules := Script(Compile(syntax, entries, jump).value, resolve);
    CompiledList(syntax, resolve, entries, jump, p);
    VerdictConcat(rules, rest, p);
    if !Misses(rules, p) {
      VerdictUniform(rules, jump, p);
    }
  }

  lemma AllowHeadRules(resolve: string -> seq<nat>)
    ensures Script(ALLOW_HEAD, resolve)
         == [Rule(Dest(LOOPBACK), ACCEPT), Rule(DestPort(Tcp, 53), ACCEPT), Rule(DestPort(Udp, 53), ACCEPT)]
  {
    var a, b, c := Rule(Dest(LOOPBACK), ACCEPT), Rule(DestPort(Tcp, 53), ACCEPT), Rule(DestPort(Udp, 53), ACCEPT);
    assert ALLOW_HEAD == [] + [Direct(a)] + [Direct(b)] + [Direct(c)];
    ScriptSnoc([], Direct(a), resolve);
    ScriptSnoc([] + [Direct(a)], Direct(b), resolve);
    ScriptSnoc([] + [Direct(a)] + [Direct(b)], Direct(c), resolve);
  }

  lemma AllowHeadThen(rest: seq<Rule>, resolve: string -> seq<nat>, p: Packet)
    ensures Verdict(Script(ALLOW_HEAD, resolve) + rest, p) == if Exempt(p) then ACCEPT else Verdict(rest, p)
  {
    AllowHeadRules(resolve);
    var rules := Script(ALLOW_HEAD, resolve);
    VerdictConcat(rules, rest, p);
    assert Exempt(p) <==>
      Matches(rules[0].selector, p) || Matches(rules[1].selector, p) || Matches(rules[2].selector, p);
    if Exempt(p) {
      assert Uniform(rules, ACCEPT) && !Misses(rules, p);
      VerdictUniform(rules, ACCEPT, p);
    }
  }

  lemma DropRestThen(rest: seq<Rule>, resolve: string -> seq<nat>, p: Packet)
    ensures Verdict(Script(DROP_REST, resolve) + rest, p) == DROP
  {
    assert Script(DROP_REST, resolve) == [Rule(Any, DROP)] + Script([], resolve);
  }

  /** The allow part drops everything that it does not accept, whatever rules follow. */
  lemma AllowPartThen(syntax: Syntax, resolve: string -> seq<nat>, config: Config, rest: seq<Rule>, p: Packet)
    requires config.allowed != [] && Compile(syntax, config.allowed, ACCEPT).Some?
    ensures Verdict(Script(AllowPart(config, Compile(syntax, config.allowed, ACCEPT).value), resolve) + rest, p)
         == if Exempt(p) || CoveredBy(syntax, resolve, config.allowed, p) then ACCEPT else DROP
  {
    var allow := Compile(syntax, config.allowed, ACCEPT).value;
    ScriptOfThree(ALLOW_HEAD, allow, DROP_REST, resolve);
    var h, a, d := Script(ALLOW_HEAD, resolve), Script(allow, resolve), Script(DROP_REST, resolve);
    assert h + (a + d) + rest == h + (a + (d + rest));
    AllowHeadThen(a + (d + rest), resolve, p);
    ListThen(syntax, resolve, config.allowed, ACCEPT, d + rest, p);
    DropRestThen(rest, resolve, p);
  }

  lemma FirstMatchIsPolicyFor(globals: seq<string>, syntax: Syntax, resolve: string -> seq<nat>, config: Config,
      p: Packet)
    requires CommandsFor(globals, syntax, config).Some?
    ensures Verdict(Script(CommandsFor(globals, syntax, config).value, resolve), p)
         == PolicyFor(globals, syntax, resolve, config, p)
  {
    var head, part, tail :=
      Compile(syntax, globals, DROP).value,
      AllowPart(config, Compile(syntax, config.allowed, ACCEPT).value),
      Compile(syntax, config.blocked, DROP).value;
    ScriptOfThree(head, part, tail, resolve);
    var a, t := Script(part, resolve), Script(tail, resolve);
    ListThen(syntax, resolve, globals, DROP, a + t, p);
    if config.allowed == [] {
      assert a + t == t + [];
      ListThen(syntax, resolve, config.blocked, DROP, [], p);
    } else {
      AllowPartThen(syntax, resolve, config, t, p);
    }
  }

  /** The first-match meaning of the generated list is the policy, for every configuration
      that compiles, every resolver and every packet. */
  lemma FirstMatchIsPolicy(syntax: Syntax, resolve: string -> seq<nat>, config: Config, p: Packet)
    requires Commands(syntax, config).Some?
    ensures Verdict(Script(Commands(syntax, config).value, resolve), p) == Policy(syntax, resolve, config, p)
  {
    FirstMatchIsPolicyFor(GLOBAL_BLOCKED_DOMAINS, syntax, resolve, config, p);
  }

  // ---- the policy in numbers -----------------------------------------------------------

  /** The `n` lowest bits of a number, the highest of them first. */
  function Bits(a: nat, n: nat): (r: seq<bool>)
    ensures |r| == n
  {
    if n == 0 then [] else Bits(a / 2, n - 1) + [a % 2 == 1]
  }

  function Shifted(a: nat, m: nat): nat {
    if m == 0 then a else Shifted(a / 2, m - 1)
  }

  lemma {:induction false} UniqueQuotient(q: nat, e: nat, r: nat, s: nat, d: nat)
    requires r < d && s < d && q * d + r == e * d + s
    ensures q == e
  {
    if q > 0 && e > 0 {
      assert q * d == (q - 1) * d + d && e * d == (e - 1) * d + d;
      UniqueQuotient(q - 1, e - 1, r, s, d);
    } else {
      assert q > 0 ==> q * d == (q - 1) * d + d;
      assert e > 0 ==> e * d == (e - 1) * d + d;
    }
  }

  lemma {:induction false} ShiftRemainder(a: nat, m: nat) returns (r: nat)
    ensures r < Pow2(m) && a == Shifted(a, m) * Pow2(m) + r
  {
    if m == 0 {
      r := 0;
    } else {
      var half := ShiftRemainder(a / 2, m - 1);
      r := 2 * half + a % 2;
      Doubled(Shifted(a, m), Pow2(m - 1));
    }
  }

  lemma Doubled(x: nat, y: nat)
    ensures x * (2 * y) == 2 * (x * y)
  {
  }

  lemma ShiftDivides(a: nat, m: nat)
    ensures Shifted(a, m) == a / Pow2(m)
  {
    var r := ShiftRemainder(a, m);
    QuotientIs(a, Pow2(m), Shifted(a, m), r);
  }

  lemma QuotientIs(a: nat, d: nat, q: nat, r: nat)
    requires r < d && a == q * d + r
    ensures a / d == q
  {
    UniqueQuotient(a / d, q, a % d, r, d);
  }

  lemma {:induction false} LeadingBits(a: nat, n: nat, k: nat)
    requires k <= n
    ensures Bits(a, n)[..k] == Bits(Shifted(a, n - k), k)
    ensures a < Pow2(n) ==> Shifted(a, n - k) < Pow2(k)
  {
    if k < n {
      LeadingBits(a / 2, n - 1, k);
      assert Bits(a, n)[..k] == Bits(a / 2, n - 1)[..k];
    } else {
      assert Bits(a, n)[..k] == Bits(a, n);
    }
  }

  lemma {:induction false} BitsInjective(a: nat, b: nat, n: nat)
    requires a < Pow2(n) && b < Pow2(n) && Bits(a, n) == Bits(b, n)
    ensures a == b
  {
    if n > 0 {
      var s, t := Bits(a, n), Bits(b, n);
      assert s[..n - 1] == Bits(a / 2, n - 1) && t[..n - 1] == Bits(b / 2, n - 1);
      assert s[n - 1] == (a % 2 == 1) && t[n - 1] == (b % 2 == 1);
      BitsInjective(a / 2, b / 2, n - 1);
    }
  }

  lemma Pow2Values()
    ensures Pow2(24) == 0x1000000 && Pow2(32) == 0x1_0000_0000
  {
    assert Pow2(8) == 256;
    assert Pow2(16) == 256 * Pow2(8);
    assert Pow2(24) == 256 * Pow2(16);
    assert Pow2(32) == 256 * Pow2(24);
  }

  /** Membership in a network is agreement of the first `k` of 32 bits. */
  lemma NetworkIsPrefix(a: nat, base: nat, k: nat)
    requires a < 0x1_0000_0000 && base < 0x1_0000_0000 && k <= 32
    ensures InCidr(a, Cidr(base, k)) <==> Bits(a, 32)[..k] == Bits(base, 32)[..k]
  {
    Pow2Values();
    LeadingBits(a, 32, k);
    LeadingBits(base, 32, k);
    ShiftDivides(a, 32 - k);
    ShiftDivides(base, 32 - k);
    if Bits(a, 32)[..k] == Bits(base, 32)[..k] {
      BitsInjective(Shifted(a, 32 - k), Shifted(base, 32 - k), k);
    }
  }

  lemma LoopbackRange(a: nat)
    ensures InCidr(a, LOOPBACK) <==> 0x7F000000 <= a <= 0x7FFFFFFF
  {
    Pow2Values();
  }

  /** What an entry covers: for a network, the addresses that share its leading bits; for a
      name, the addresses that it resolves to. */
  lemma CoversIs(syntax: Syntax, resolve: string -> seq<nat>, entry: string, p: Packet)
    ensures EntryTarget(syntax, entry) == None ==> !Covers(syntax, resolve, entry, p)
    ensures EntryTarget(syntax, entry).Some? && syntax.network(EntryTarget(syntax, entry).value) == None ==>
      (Covers(syntax, resolve, entry, p) <==> p.dst in resolve(EntryTarget(syntax, entry).value))
    ensures EntryTarget(syntax, entry).Some? && syntax.network(EntryTarget(syntax, entry).value).Some? ==>
      var net := syntax.network(EntryTarget(syntax, entry).value).value;
      p.dst < 0x1_0000_0000 && net.base < 0x1_0000_0000 && net.bits <= 32 ==>
        (Covers(syntax, resolve, entry, p) <==> Bits(p.dst, 32)[..net.bits] == Bits(net.base, 32)[..net.bits])
  {
    var target := EntryTarget(syntax, entry);
    if target.Some? && syntax.network(target.value).Some? {
      var net := syntax.network(target.value).value;
      if p.dst < 0x1_0000_0000 && net.base < 0x1_0000_0000 && net.bits <= 32 {
        NetworkIsPrefix(p.dst, net.base, net.bits);
      }
    }
  }

  /** The target of an entry `left core right` or `*.left core right`, where `left` and `right`
      are blank and `core`, unless it is empty,
      is trimmed: a network is taken as it is, a name in lower case and
      without its final dots, anything else is refused, and so is a blank entry. */
  lemma TargetIs(syntax: Syntax, entry: string, left: string, core: string, right: string, name: string)
    requires AllSpace(left, PySpace) && AllSpace(right, PySpace) && (core == [] || Trimmed(core, PySpace))
    requires entry == "*." + left + core + right || (entry == left + core + right && !("*." <= entry))
    requires name <= core && forall i :: |name| <= i < |core| ==> core[i] == '.'
    requires name != [] ==> name[|name| - 1] != '.'
    ensures var t := EntryTarget(syntax, entry);
      if core == [] then t == None
      else if syntax.network(core).Some? then t == Some(core)
      else if !syntax.hostname(core) then t == None
      else t.Some? && |t.value| == |name| && forall i :: 0 <= i < |name| ==>
             t.value[i] as int == if 65 <= core[i] as int <= 90 then core[i] as int + 32 else core[i] as int
  {
    var text := left + core + right;
    assert entry == "*." + left + core + right ==> entry[2..] == text && entry[..2] == "*.";
    TrimPadded(left, core, right, PySpace);
    assert core == name + core[|name|..];
    TrimRightPadded(name, core[|name|..], c => c == '.');
    assert StripDots(core) == name;
    LowerIs(name);
  }

  /** The generated list drops a packet exactly when it goes to one of the three metadata
      targets, or there is an allow-list and the packet goes neither to 127.x.x.x nor to a DNS
      port nor to an allowed target, or there is none and it goes to a blocked target. */
  lemma DroppedIff(syntax: Syntax, resolve: string -> seq<nat>, config: Config, p: Packet)
    requires Commands(syntax, config).Some?
    ensures Verdict(Script(Commands(syntax, config).value, resolve), p) == DROP <==>
      (Covers(syntax, resolve, "169.254.169.254", p) || Covers(syntax, resolve, "metadata.google.internal", p) ||
       Covers(syntax, resolve, "169.254.169.254.nip.io", p) ||
       if |config.allowed| > 0
       then !(0x7F000000 <= p.dst <= 0x7FFFFFFF) && (p.dport != 53 || p.protocol == OtherProtocol) &&
            forall e :: e in config.allowed ==> !Covers(syntax, resolve, e, p)
       else exists e :: e in config.blocked && Covers(syntax, resolve, e, p))
  {
    FirstMatchIsPolicy(syntax, resolve, config, p);
    LoopbackRange(p.dst);
    CoveredByMember(syntax, resolve, config.allowed, p);
    CoveredByMember(syntax, resolve, config.blocked, p);
    CoveredByGlobal(syntax, resolve, p);
  }

  lemma CoveredByMember(syntax: Syntax, resolve: string -> seq<nat>, entries: seq<string>, p: Packet)
    ensures CoveredBy(syntax, resolve, entries, p) <==> exists e :: e in entries && Covers(syntax, resolve, e, p)
  {
  }

  lemma CoveredByThree(syntax: Syntax, resolve: string -> seq<nat>, a: string, b: string, c: string, p: Packet)
    ensures CoveredBy(syntax, resolve, [a, b, c], p) <==>
      Covers(syntax, resolve, a, p) || Covers(syntax, resolve, b, p) || Covers(syntax, resolve, c, p)
  {
    var g := [a, b, c];
    assert g[0] == a && g[1] == b && g[2] == c;
  }

  lemma CoveredByGlobal(syntax: Syntax, resolve: string -> seq<nat>, p: Packet)
    ensures CoveredBy(syntax, resolve, GLOBAL_BLOCKED_DOMAINS, p) <==>
      Covers(syntax, resolve, "169.254.169.254", p) || Covers(syntax, resolve, "metadata.google.internal", p) ||
      Covers(syntax, resolve, "169.254.169.254.nip.io", p)
  {
    CoveredByThree(syntax, resolve, "169.254.169.254", "metadata.google.internal", "169.254.169.254.nip.io", p);
  }

  /** A configuration compiles exactly when the three metadata targets, and every entry of both
      lists, have a target. */
  lemma CompilesIff(syntax: Syntax, config: Config)
    ensures Commands(syntax, config).Some? <==>
      (EntryTarget(syntax, "169.254.169.254").Some? && EntryTarget(syntax, "metadata.google.internal").Some? &&
       EntryTarget(syntax, "169.254.169.254.nip.io").Some? &&
       forall e :: e in config.allowed || e in config.blocked ==> EntryTarget(syntax, e).Some?)
  {
    GlobalsCompileIff(syntax, "169.254.169.254", "metadata.google.internal", "169.254.169.254.nip.io");
    CompileFailsIff(syntax, config.allowed, ACCEPT);
    CompileFailsIff(syntax, config.blocked, DROP);
    assert forall e :: e in config.allowed <==> exists i :: 0 <= i < |config.allowed| && config.allowed[i] == e;
    assert forall e :: e in config.blocked <==> exists i :: 0 <= i < |config.blocked| && config.blocked[i] == e;
  }

  lemma GlobalsCompileIff(syntax: Syntax, a: string, b: string, c: string)
    ensures Compile(syntax, [a, b, c], DROP).Some? <==>
      EntryTarget(syntax, a).Some? && EntryTarget(syntax, b).Some? && EntryTarget(syntax, c).Some?
  {
    CompileFailsIff(syntax, [a, b, c], DROP);
    assert [a, b, c][0] == a && [a, b, c][1] == b && [a, b, c][2] == c;
  }

  // ---- consequences --------------------------------------------------------------------

  /** The compilation fails exactly when some entry has no valid target. */
  lemma {:induction false} CompileFailsIff(syntax: Syntax, entries: seq<string>, jump: Jump)
    ensures Compile(syntax, entries, jump).Some?
       <==> forall i :: 0 <= i < |entries| ==> EntryTarget(syntax, entries[i]).Some?
  {
    if entries != [] {
      var init := entries[..|entries| - 1];
      CompileFailsIff(syntax, init, jump);
      if forall i :: 0 <= i < |init| ==> EntryTarget(syntax, init[i]).Some? {
        assert forall i :: 0 <= i < |entries| - 1 ==> entries[i] == init[i];
      }
      if forall i :: 0 <= i < |entries| ==> EntryTarget(syntax, entries[i]).Some? {
        assert forall i :: 0 <= i < |init| ==> init[i] == entries[i];
      }
    }
  }

  ghost predicate SameEntries(a: seq<string>, b: seq<string>) {
    forall e :: e in a <==> e in b
  }

  lemma SameEntriesSameMeaning(syntax: Syntax, resolve: string -> seq<nat>, a: seq<string>, b: seq<string>, p: Packet)
    requires SameEntries(a, b)
    ensures CoveredBy(syntax, resolve, a, p) ==> CoveredBy(syntax, resolve, b, p)
    ensures (forall i :: 0 <= i < |a| ==> EntryTarget(syntax, a[i]).Some?)
        ==> (forall i :: 0 <= i < |b| ==> EntryTarget(syntax, b[i]).Some?)
  {
    if CoveredBy(syntax, resolve, a, p) {
      var i :| 0 <= i < |a| && Covers(syntax, resolve, a[i], p);
      assert a[i] in b;
    }
    forall i | 0 <= i < |b| ensures exists j :: 0 <= j < |a| && a[j] == b[i] {
      assert b[i] in a;
    }
  }

  /** Reordering or repeating entries inside a list changes neither whether the configuration
      is accepted nor any verdict. */
  lemma OrderAndRepetitionIrrelevant(syntax: Syntax, resolve: string -> seq<nat>, c: Config, d: Config, p: Packet)
    requires SameEntries(c.allowed, d.allowed) && SameEntries(c.blocked, d.blocked)
    ensures Commands(syntax, c).Some? <==> Commands(syntax, d).Some?
    ensures Commands(syntax, c).Some? ==>
      Verdict(Script(Commands(syntax, c).value, resolve), p) == Verdict(Script(Commands(syntax, d).value, resolve), p)
  {
    SameEntriesSameMeaning(syntax, resolve, c.allowed, d.allowed, p);
    SameEntriesSameMeaning(syntax, resolve, d.allowed, c.allowed, p);
    SameEntriesSameMeaning(syntax, resolve, c.blocked, d.blocked, p);
    SameEntriesSameMeaning(syntax, resolve, d.blocked, c.blocked, p);
    CompileFailsIff(syntax, c.allowed, ACCEPT);
    CompileFailsIff(syntax, d.allowed, ACCEPT);
    CompileFailsIff(syntax, c.blocked, DROP);
    CompileFailsIff(syntax, d.blocked, DROP);
    assert c.allowed == [] <==> d.allowed == [] by {
      if c.allowed != [] { assert c.allowed[0] in d.allowed; }
      if d.allowed != [] { assert d.allowed[0] in c.allowed; }
    }
    if Commands(syntax, c).Some? {
      FirstMatchIsPolicy(syntax, resolve, c, p);
      FirstMatchIsPolicy(syntax, resolve, d, p);
    }
  }

  /** A packet to a blocked target is dropped exactly when there is no allow-list, or the
      packet goes to a globally blocked target, or the allow-list does not let it pass. */
  lemma WhenBlockedIsDropped(syntax: Syntax, resolve: string -> seq<nat>, config: Config, p: Packet)
    requires Commands(syntax, config).Some?
    requires CoveredBy(syntax, resolve, config.blocked, p)
    ensures Verdict(Script(Commands(syntax, config).value, resolve), p) == DROP
       <==> config.allowed == [] || CoveredBy(syntax, resolve, GLOBAL_BLOCKED_DOMAINS, p) ||
            !(Exempt(p) || CoveredBy(syntax, resolve, config.allowed, p))
  {
    FirstMatchIsPolicy(syntax, resolve, config, p);
  }

  /** With an allow-list, `blocked_domains` has no effect: in every configuration that compiles,
      a packet that an entry of both lists covers is accepted, unless a global block covers it. */
  lemma AllowedAndBlockedIsReached(syntax: Syntax, resolve: string -> seq<nat>, config: Config, p: Packet,
      entry: string)
    requires Commands(syntax, config).Some?
    requires entry in config.allowed && entry in config.blocked && Covers(syntax, resolve, entry, p)
    requires !CoveredBy(syntax, resolve, GLOBAL_BLOCKED_DOMAINS, p)
    ensures CoveredBy(syntax, resolve, config.blocked, p)
    ensures Verdict(Script(Commands(syntax, config).value, resolve), p) == ACCEPT
  {
    var i :| 0 <= i < |config.allowed| && config.allowed[i] == entry;
    var j :| 0 <= j < |config.blocked| && config.blocked[j] == entry;
    FirstMatchIsPolicy(syntax, resolve, config, p);
  }

  /** What Python makes of the globally blocked literals and of one private address. */
  const LITERALS := Syntax(
    (s: string) =>
      if s == "169.254.169.254" then Some(Cidr(0xA9FEA9FE, 32))
      else if s == "10.0.0.1" then Some(Cidr(0x0A000001, 32))
      else None,
    (s: string) => s in {"metadata.google.internal", "169.254.169.254.nip.io"})

  /** A lower-case name or address without blanks, wildcard and final dot. */
  predicate Plain(entry: string) {
    Trimmed(entry, PySpace) && entry[0] != '*' && entry[|entry| - 1] != '.' &&
    forall i :: 0 <= i < |entry| ==> !('A' <= entry[i] <= 'Z')
  }

  lemma PlainTarget(syntax: Syntax, entry: string)
    requires Plain(entry) && (syntax.network(entry).Some? || syntax.hostname(entry))
    ensures EntryTarget(syntax, entry) == Some(entry)
  {
    TrimOfTrimmed(entry, PySpace);
    LowerOfLower(entry);
  }

  lemma GlobalsArePlain()
    ensures forall i :: 0 <= i < |GLOBAL_BLOCKED_DOMAINS| ==>
      var g := GLOBAL_BLOCKED_DOMAINS[i];
      Plain(g) && (LITERALS.network(g) == Some(Cidr(0xA9FEA9FE, 32)) ||
        (LITERALS.network(g) == None && LITERALS.hostname(g)))
  {
  }

  lemma PrivateAddressIsPlain()
    ensures Plain("10.0.0.1") && LITERALS.network("10.0.0.1") == Some(Cidr(0x0A000001, 32))
  {
  }

  lemma ReachedBeside(globals: seq<string>, resolve: string -> seq<nat>, a: string)
    requires forall i :: 0 <= i < |globals| ==>
      var g := globals[i];
      Plain(g) && 0x0A000001 !in resolve(g) &&
      (LITERALS.network(g) == Some(Cidr(0xA9FEA9FE, 32)) || (LITERALS.network(g) == None && LITERALS.hostname(g)))
    requires Plain(a) && LITERALS.network(a) == Some(Cidr(0x0A000001, 32))
    ensures var p := Packet(0x0A000001, Tcp, 443);
      CommandsFor(globals, LITERALS, Config([a], [a])).Some? &&
      Covers(LITERALS, resolve, a, p) && !CoveredBy(LITERALS, resolve, globals, p)
  {
    var p := Packet(0x0A000001, Tcp, 443);
    PlainTarget(LITERALS, a);
    HostNetwork(0x0A000001, 0x0A000001);
    HostNetwork(0x0A000001, 0xA9FEA9FE);
    forall i | 0 <= i < |globals|
      ensures EntryTarget(LITERALS, globals[i]).Some? && !Covers(LITERALS, resolve, globals[i], p)
    {
      PlainTarget(LITERALS, globals[i]);
    }
    CompileFailsIff(LITERALS, globals, DROP);
    CompileFailsIff(LITERALS, [a], ACCEPT);
    CompileFailsIff(LITERALS, [a], DROP);
  }

  /** For instance, a private address on both lists is reached, as long as none of the globally
      blocked names resolves to it. */
  lemma PrivateAddressIsReached(resolve: string -> seq<nat>)
    requires forall i :: 0 <= i < |GLOBAL_BLOCKED_DOMAINS| ==> 0x0A000001 !in resolve(GLOBAL_BLOCKED_DOMAINS[i])
    ensures var config, p := Config(["10.0.0.1"], ["10.0.0.1"]), Packet(0x0A000001, Tcp, 443);
      Commands(LITERALS, config).Some? &&
      Verdict(Script(Commands(LITERALS, config).value, resolve), p) == ACCEPT
  {
    var config, p := Config(["10.0.0.1"], ["10.0.0.1"]), Packet(0x0A000001, Tcp, 443);
    GlobalsArePlain();
    PrivateAddressIsPlain();
    ReachedBeside(GLOBAL_BLOCKED_DOMAINS, resolve, "10.0.0.1");
    assert config.allowed[0] == config.blocked[0] == "10.0.0.1";
    AllowedAndBlockedIsReached(LITERALS, resolve, config, p, "10.0.0.1");
  }
}
