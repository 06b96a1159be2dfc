/** pkg/meshfw/manager.go: rebuilding the firewall chain behind a DROP guard, call by call. */
module FirewallManager {
  import opened Cidr
  import opened Packets
  import opened FirewallPlan
  import opened Iptables

  const GUARD_CHAIN := "DWX-MESH-FW-GUARD"
  const FORWARD := "FORWARD"
  const INPUT := "INPUT"
  const DROP_ALL: Args := ["-j", "DROP"]

  type FilterTable = Chains<Args>

  /** The user chain a rule jumps to; ACCEPT and DROP are built-in targets. */
  function JumpTarget(args: Args): Option<string> {
    var t := Target(args);
    if t == FW_CHAIN || t == GUARD_CHAIN then Some(t) else None
  }

  function FwJump(wg: string): Args {
    ["-i", wg, "-j", FW_CHAIN]
  }

  function GuardJump(wg: string): Args {
    ["-i", wg, "-j", GUARD_CHAIN]
  }

  /** The built-in chains a packet from the mesh device may walk. */
  predicate IsHook(chain: string) {
    chain == "FORWARD" || chain == "INPUT"
  }

  // ---- What our rules do to a packet arriving on the mesh device -------------------------------------

  /** What a jump does to a packet: where its options match, the verdict of the chain it targets. */
  function JumpVerdict(parse: Parser, t: FilterTable, rule: Args, pkt: Packet): Verdict {
    if Matches(parse, rule, pkt) && Target(rule) in t then Evaluate(parse, t[Target(rule)], pkt) else Return
  }

  /** The verdict our own jumps give a packet that walks a hook chain; foreign rules pass it on. */
  function OwnVerdict(parse: Parser, t: FilterTable, wg: string, rules: seq<Args>, pkt: Packet): Verdict {
    if rules == [] then Return
    else
      var v := if rules[0] == GuardJump(wg) || rules[0] == FwJump(wg) then JumpVerdict(parse, t, rules[0], pkt) else Return;
      if v != Return then v else OwnVerdict(parse, t, wg, rules[1..], pkt)
  }

  /** Our jumps take exactly the packets that arrive on the mesh device, to the chain they name. */
  lemma JumpMeaning(parse: Parser, t: FilterTable, wg: string, pkt: Packet)
    requires FW_CHAIN in t && GUARD_CHAIN in t
    ensures Matches(parse, FwJump(wg), pkt) <==> pkt.iface == wg
    ensures Matches(parse, GuardJump(wg), pkt) <==> pkt.iface == wg
    ensures JumpVerdict(parse, t, FwJump(wg), pkt) == if pkt.iface == wg then Evaluate(parse, t[FW_CHAIN], pkt) else Return
    ensures JumpVerdict(parse, t, GuardJump(wg), pkt) == if pkt.iface == wg then Evaluate(parse, t[GUARD_CHAIN], pkt) else Return
  {
    JumpMatches(parse, FW_CHAIN, pkt);
    JumpMatches(parse, GUARD_CHAIN, pkt);
    PairMatches(parse, "-i", wg, ["-j", FW_CHAIN], pkt);
    PairMatches(parse, "-i", wg, ["-j", GUARD_CHAIN], pkt);
    assert FwJump(wg) == ["-i", wg] + ["-j", FW_CHAIN] && GuardJump(wg) == ["-i", wg] + ["-j", GUARD_CHAIN];
  }

  /** Packets of other devices pass our jumps untouched. */
  lemma {:induction false} OtherDevicesUntouched(parse: Parser, t: FilterTable, wg: string, rules: seq<Args>, pkt: Packet)
    requires FW_CHAIN in t && GUARD_CHAIN in t && pkt.iface != wg
    ensures OwnVerdict(parse, t, wg, rules, pkt) == Return
  {
    JumpMeaning(parse, t, wg, pkt);
    if rules != [] {
      OtherDevicesUntouched(parse, t, wg, rules[1..], pkt);
    }
  }

  /** The ruleset does not drop the packet. */
  predicate Lets(parse: Parser, chain: seq<Args>, pkt: Packet) {
    Evaluate(parse, chain, pkt) != Drop
  }

  /** A packet that arrives on the mesh device gets past either hook only if one of the two rulesets lets it through. */
  ghost predicate FailClosed(t: FilterTable, wg: string, last: seq<Args>, next: seq<Args>) {
    && FW_CHAIN in t && GUARD_CHAIN in t && FORWARD in t && INPUT in t
    && forall parse: Parser, hook: string, pkt: Packet ::
         IsHook(hook) && pkt.iface == wg && OwnVerdict(parse, t, wg, t[hook], pkt) != Drop ==> Lets(parse, last, pkt) || Lets(parse, next, pkt)
  }

  // ---- The shape of the table ---------------------------------------------------------------------------

  /** At most one guard, above every firewall jump, and none without a firewall jump. */
  predicate HookShape(rules: seq<Args>, wg: string) {
    if rules == [] then true
    else if rules[0] == GuardJump(wg) then GuardJump(wg) !in rules[1..] && FwJump(wg) in rules[1..]
    else if rules[0] == FwJump(wg) then GuardJump(wg) !in rules[1..]
    else HookShape(rules[1..], wg)
  }

  /** The shape in index form: one guard at most, and it precedes every firewall jump. */
  lemma {:induction false} HookShapeMeaning(rules: seq<Args>, wg: string)
    requires HookShape(rules, wg)
    ensures forall i, j :: 0 <= i < j < |rules| ==> !(rules[i] == GuardJump(wg) && rules[j] == GuardJump(wg))
    ensures forall i, j :: 0 <= i < |rules| && 0 <= j < |rules| && rules[i] == FwJump(wg) && rules[j] == GuardJump(wg) ==> j < i
    ensures GuardJump(wg) in rules ==> FwJump(wg) in rules
  {
    JumpsDiffer(wg);
    if rules != [] {
      var rest := rules[1..];
      assert forall i :: 1 <= i < |rules| ==> rules[i] == rest[i - 1];
      if rules[0] != GuardJump(wg) && rules[0] != FwJump(wg) {
        HookShapeMeaning(rest, wg);
      }
    }
  }

  function Content(t: FilterTable, chain: string): seq<Args> {
    if chain in t then t[chain] else []
  }

  /** What `ensureGuardChain` makes of a chain that already holds something. */
  function GuardEnsured(content: seq<Args>): seq<Args> {
    if DROP_ALL in content then content else content + [DROP_ALL]
  }

  /** Every rule is one whose meaning is modelled, and together they drop every packet. */
  ghost predicate Denies(content: seq<Args>) {
    && (forall args :: args in content ==> Modelled(args))
    && (forall parse: Parser, pkt: Packet :: Evaluate(parse, content, pkt) == Drop)
  }

  /** iptables always has its built-in chains. */
  predicate BuiltIn(t: FilterTable) {
    FORWARD in t && INPUT in t
  }

  /** A table from which the manager enforces: hooks in shape, and a guard that denies once it is ensured. */
  ghost predicate Startable(t: FilterTable, wg: string) {
    && BuiltIn(t) && HookShape(t[FORWARD], wg) && HookShape(t[INPUT], wg)
    && Denies(GuardEnsured(Content(t, GUARD_CHAIN)))
  }

  ghost predicate Infra(t: FilterTable, wg: string) {
    && Startable(t, wg)
    && FW_CHAIN in t && GUARD_CHAIN in t && DROP_ALL in t[GUARD_CHAIN]
    && FwJump(wg) in t[FORWARD] && FwJump(wg) in t[INPUT]
  }

  ghost predicate BothGuarded(t: FilterTable, wg: string) {
    BuiltIn(t) && GuardJump(wg) in t[FORWARD] && GuardJump(wg) in t[INPUT]
  }

  /** The firewall chain is exactly `rules`, or both hooks divert to a guard that denies everything. */
  ghost predicate Enforcing(t: FilterTable, wg: string, rules: seq<Args>) {
    Infra(t, wg) && (t[FW_CHAIN] == rules || BothGuarded(t, wg))
  }

  lemma DropAllDrops(parse: Parser, pkt: Packet)
    ensures Decide(parse, [DROP_ALL], pkt) == Some(Drop)
  {
    JumpMatches(parse, "DROP", pkt);
  }

  /** A fresh guard chain denies. */
  lemma FreshGuardDenies()
    ensures Denies([DROP_ALL])
  {
    assert DROP_ALL[2..] == [];
    forall parse: Parser, pkt: Packet ensures Evaluate(parse, [DROP_ALL], pkt) == Drop {
      DropAllDrops(parse, pkt);
    }
  }

  /** A table without guards is one to start from, if the guard chain is absent, empty or a blanket DROP. */
  lemma FreshIsStartable(t: FilterTable, wg: string)
    requires BuiltIn(t) && GuardJump(wg) !in t[FORWARD] && GuardJump(wg) !in t[INPUT]
    requires Content(t, GUARD_CHAIN) == [] || Content(t, GUARD_CHAIN) == [DROP_ALL]
    ensures Startable(t, wg)
  {
    FreshGuardDenies();
    assert GuardEnsured(Content(t, GUARD_CHAIN)) == [DROP_ALL];
    UnguardedShape(t[FORWARD], wg);
    UnguardedShape(t[INPUT], wg);
  }

  lemma JumpsDiffer(wg: string)
    ensures FwJump(wg) != GuardJump(wg)
  {
    assert FwJump(wg)[3] != GuardJump(wg)[3];
  }

  /** A guarded hook gives the guard's verdict, or the firewall chain's where the guard returns. */
  lemma {:induction false} GuardedHookVerdict(parse: Parser, t: FilterTable, wg: string, rules: seq<Args>, pkt: Packet)
    requires FW_CHAIN in t && GUARD_CHAIN in t && HookShape(rules, wg) && GuardJump(wg) in rules && pkt.iface == wg
    ensures var v := Evaluate(parse, t[GUARD_CHAIN], pkt);
      OwnVerdict(parse, t, wg, rules, pkt) == if v != Return then v else Evaluate(parse, t[FW_CHAIN], pkt)
  {
    JumpsDiffer(wg);
    JumpMeaning(parse, t, wg, pkt);
    assert rules == [rules[0]] + rules[1..];
    if rules[0] == GuardJump(wg) {
      UnguardedHookEvaluates(parse, t, wg, rules[1..], pkt);
    } else {
      GuardedHookVerdict(parse, t, wg, rules[1..], pkt);
    }
  }

  lemma {:induction false} UnguardedHookEvaluates(parse: Parser, t: FilterTable, wg: string, rules: seq<Args>, pkt: Packet)
    requires FW_CHAIN in t && GUARD_CHAIN in t && GuardJump(wg) !in rules && pkt.iface == wg
    ensures OwnVerdict(parse, t, wg, rules, pkt)
         == if FwJump(wg) in rules then Evaluate(parse, t[FW_CHAIN], pkt) else Return
  {
    JumpsDiffer(wg);
    JumpMeaning(parse, t, wg, pkt);
    if rules != [] {
      assert rules == [rules[0]] + rules[1..];
      UnguardedHookEvaluates(parse, t, wg, rules[1..], pkt);
    }
  }

  /** The structural invariant is what makes the firewall fail closed. */
  lemma EnforcingFailsClosed(t: FilterTable, wg: string, rules: seq<Args>, other: seq<Args>)
    requires Enforcing(t, wg, rules)
    ensures FailClosed(t, wg, rules, other) && FailClosed(t, wg, other, rules)
  {
    forall parse: Parser, hook: string, pkt: Packet | IsHook(hook) && pkt.iface == wg && OwnVerdict(parse, t, wg, t[hook], pkt) != Drop
      ensures Lets(parse, rules, pkt)
    {
      assert GuardEnsured(t[GUARD_CHAIN]) == t[GUARD_CHAIN];
      if GuardJump(wg) in t[hook] {
        GuardedHookVerdict(parse, t, wg, t[hook], pkt);
        assert false;
      } else {
        UnguardedHookEvaluates(parse, t, wg, t[hook], pkt);
      }
    }
  }

  // ---- What the calls make of a table ------------------------------------------------------------------------

  function Hooked(rules: seq<Args>, wg: string): seq<Args> {
    if FwJump(wg) in rules then rules else [FwJump(wg)] + rules
  }

  function Guarded(rules: seq<Args>, wg: string): seq<Args> {
    if GuardJump(wg) in rules then rules else [GuardJump(wg)] + rules
  }

  /** Deletes one guard, if there is one. */
  function Lifted(rules: seq<Args>, wg: string): seq<Args> {
    Remove(rules, GuardJump(wg))
  }

  /** The hook after a completed sync. */
  function Settle(rules: seq<Args>, wg: string): seq<Args> {
    Lifted(Guarded(Hooked(rules, wg), wg), wg)
  }

  /** The table with the infrastructure in place. */
  function Ready(t: FilterTable, wg: string): FilterTable
    requires BuiltIn(t)
  {
    t[FW_CHAIN := Content(t, FW_CHAIN)][GUARD_CHAIN := GuardEnsured(Content(t, GUARD_CHAIN))]
      [FORWARD := Hooked(t[FORWARD], wg)][INPUT := Hooked(t[INPUT], wg)]
  }

  function Chained(t: FilterTable): FilterTable {
    t[FW_CHAIN := Content(t, FW_CHAIN)][GUARD_CHAIN := GuardEnsured(Content(t, GUARD_CHAIN))]
  }

  function HookedBoth(t: FilterTable, wg: string): FilterTable
    requires BuiltIn(t)
  {
    t[FORWARD := Hooked(t[FORWARD], wg)][INPUT := Hooked(t[INPUT], wg)]
  }

  lemma ChainsThenHooks(t: FilterTable, wg: string)
    requires BuiltIn(t)
    ensures BuiltIn(Chained(t)) && FW_CHAIN in Chained(t) && HookedBoth(Chained(t), wg) == Ready(t, wg)
  {
    ChainNamesDiffer();
  }

  /** The table a completed sync of `rules` leaves behind; every other chain and rule is untouched. */
  function Synced(t: FilterTable, wg: string, rules: seq<Args>): FilterTable
    requires BuiltIn(t)
  {
    t[FW_CHAIN := rules][GUARD_CHAIN := GuardEnsured(Content(t, GUARD_CHAIN))]
      [FORWARD := Settle(t[FORWARD], wg)][INPUT := Settle(t[INPUT], wg)]
  }

  function WithHook(t: FilterTable, hook: string, rules: seq<Args>): FilterTable {
    t[hook := rules]
  }

  function WithFw(t: FilterTable, content: seq<Args>): FilterTable {
    t[FW_CHAIN := content]
  }

  /** Both hooks diverted. */
  function Diverted(t: FilterTable, wg: string): FilterTable
    requires BuiltIn(t)
  {
    WithHook(WithHook(t, FORWARD, Guarded(t[FORWARD], wg)), INPUT, Guarded(t[INPUT], wg))
  }

  /** One guard lifted from each hook. */
  function Restored(t: FilterTable, wg: string): FilterTable
    requires BuiltIn(t)
  {
    WithHook(WithHook(t, FORWARD, Lifted(t[FORWARD], wg)), INPUT, Lifted(t[INPUT], wg))
  }

  lemma ChainNamesDiffer()
    ensures FORWARD != INPUT && FW_CHAIN != GUARD_CHAIN
    ensures !IsHook(FW_CHAIN) && !IsHook(GUARD_CHAIN)
  {
    assert FORWARD[0] != INPUT[0] && |FW_CHAIN| != |GUARD_CHAIN|;
    assert FW_CHAIN[0] == GUARD_CHAIN[0] == 'D';
  }

  /** The two chains are found under the names other tools know them by. */
  lemma ChainNames(t: FilterTable, wg: string)
    requires BuiltIn(t)
    ensures "DWX-MESH-FW" in Ready(t, wg) && "DWX-MESH-FW-GUARD" in Ready(t, wg)
  {
    assert FW_CHAIN == "DWX-MESH-FW" && GUARD_CHAIN == "DWX-MESH-FW-GUARD";
  }

  lemma OwnTargets(wg: string)
    ensures JumpTarget(DROP_ALL) == None
    ensures JumpTarget(FwJump(wg)) == Some(FW_CHAIN) && JumpTarget(GuardJump(wg)) == Some(GUARD_CHAIN)
  {
    ChainNamesDiffer();
    assert "DROP"[1] != FW_CHAIN[1];
    assert FwJump(wg)[2..] == ["-j", FW_CHAIN] && GuardJump(wg)[2..] == ["-j", GUARD_CHAIN];
    assert "-i"[1] != "-j"[1];
    assert Target(["-j", FW_CHAIN]) == FW_CHAIN && Target(["-j", GUARD_CHAIN]) == GUARD_CHAIN;
  }

  /** The table right after the flush: both hooks diverted, the firewall chain empty. */
  function Window(t: FilterTable, wg: string): FilterTable
    requires BuiltIn(t)
  {
    ChainNamesDiffer();
    assert BuiltIn(Ready(t, wg));
    WithFw(Diverted(Ready(t, wg), wg), [])
  }

  /** Diverting, refilling and restoring a ready table is syncing it. */
  lemma PhasesAreSynced(t: FilterTable, wg: string, rules: seq<Args>)
    requires BuiltIn(t)
    ensures BuiltIn(Ready(t, wg)) && BuiltIn(WithFw(Diverted(Ready(t, wg), wg), rules))
    ensures Restored(WithFw(Diverted(Ready(t, wg), wg), rules), wg) == Synced(t, wg, rules)
  {
    ChainNamesDiffer();
    var a, b := Restored(WithFw(Diverted(Ready(t, wg), wg), rules), wg), Synced(t, wg, rules);
    assert a.Keys == b.Keys;
    forall c | c in a ensures a[c] == b[c] {
    }
  }

  // ---- The manager -------------------------------------------------------------------------------------

  /** The tables of diverting: none, the first, or both hooks. */
  ghost predicate Diverting(s: FilterTable, t: FilterTable, wg: string) {
    BuiltIn(s) && (t == s || t == WithHook(s, FORWARD, Guarded(s[FORWARD], wg)) || t == Diverted(s, wg))
  }

  /** The tables of refilling: only the firewall chain changes. */
  ghost predicate Filling(s: FilterTable, t: FilterTable) {
    t == s || (FW_CHAIN in t && t == WithFw(s, t[FW_CHAIN]))
  }

  /** The tables of restoring: one guard lifted from none, the first, or both hooks. */
  ghost predicate Restoring(s: FilterTable, t: FilterTable, wg: string) {
    BuiltIn(s) && (t == s || t == WithHook(s, FORWARD, Lifted(s[FORWARD], wg)) || t == Restored(s, wg))
  }

  ghost predicate DivertingAll(h0: seq<FilterTable>, h1: seq<FilterTable>, s: FilterTable, wg: string) {
    h0 <= h1 && forall k :: |h0| <= k < |h1| ==> Diverting(s, h1[k], wg)
  }

  ghost predicate FillingAll(h0: seq<FilterTable>, h1: seq<FilterTable>, s: FilterTable) {
    h0 <= h1 && forall k :: |h0| <= k < |h1| ==> Filling(s, h1[k])
  }

  ghost predicate RestoringAll(h0: seq<FilterTable>, h1: seq<FilterTable>, s: FilterTable, wg: string) {
    h0 <= h1 && forall k :: |h0| <= k < |h1| ==> Restoring(s, h1[k], wg)
  }

  /** The table is one of those the kernel went through between the two histories. */
  ghost predicate Passed(h0: seq<FilterTable>, h1: seq<FilterTable>, t: FilterTable) {
    exists k :: |h0| <= k < |h1| && h1[k] == t
  }

  /** Where a replacement may stop. */
  ghost predicate Replacing(s: FilterTable, t: FilterTable, wg: string) {
    && BuiltIn(s)
    && (Diverting(s, t, wg) || Filling(Diverted(s, wg), t)
        || (FW_CHAIN in t && BuiltIn(WithFw(Diverted(s, wg), t[FW_CHAIN])) && Restoring(WithFw(Diverted(s, wg), t[FW_CHAIN]), t, wg)))
  }

  class Manager {
    const ipt: Handle<Args>
    const wg: string

    /** The last ruleset that FWChain held in full. */
    ghost var last: seq<Args>

    constructor (ipt: Handle<Args>, wg: string)
      ensures this.ipt == ipt && this.wg == wg
    {
      this.ipt, this.wg, last := ipt, wg, [];
    }

    method EnsureChain(chain: string) returns (ok: bool)
      modifies ipt
      ensures old(ipt.history) <= ipt.history
      ensures ipt.chains == old(ipt.chains) || (chain !in old(ipt.chains) && ipt.chains == old(ipt.chains)[chain := []])
      ensures ok ==> chain in ipt.chains
      ensures chain in old(ipt.chains) ==> ipt.chains == old(ipt.chains) && ipt.history == old(ipt.history)
    {
      var checked, found := ipt.ChainExists(chain);
      if !checked {
        return false;
      }
      if !found {
        ok := ipt.NewChain(chain);
        return;
      }
      return true;
    }

    /** Whatever the guard chain held, success leaves it ensured: a DROP is appended where there was none, and
        everything found is kept. */
    method EnsureGuardChain() returns (ok: bool)
      requires ipt.jump == JumpTarget
      modifies ipt
      ensures old(ipt.history) <= ipt.history
      ensures ok ==> ipt.chains == old(ipt.chains)[GUARD_CHAIN := GuardEnsured(Content(old(ipt.chains), GUARD_CHAIN))]
      ensures !ok ==> ipt.chains == old(ipt.chains) || ipt.chains == old(ipt.chains)[GUARD_CHAIN := Content(old(ipt.chains), GUARD_CHAIN)]
      ensures (old(GUARD_CHAIN in ipt.chains && DROP_ALL in ipt.chains[GUARD_CHAIN]) ==>
                 ipt.chains == old(ipt.chains) && ipt.history == old(ipt.history))
    {
      OwnTargets(wg);
      ok := EnsureChain(GUARD_CHAIN);
      if !ok {
        return;
      }
      var checked, found := ipt.Exists(GUARD_CHAIN, DROP_ALL);
      if !checked {
        return false;
      }
      if !found {
        ok := ipt.Append(GUARD_CHAIN, DROP_ALL);
        return;
      }
      return true;
    }

    /** Inserts the firewall jump where it is missing; nothing else changes. */
    method EnsureHook(hook: string) returns (ok: bool)
      requires ipt.jump == JumpTarget && hook in ipt.chains && FW_CHAIN in ipt.chains
      modifies ipt
      ensures old(ipt.history) <= ipt.history
      ensures ipt.chains == old(ipt.chains) || ipt.chains == WithHook(old(ipt.chains), hook, Hooked(old(ipt.chains)[hook], wg))
      ensures ok ==> ipt.chains == WithHook(old(ipt.chains), hook, Hooked(old(ipt.chains)[hook], wg))
      ensures FwJump(wg) in old(ipt.chains)[hook] ==> ipt.chains == old(ipt.chains) && ipt.history == old(ipt.history)
    {
      OwnTargets(wg);
      var checked, found := ipt.Exists(hook, FwJump(wg));
      if !checked {
        return false;
      }
      if !found {
        ok := ipt.InsertFirst(hook, FwJump(wg));
        return;
      }
      return true;
    }

    /** Both of our chains, as far as the calls get. */
    method EnsureChains() returns (ok: bool)
      requires ipt.jump == JumpTarget && BuiltIn(ipt.chains)
      modifies ipt
      ensures old(ipt.history) <= ipt.history && BuiltIn(ipt.chains)
      ensures Ready(ipt.chains, wg) == Ready(old(ipt.chains), wg)
      ensures ok ==> ipt.chains == Chained(old(ipt.chains))
      ensures (old(FW_CHAIN in ipt.chains && GUARD_CHAIN in ipt.chains && DROP_ALL in ipt.chains[GUARD_CHAIN]) ==>
                 ipt.chains == old(ipt.chains) && ipt.history == old(ipt.history))
    {
      ChainNamesDiffer();
      ghost var t0 := ipt.chains;
      ok := EnsureChain(FW_CHAIN);
      ReadyChain(t0, wg);
      if !ok {
        return;
      }
      ghost var t1 := ipt.chains;
      ok := EnsureGuardChain();
      ReadyGuard(t1, wg);
    }

    /** Both hooks, as far as the calls get. */
    method EnsureHooks() returns (ok: bool)
      requires ipt.jump == JumpTarget && BuiltIn(ipt.chains) && FW_CHAIN in ipt.chains
      modifies ipt
      ensures old(ipt.history) <= ipt.history && BuiltIn(ipt.chains)
      ensures Ready(ipt.chains, wg) == Ready(old(ipt.chains), wg)
      ensures ok ==> ipt.chains == HookedBoth(old(ipt.chains), wg)
      ensures (old(FwJump(wg) in ipt.chains[FORWARD] && FwJump(wg) in ipt.chains[INPUT]) ==>
                 ipt.chains == old(ipt.chains) && ipt.history == old(ipt.history))
    {
      ChainNamesDiffer();
      ghost var t0 := ipt.chains;
      ok := EnsureHook(FORWARD);
      ReadyHook(t0, wg, FORWARD);
      if !ok {
        return;
      }
      ghost var t1 := ipt.chains;
      ok := EnsureHook(INPUT);
      ReadyHook(t1, wg, INPUT);
    }

    /** Creates what is missing, on any table. A failure half-way leaves the rest to the next call; a table that has
        everything is not touched. */
    method EnsureInfra() returns (ok: bool)
      requires ipt.jump == JumpTarget && BuiltIn(ipt.chains)
      modifies ipt
      ensures old(ipt.history) <= ipt.history && BuiltIn(ipt.chains)
      ensures Ready(ipt.chains, wg) == Ready(old(ipt.chains), wg)
      ensures ok ==> ipt.chains == Ready(old(ipt.chains), wg)
      ensures old(Infra(ipt.chains, wg)) ==> ipt.chains == old(ipt.chains) && ipt.history == old(ipt.history)
    {
      ChainsThenHooks(ipt.chains, wg);
      ok := EnsureChains();
      if !ok {
        return;
      }
      ok := EnsureHooks();
    }

    /** Diverts one hook to the guard, reusing a guard left by a failed sync. */
    method EngageHook(hook: string) returns (ok: bool)
      requires ipt.jump == JumpTarget && hook in ipt.chains && GUARD_CHAIN in ipt.chains
      modifies ipt
      ensures ok ==> ipt.chains == WithHook(old(ipt.chains), hook, Guarded(old(ipt.chains)[hook], wg))
      ensures !ok ==> ipt.chains == old(ipt.chains)
      ensures ipt.history == old(ipt.history) || ipt.history == old(ipt.history) + [ipt.chains]
    {
      var checked, found := ipt.Exists(hook, GuardJump(wg));
      if !checked {
        return false;
      }
      if !found {
        OwnTargets(wg);
        ok := ipt.InsertFirst(hook, GuardJump(wg));
        return;
      }
      return true;
    }

    /** Lifts one guard from the hook. */
    method DisengageHook(hook: string) returns (ok: bool)
      requires hook in ipt.chains
      modifies ipt
      ensures ok ==> ipt.chains == WithHook(old(ipt.chains), hook, Lifted(old(ipt.chains)[hook], wg))
      ensures !ok ==> ipt.chains == old(ipt.chains)
      ensures ipt.history == old(ipt.history) || ipt.history == old(ipt.history) + [ipt.chains]
    {
      var checked, found := ipt.Exists(hook, GuardJump(wg));
      if !checked {
        return false;
      }
      if found {
        ok := ipt.Delete(hook, GuardJump(wg));
        return;
      }
      return true;
    }

    /** Diverts both hooks; on the way the first is diverted before the second. */
    method EngageGuard() returns (ok: bool)
      requires ipt.jump == JumpTarget && BuiltIn(ipt.chains) && GUARD_CHAIN in ipt.chains
      modifies ipt
      ensures DivertingAll(old(ipt.history), ipt.history, old(ipt.chains), wg) && Diverting(old(ipt.chains), ipt.chains, wg)
      ensures ok ==> ipt.chains == Diverted(old(ipt.chains), wg)
    {
      ChainNamesDiffer();
      ghost var t0 := ipt.chains;
      ok := EngageHook(FORWARD);
      if !ok {
        return;
      }
      ok := EngageHook(INPUT);
    }

    /** Lifts one guard from each hook, the first hook first. */
    method DisengageGuard() returns (ok: bool)
      requires BuiltIn(ipt.chains)
      modifies ipt
      ensures RestoringAll(old(ipt.history), ipt.history, old(ipt.chains), wg) && Restoring(old(ipt.chains), ipt.chains, wg)
      ensures ok ==> ipt.chains == Restored(old(ipt.chains), wg)
    {
      ChainNamesDiffer();
      ok := DisengageHook(FORWARD);
      if !ok {
        return;
      }
      ok := DisengageHook(INPUT);
    }

    /** Flushes and repopulates the firewall chain; every other chain stays. */
    method Refill(rules: seq<Rule>) returns (ok: bool)
      requires ipt.jump == JumpTarget && Programmable(rules)
      modifies ipt
      ensures FillingAll(old(ipt.history), ipt.history, old(ipt.chains)) && Filling(old(ipt.chains), ipt.chains)
      ensures ok ==> ipt.chains == WithFw(old(ipt.chains), Vectors(rules))
      ensures ok ==> Passed(old(ipt.history), ipt.history, WithFw(old(ipt.chains), []))
    {
      ghost var t0 := ipt.chains;
      ok := ipt.ClearChain(FW_CHAIN);
      if !ok {
        return;
      }
      assert ipt.chains == WithFw(t0, []);
      for i := 0 to |rules|
        invariant ipt.chains == WithFw(t0, Vectors(rules[..i]))
        invariant FillingAll(old(ipt.history), ipt.history, t0)
        invariant |old(ipt.history)| < |ipt.history| && ipt.history[|old(ipt.history)|] == WithFw(t0, [])
      {
        assert rules[i] in rules;
        assert Vectors(rules[..i + 1]) == Vectors(rules[..i]) + [rules[i].args];
        ok := ipt.Append(rules[i].chain, rules[i].args);
        if !ok {
          return;
        }
        assert ipt.chains == WithFw(t0, Vectors(rules[..i + 1]));
      }
      assert rules[..|rules|] == rules;
      return true;
    }

    /** Rebuilds FWChain to exactly realize the rules, from any table and with any call failing anywhere.
        Success leaves exactly the synced table, having passed through the rebuild window. With at most one guard per hook, a failure changes nothing about what a
        later success leaves. While a ruleset is enforced, every intermediate table enforces it or the new one. */
    method SyncFirewall(rules: seq<Rule>) returns (ok: bool)
      requires ipt.jump == JumpTarget && Programmable(rules) && BuiltIn(ipt.chains)
      modifies this, ipt
      ensures old(ipt.history) <= ipt.history && BuiltIn(ipt.chains)
      ensures ok ==> ipt.chains == Synced(old(ipt.chains), wg, Vectors(rules)) && last == Vectors(rules)
      ensures ok ==> Passed(old(ipt.history), ipt.history, Window(old(ipt.chains), wg))
      ensures old(OneGuardEach(ipt.chains, wg)) ==> SameOutcome(old(ipt.chains), ipt.chains, wg)
      ensures old(Startable(ipt.chains, wg)) ==> Startable(ipt.chains, wg) && (ok ==> Enforcing(ipt.chains, wg, last))
      ensures old(Enforcing(ipt.chains, wg, last)) ==>
        && Enforcing(ipt.chains, wg, last)
        && (last == old(last) || last == Vectors(rules))
        && Upheld(old(ipt.history), ipt.history, wg, old(last), Vectors(rules))
    {
      ghost var t0, enforced := ipt.chains, Enforcing(ipt.chains, wg, last);
      ok := EnsureInfra();
      ReadyKeeps(t0, ipt.chains, wg);
      if !ok {
        return;
      }
      last := if enforced then last else ipt.chains[FW_CHAIN];
      ok := Replace(rules);
      ReadyKeeps(t0, Ready(t0, wg), wg);
      ReplacedKeeps(t0, ipt.chains, wg);
      if ok {
        PhasesAreSynced(t0, wg, Vectors(rules));
      }
    }

    /** The part of a sync after the infrastructure is in place: divert, refill, restore. */
    method Replace(rules: seq<Rule>) returns (ok: bool)
      requires ipt.jump == JumpTarget && Programmable(rules) && BuiltIn(ipt.chains) && FW_CHAIN in ipt.chains && GUARD_CHAIN in ipt.chains
      modifies this, ipt
      ensures old(ipt.history) <= ipt.history
      ensures Replacing(old(ipt.chains), ipt.chains, wg)
      ensures last == old(last) || last == Vectors(rules)
      ensures ok ==> ipt.chains == Restored(WithFw(Diverted(old(ipt.chains), wg), Vectors(rules)), wg) && last == Vectors(rules)
      ensures ok ==> Passed(old(ipt.history), ipt.history, WithFw(Diverted(old(ipt.chains), wg), []))
      ensures (old(Enforcing(ipt.chains, wg, last)) ==>
                 Enforcing(ipt.chains, wg, last) && Upheld(old(ipt.history), ipt.history, wg, old(last), Vectors(rules)))
    {
      ghost var h0, s, l, next := ipt.history, ipt.chains, last, Vectors(rules);
      ok := EngageGuard();
      ghost var h1 := ipt.history;
      DivertStage(h0, h1, s, ipt.chains, wg, l, next);
      if !ok {
        return;
      }
      ok := Refill(rules);
      ghost var h2 := ipt.history;
      FillStage(h0, h1, h2, s, ipt.chains, wg, l, next);
      if !ok {
        return;
      }
      ok := DisengageGuard();
      last := next;
      RestoreStage(h0, h2, ipt.history, s, ipt.chains, wg, l, next);
    }
  }

  // ---- Getting ready ------------------------------------------------------------------------------------------

  lemma SameReady(t: FilterTable, u: FilterTable, wg: string)
    requires BuiltIn(t) && BuiltIn(u)
    requires t.Keys + {FW_CHAIN, GUARD_CHAIN} == u.Keys + {FW_CHAIN, GUARD_CHAIN}
    requires Content(t, FW_CHAIN) == Content(u, FW_CHAIN) && GuardEnsured(Content(t, GUARD_CHAIN)) == GuardEnsured(Content(u, GUARD_CHAIN))
    requires Hooked(t[FORWARD], wg) == Hooked(u[FORWARD], wg) && Hooked(t[INPUT], wg) == Hooked(u[INPUT], wg)
    requires forall c :: c in t && c in u && c != FW_CHAIN && c != GUARD_CHAIN && !IsHook(c) ==> t[c] == u[c]
    ensures Ready(t, wg) == Ready(u, wg)
  {
    ChainNamesDiffer();
    var a, b := Ready(t, wg), Ready(u, wg);
    assert a.Keys == b.Keys;
    forall c | c in a ensures a[c] == b[c] {
    }
  }

  lemma ReadyChain(t: FilterTable, wg: string)
    requires BuiltIn(t)
    ensures var u := t[FW_CHAIN := Content(t, FW_CHAIN)]; BuiltIn(u) && Ready(u, wg) == Ready(t, wg)
  {
    ChainNamesDiffer();
    SameReady(t, t[FW_CHAIN := Content(t, FW_CHAIN)], wg);
  }

  lemma ReadyGuard(t: FilterTable, wg: string)
    requires BuiltIn(t)
    ensures var u := t[GUARD_CHAIN := Content(t, GUARD_CHAIN)]; BuiltIn(u) && Ready(u, wg) == Ready(t, wg)
    ensures var u := t[GUARD_CHAIN := GuardEnsured(Content(t, GUARD_CHAIN))]; BuiltIn(u) && Ready(u, wg) == Ready(t, wg)
  {
    ChainNamesDiffer();
    SameReady(t, t[GUARD_CHAIN := Content(t, GUARD_CHAIN)], wg);
    SameReady(t, t[GUARD_CHAIN := GuardEnsured(Content(t, GUARD_CHAIN))], wg);
  }

  lemma ReadyHook(t: FilterTable, wg: string, hook: string)
    requires BuiltIn(t) && IsHook(hook)
    ensures var u := WithHook(t, hook, Hooked(t[hook], wg)); BuiltIn(u) && Ready(u, wg) == Ready(t, wg)
  {
    ChainNamesDiffer();
    SameReady(t, WithHook(t, hook, Hooked(t[hook], wg)), wg);
  }

  /** Both tables lead to the same result once a sync completes. */
  ghost predicate SameOutcome(t: FilterTable, u: FilterTable, wg: string) {
    BuiltIn(t) && BuiltIn(u) && Synced(t, wg, []) == Synced(u, wg, [])
  }

  lemma SyncedSplit(t: FilterTable, wg: string, rules: seq<Args>)
    requires BuiltIn(t)
    ensures Synced(t, wg, rules) == WithFw(Synced(t, wg, []), rules)
  {
    ChainNamesDiffer();
    var a, b := Synced(t, wg, rules), WithFw(Synced(t, wg, []), rules);
    assert a.Keys == b.Keys;
    forall c | c in a ensures a[c] == b[c] {
    }
  }

  lemma SyncedSame(t: FilterTable, u: FilterTable, wg: string, rules: seq<Args>)
    requires SameOutcome(t, u, wg)
    ensures Synced(t, wg, rules) == Synced(u, wg, rules)
  {
    SyncedSplit(t, wg, rules);
    SyncedSplit(u, wg, rules);
  }

  lemma {:induction false} UnguardedShape(rules: seq<Args>, wg: string)
    requires GuardJump(wg) !in rules
    ensures HookShape(rules, wg)
  {
    if rules != [] {
      UnguardedShape(rules[1..], wg);
    }
  }

  /** The shape survives the firewall jump's insertion, and shows through it. */
  lemma HookedShape(rules: seq<Args>, wg: string)
    ensures HookShape(Hooked(rules, wg), wg) <==> HookShape(rules, wg)
    ensures FwJump(wg) in Hooked(rules, wg) && Hooked(Hooked(rules, wg), wg) == Hooked(rules, wg)
  {
    JumpsDiffer(wg);
    if FwJump(wg) !in rules {
      var r := [FwJump(wg)] + rules;
      assert r[1..] == rules && r[0] == FwJump(wg) && FwJump(wg) in r;
      if GuardJump(wg) !in rules {
        UnguardedShape(rules, wg);
      } else if HookShape(rules, wg) {
        HookShapeMeaning(rules, wg);
        assert false;
      }
    }
  }

  /** Getting ready changes nothing about what a sync leaves, and keeps a table startable. */
  lemma ReadyKeeps(t: FilterTable, u: FilterTable, wg: string)
    requires BuiltIn(t) && BuiltIn(u) && Ready(t, wg) == Ready(u, wg)
    ensures SameOutcome(t, u, wg) && (Startable(t, wg) ==> Startable(u, wg))
    ensures u == Ready(t, wg) && Startable(t, wg) ==> Infra(u, wg)
  {
    ChainNamesDiffer();
    PhasesAreSynced(t, wg, []);
    PhasesAreSynced(u, wg, []);
    HooksOfReady(t, u, wg);
    HookedShape(t[FORWARD], wg);
    HookedShape(t[INPUT], wg);
    HookedShape(u[FORWARD], wg);
    HookedShape(u[INPUT], wg);
  }

  lemma HooksOfReady(t: FilterTable, u: FilterTable, wg: string)
    requires BuiltIn(t) && BuiltIn(u) && Ready(t, wg) == Ready(u, wg)
    ensures Hooked(t[FORWARD], wg) == Hooked(u[FORWARD], wg) && Hooked(t[INPUT], wg) == Hooked(u[INPUT], wg)
    ensures GuardEnsured(Content(t, GUARD_CHAIN)) == GuardEnsured(Content(u, GUARD_CHAIN))
  {
    ChainNamesDiffer();
    assert Ready(t, wg)[FORWARD] == Hooked(t[FORWARD], wg) && Ready(u, wg)[FORWARD] == Hooked(u[FORWARD], wg);
    assert Ready(t, wg)[INPUT] == Hooked(t[INPUT], wg) && Ready(u, wg)[INPUT] == Hooked(u[INPUT], wg);
    assert Ready(t, wg)[GUARD_CHAIN] == Ready(u, wg)[GUARD_CHAIN];
  }

  // ---- What a failed replacement leaves to the next --------------------------------------------------------------

  predicate OneGuard(rules: seq<Args>, wg: string) {
    GuardJump(wg) !in Lifted(rules, wg)
  }

  ghost predicate OneGuardEach(t: FilterTable, wg: string) {
    BuiltIn(t) && OneGuard(t[FORWARD], wg) && OneGuard(t[INPUT], wg)
  }

  lemma {:induction false} LiftedKeeps(rules: seq<Args>, wg: string)
    requires FwJump(wg) in rules
    ensures FwJump(wg) in Lifted(rules, wg)
  {
    JumpsDiffer(wg);
    assert rules == [rules[0]] + rules[1..];
    if rules[0] != GuardJump(wg) && rules[0] != FwJump(wg) {
      LiftedKeeps(rules[1..], wg);
    }
  }

  /** A ready hook settles alike before, while and after it is diverted, if it held at most one guard. */
  lemma HookSettles(rules: seq<Args>, wg: string)
    requires FwJump(wg) in rules && OneGuard(rules, wg)
    ensures Settle(Guarded(rules, wg), wg) == Settle(rules, wg)
    ensures Settle(Lifted(Guarded(rules, wg), wg), wg) == Settle(rules, wg)
    ensures GuardJump(wg) !in Settle(rules, wg)
  {
    var g := Guarded(rules, wg);
    assert FwJump(wg) in g;
    if GuardJump(wg) !in rules {
      assert g[1..] == rules;
      assert Lifted(g, wg) == rules;
    }
    var x := Lifted(g, wg);
    LiftedKeeps(g, wg);
    assert Guarded(x, wg) == [GuardJump(wg)] + x && ([GuardJump(wg)] + x)[1..] == x;
  }

  lemma HookedOneGuard(rules: seq<Args>, wg: string)
    requires OneGuard(rules, wg)
    ensures OneGuard(Hooked(rules, wg), wg)
  {
    JumpsDiffer(wg);
    if FwJump(wg) !in rules {
      assert ([FwJump(wg)] + rules)[1..] == rules;
    }
  }

  lemma SameSynced(t: FilterTable, u: FilterTable, wg: string)
    requires BuiltIn(t) && BuiltIn(u) && FW_CHAIN in t && FW_CHAIN in u && t.Keys == u.Keys
    requires Settle(t[FORWARD], wg) == Settle(u[FORWARD], wg) && Settle(t[INPUT], wg) == Settle(u[INPUT], wg)
    requires forall c :: c in t && c != FW_CHAIN && !IsHook(c) ==> t[c] == u[c]
    ensures SameOutcome(t, u, wg)
  {
    ChainNamesDiffer();
    var a, b := Synced(t, wg, []), Synced(u, wg, []);
    assert a.Keys == b.Keys;
    forall c | c in a ensures a[c] == b[c] {
    }
  }

  /** Hook by hook, a replacement leaves the hook as it was, guarded, or restored; other chains but ours stay. */
  lemma ReplacingShape(s: FilterTable, t: FilterTable, wg: string)
    requires BuiltIn(s) && FW_CHAIN in s && Replacing(s, t, wg)
    ensures BuiltIn(t) && FW_CHAIN in t && t.Keys == s.Keys
    ensures forall c :: c in s && c != FW_CHAIN && !IsHook(c) ==> t[c] == s[c]
    ensures forall h :: IsHook(h) ==> t[h] == s[h] || t[h] == Guarded(s[h], wg) || t[h] == Lifted(Guarded(s[h], wg), wg)
  {
    ChainNamesDiffer();
  }

  /** With at most one guard per hook, wherever a replacement stops, the next success leaves the same table. */
  lemma ReplacedKeeps(t0: FilterTable, t: FilterTable, wg: string)
    requires BuiltIn(t0) && Replacing(Ready(t0, wg), t, wg)
    ensures BuiltIn(t) && (OneGuardEach(t0, wg) ==> SameOutcome(t0, t, wg))
  {
    ChainNamesDiffer();
    var s := Ready(t0, wg);
    ReplacingShape(s, t, wg);
    if OneGuardEach(t0, wg) {
      HookedShape(t0[FORWARD], wg);
      HookedShape(t0[INPUT], wg);
      HookedOneGuard(t0[FORWARD], wg);
      HookedOneGuard(t0[INPUT], wg);
      HookSettles(s[FORWARD], wg);
      HookSettles(s[INPUT], wg);
      assert IsHook(FORWARD) && IsHook(INPUT);
      SameSynced(s, t, wg);
      ReadyIdempotent(t0, wg);
      ReadyKeeps(t0, s, wg);
    }
  }

  lemma ReadyIdempotent(t: FilterTable, wg: string)
    requires BuiltIn(t)
    ensures BuiltIn(Ready(t, wg)) && Ready(Ready(t, wg), wg) == Ready(t, wg)
  {
    ChainNamesDiffer();
    HookedShape(t[FORWARD], wg);
    HookedShape(t[INPUT], wg);
    SameReady(t, Ready(t, wg), wg);
  }

  // ---- What is enforced on the way -------------------------------------------------------------------------------

  /** Every table added to the history enforces one of the two rulesets, and so fails closed between them. */
  ghost predicate Upheld(h0: seq<FilterTable>, h1: seq<FilterTable>, wg: string, last: seq<Args>, next: seq<Args>) {
    h0 <= h1 && forall k :: |h0| <= k < |h1| ==> Between(h1[k], wg, last, next)
  }

  ghost predicate Between(t: FilterTable, wg: string, last: seq<Args>, next: seq<Args>) {
    (Enforcing(t, wg, last) || Enforcing(t, wg, next)) && FailClosed(t, wg, last, next)
  }

  lemma EnforcingIsBetween(t: FilterTable, wg: string, last: seq<Args>, next: seq<Args>)
    requires Enforcing(t, wg, last) || Enforcing(t, wg, next)
    ensures Between(t, wg, last, next)
  {
    if Enforcing(t, wg, last) {
      EnforcingFailsClosed(t, wg, last, next);
    } else {
      EnforcingFailsClosed(t, wg, next, last);
    }
  }

  lemma UpheldCompose(h0: seq<FilterTable>, h1: seq<FilterTable>, h2: seq<FilterTable>, wg: string, last: seq<Args>, next: seq<Args>)
    requires Upheld(h0, h1, wg, last, next) && Upheld(h1, h2, wg, last, next)
    ensures Upheld(h0, h2, wg, last, next)
  {
    forall k | |h0| <= k < |h2| ensures Between(h2[k], wg, last, next) {
      if k < |h1| {
        assert h2[k] == h1[k];
      }
    }
  }

  /** A shaped hook stays in shape when it is guarded, and when its guard is lifted. */
  lemma GuardedShape(rules: seq<Args>, wg: string)
    requires HookShape(rules, wg) && FwJump(wg) in rules
    ensures HookShape(Guarded(rules, wg), wg) && FwJump(wg) in Guarded(rules, wg) && GuardJump(wg) in Guarded(rules, wg)
  {
    assert ([GuardJump(wg)] + rules)[1..] == rules;
  }

  lemma {:induction false} LiftedShape(rules: seq<Args>, wg: string)
    requires HookShape(rules, wg) && FwJump(wg) in rules
    ensures HookShape(Lifted(rules, wg), wg) && FwJump(wg) in Lifted(rules, wg) && OneGuard(rules, wg)
  {
    JumpsDiffer(wg);
    if GuardJump(wg) in rules {
      assert rules == [rules[0]] + rules[1..];
      if rules[0] == GuardJump(wg) {
        UnguardedShape(rules[1..], wg);
      } else {
        LiftedShape(rules[1..], wg);
        var r := Lifted(rules[1..], wg);
        assert ([rules[0]] + r)[1..] == r;
      }
    }
  }

  lemma GuardedInfra(t: FilterTable, wg: string, hook: string)
    requires Infra(t, wg) && IsHook(hook)
    ensures Infra(WithHook(t, hook, Guarded(t[hook], wg)), wg)
  {
    ChainNamesDiffer();
    GuardedShape(t[hook], wg);
  }

  lemma LiftedInfra(t: FilterTable, wg: string, hook: string)
    requires Infra(t, wg) && IsHook(hook)
    ensures Infra(WithHook(t, hook, Lifted(t[hook], wg)), wg)
  {
    ChainNamesDiffer();
    LiftedShape(t[hook], wg);
  }

  lemma DivertingEnforces(s: FilterTable, t: FilterTable, wg: string, last: seq<Args>)
    requires Enforcing(s, wg, last) && Diverting(s, t, wg)
    ensures Enforcing(t, wg, last)
    ensures Infra(Diverted(s, wg), wg) && BothGuarded(Diverted(s, wg), wg)
  {
    ChainNamesDiffer();
    var one := WithHook(s, FORWARD, Guarded(s[FORWARD], wg));
    GuardedInfra(s, wg, FORWARD);
    GuardedInfra(one, wg, INPUT);
    GuardedShape(s[FORWARD], wg);
    GuardedShape(s[INPUT], wg);
  }

  lemma DivertingUpheld(h0: seq<FilterTable>, h1: seq<FilterTable>, s: FilterTable, t: FilterTable, wg: string, last: seq<Args>, next: seq<Args>)
    requires Enforcing(s, wg, last) && DivertingAll(h0, h1, s, wg) && Diverting(s, t, wg)
    ensures Upheld(h0, h1, wg, last, next) && Enforcing(t, wg, last)
    ensures t == Diverted(s, wg) ==> Infra(t, wg) && BothGuarded(t, wg)
  {
    DivertingEnforces(s, t, wg, last);
    forall k | |h0| <= k < |h1| ensures Between(h1[k], wg, last, next) {
      DivertingEnforces(s, h1[k], wg, last);
      EnforcingIsBetween(h1[k], wg, last, next);
    }
  }

  /** While both hooks are diverted the firewall chain may hold anything. */
  lemma FillingEnforces(d: FilterTable, t: FilterTable, wg: string, last: seq<Args>)
    requires Infra(d, wg) && BothGuarded(d, wg) && Filling(d, t)
    ensures Infra(t, wg) && BothGuarded(t, wg) && Enforcing(t, wg, last)
  {
    ChainNamesDiffer();
  }

  lemma FillingUpheld(h1: seq<FilterTable>, h2: seq<FilterTable>, d: FilterTable, t: FilterTable, wg: string, last: seq<Args>, next: seq<Args>)
    requires Infra(d, wg) && BothGuarded(d, wg) && FillingAll(h1, h2, d) && Filling(d, t)
    ensures Upheld(h1, h2, wg, last, next) && Infra(t, wg) && Enforcing(t, wg, last)
  {
    FillingEnforces(d, t, wg, last);
    forall k | |h1| <= k < |h2| ensures Between(h2[k], wg, last, next) {
      FillingEnforces(d, h2[k], wg, last);
      EnforcingIsBetween(h2[k], wg, last, next);
    }
  }

  lemma RestoringEnforces(f: FilterTable, t: FilterTable, wg: string, next: seq<Args>)
    requires Infra(f, wg) && f[FW_CHAIN] == next && Restoring(f, t, wg)
    ensures Enforcing(t, wg, next)
  {
    ChainNamesDiffer();
    LiftedInfra(f, wg, FORWARD);
    LiftedInfra(WithHook(f, FORWARD, Lifted(f[FORWARD], wg)), wg, INPUT);
  }

  lemma RestoringUpheld(h2: seq<FilterTable>, h3: seq<FilterTable>, f: FilterTable, t: FilterTable, wg: string, last: seq<Args>, next: seq<Args>)
    requires Infra(f, wg) && f[FW_CHAIN] == next && RestoringAll(h2, h3, f, wg) && Restoring(f, t, wg)
    ensures Upheld(h2, h3, wg, last, next) && Enforcing(t, wg, next)
  {
    RestoringEnforces(f, t, wg, next);
    forall k | |h2| <= k < |h3| ensures Between(h3[k], wg, last, next) {
      RestoringEnforces(f, h3[k], wg, next);
      EnforcingIsBetween(h3[k], wg, last, next);
    }
  }

  lemma DivertStage(h0: seq<FilterTable>, h1: seq<FilterTable>, s: FilterTable, t: FilterTable, wg: string, last: seq<Args>, next: seq<Args>)
    requires DivertingAll(h0, h1, s, wg) && Diverting(s, t, wg)
    ensures BuiltIn(t) && Replacing(s, t, wg)
    ensures Enforcing(s, wg, last) ==> Upheld(h0, h1, wg, last, next) && Enforcing(t, wg, last)
  {
    if Enforcing(s, wg, last) {
      DivertingUpheld(h0, h1, s, t, wg, last, next);
    }
  }

  lemma FillStage(h0: seq<FilterTable>, h1: seq<FilterTable>, h2: seq<FilterTable>, s: FilterTable, t: FilterTable, wg: string, last: seq<Args>, next: seq<Args>)
    requires BuiltIn(s) && FillingAll(h1, h2, Diverted(s, wg)) && Filling(Diverted(s, wg), t)
    requires Enforcing(s, wg, last) ==> Upheld(h0, h1, wg, last, next)
    ensures BuiltIn(t) && Replacing(s, t, wg)
    ensures Enforcing(s, wg, last) ==> Upheld(h0, h2, wg, last, next) && Enforcing(t, wg, last)
  {
    ChainNamesDiffer();
    if Enforcing(s, wg, last) {
      DivertingEnforces(s, Diverted(s, wg), wg, last);
      FillingUpheld(h1, h2, Diverted(s, wg), t, wg, last, next);
      UpheldCompose(h0, h1, h2, wg, last, next);
    }
  }

  lemma RestoreStage(h0: seq<FilterTable>, h2: seq<FilterTable>, h3: seq<FilterTable>, s: FilterTable, t: FilterTable, wg: string, last: seq<Args>, next: seq<Args>)
    requires BuiltIn(s) && FW_CHAIN in s
    requires var f := WithFw(Diverted(s, wg), next); BuiltIn(f) && RestoringAll(h2, h3, f, wg) && Restoring(f, t, wg)
    requires Enforcing(s, wg, last) ==> Upheld(h0, h2, wg, last, next)
    ensures Replacing(s, t, wg)
    ensures Enforcing(s, wg, last) ==> Upheld(h0, h3, wg, last, next) && Enforcing(t, wg, next)
  {
    ChainNamesDiffer();
    var f := WithFw(Diverted(s, wg), next);
    assert FW_CHAIN in t && t[FW_CHAIN] == next;
    if Enforcing(s, wg, last) {
      DivertingEnforces(s, Diverted(s, wg), wg, last);
      FillingEnforces(Diverted(s, wg), f, wg, last);
      RestoringUpheld(h2, h3, f, t, wg, last, next);
      UpheldCompose(h0, h2, h3, wg, last, next);
    }
  }

  function Vectors(rules: seq<Rule>): (r: seq<Args>)
    ensures |r| == |rules| && forall i :: 0 <= i < |rules| ==> r[i] == rules[i].args
  {
    seq(|rules|, i requires 0 <= i < |rules| => rules[i].args)
  }

  /** Rules for the firewall chain only, with built-in targets: what the planner emits. */
  predicate Programmable(rules: seq<Rule>) {
    forall r :: r in rules ==> r.chain == FW_CHAIN && JumpTarget(r.args) == None
  }

  /** Installs the infrastructure on a fresh table or whatever a previous agent left behind. */
  method NewManager(ipt: Handle<Args>, wg: string) returns (m: Manager?)
    requires ipt.jump == JumpTarget && BuiltIn(ipt.chains)
    modifies ipt
    ensures BuiltIn(ipt.chains) && SameOutcome(old(ipt.chains), ipt.chains, wg)
    ensures m != null ==> fresh(m) && m.ipt == ipt && m.wg == wg && ipt.chains == Ready(old(ipt.chains), wg)
    ensures m != null && old(Startable(ipt.chains, wg)) ==> Enforcing(ipt.chains, wg, m.last)
  {
    ghost var t0 := ipt.chains;
    m := new Manager(ipt, wg);
    var ok := m.EnsureInfra();
    ReadyKeeps(t0, ipt.chains, wg);
    if !ok {
      return null;
    }
    m.last := ipt.chains[FW_CHAIN];
  }

  // ---- Whole runs --------------------------------------------------------------------------------------

  /** One table the kernel went through, during the request with the given index. */
  datatype Step = Step(table: FilterTable, request: nat)

  /** The log covers exactly the tables added to the history. Each of them enforces the ruleset last installed before its
      request, or the requested one, and fails closed between the two. */
  ghost predicate Logged(log: seq<Step>, h0: seq<FilterTable>, h1: seq<FilterTable>, wg: string, installed: seq<seq<Args>>, requests: seq<seq<Rule>>) {
    && h0 <= h1 && |log| == |h1| - |h0|
    && forall k :: 0 <= k < |log| ==>
         && log[k].table == h1[|h0| + k] && log[k].request < |requests| && log[k].request < |installed|
         && Between(log[k].table, wg, installed[log[k].request], Vectors(requests[log[k].request]))
  }

  /** What was last installed before each request: it changes only to the request's own rules, and does when it succeeds. */
  ghost predicate Installations(installed: seq<seq<Args>>, initial: seq<Args>, requests: seq<seq<Rule>>, results: seq<bool>) {
    && |installed| == |results| + 1 <= |requests| + 1 && installed[0] == initial
    && forall i :: 0 <= i < |results| ==>
         && (installed[i + 1] == installed[i] || installed[i + 1] == Vectors(requests[i]))
         && (results[i] ==> installed[i + 1] == Vectors(requests[i]))
  }

  lemma LogSync(log: seq<Step>, h0: seq<FilterTable>, h1: seq<FilterTable>, h2: seq<FilterTable>, wg: string, installed: seq<seq<Args>>,
      requests: seq<seq<Rule>>, next: seq<Args>) returns (log': seq<Step>)
    requires Logged(log, h0, h1, wg, installed, requests) && 0 < |installed| <= |requests|
    requires Upheld(h1, h2, wg, installed[|installed| - 1], Vectors(requests[|installed| - 1]))
    ensures Logged(log', h0, h2, wg, installed + [next], requests)
  {
    var i := |installed| - 1;
    var added := seq(|h2| - |h1|, k requires 0 <= k < |h2| - |h1| => Step(h2[|h1| + k], i));
    log' := log + added;
    forall k | 0 <= k < |log'|
      ensures log'[k].table == h2[|h0| + k] && log'[k].request < |installed|
      ensures Between(log'[k].table, wg, (installed + [next])[log'[k].request], Vectors(requests[log'[k].request]))
    {
      if k < |log| {
        assert h2[|h0| + k] == h1[|h0| + k];
      }
    }
  }

  lemma InstallationsStep(installed: seq<seq<Args>>, initial: seq<Args>, requests: seq<seq<Rule>>, results: seq<bool>, last: seq<Args>, ok: bool)
    requires Installations(installed, initial, requests, results) && |results| < |requests|
    requires last == installed[|results|] || last == Vectors(requests[|results|])
    requires ok ==> last == Vectors(requests[|results|])
    ensures Installations(installed + [last], initial, requests, results + [ok]) && (installed + [last])[|results| + 1] == last
  {
    var ins, rs := installed + [last], results + [ok];
    forall i | 0 <= i < |rs|
      ensures (ins[i + 1] == ins[i] || ins[i + 1] == Vectors(requests[i])) && (rs[i] ==> ins[i + 1] == Vectors(requests[i]))
    {
      if i < |results| {
        assert ins[i] == installed[i] && ins[i + 1] == installed[i + 1] && rs[i] == results[i];
      }
    }
  }

  /** How far a run has come: from table `t0` with `l0` in force to table `t` with `l` in force. */
  ghost predicate Reached(t0: FilterTable, h0: seq<FilterTable>, l0: seq<Args>, t: FilterTable, h: seq<FilterTable>, l: seq<Args>, wg: string,
      requests: seq<seq<Rule>>, results: seq<bool>, log: seq<Step>, installed: seq<seq<Args>>) {
    && Enforcing(t, wg, l) && SameOutcome(t0, t, wg)
    && Installations(installed, l0, requests, results) && installed[|results|] == l
    && Logged(log, h0, h, wg, installed, requests)
    && LastSucceeded(t0, t, wg, requests, results)
  }

  /** If the latest sync succeeded, the table is the one a fault-free run would have left. */
  ghost predicate LastSucceeded(t0: FilterTable, t: FilterTable, wg: string, requests: seq<seq<Rule>>, results: seq<bool>) {
    && BuiltIn(t0) && |results| <= |requests|
    && (results != [] && results[|results| - 1] ==> t == Synced(t0, wg, Vectors(requests[|results| - 1])))
  }

  lemma ReachedStart(t: FilterTable, h: seq<FilterTable>, l: seq<Args>, wg: string, requests: seq<seq<Rule>>)
    requires Enforcing(t, wg, l)
    ensures Reached(t, h, l, t, h, l, wg, requests, [], [], [l])
  {
  }

  lemma ReachedNext(t0: FilterTable, h0: seq<FilterTable>, l0: seq<Args>, t: FilterTable, h: seq<FilterTable>, l: seq<Args>, wg: string,
      requests: seq<seq<Rule>>, results: seq<bool>, log: seq<Step>, installed: seq<seq<Args>>,
      t': FilterTable, h': seq<FilterTable>, l': seq<Args>, ok: bool) returns (log': seq<Step>)
    requires Reached(t0, h0, l0, t, h, l, wg, requests, results, log, installed) && |results| < |requests|
    requires Enforcing(t', wg, l') && SameOutcome(t, t', wg)
    requires var next := Vectors(requests[|results|]); Upheld(h, h', wg, l, next) && (l' == l || l' == next) && (ok ==> l' == next && t' == Synced(t, wg, next))
    ensures Reached(t0, h0, l0, t', h', l', wg, requests, results + [ok], log', installed + [l'])
  {
    log' := LogSync(log, h0, h, h', wg, installed, requests, l');
    InstallationsStep(installed, l0, requests, results, l', ok);
    SyncedSame(t0, t, wg, Vectors(requests[|results|]));
  }

  method RunNext(m: Manager, requests: seq<seq<Rule>>, results: seq<bool>,
      ghost t0: FilterTable, ghost h0: seq<FilterTable>, ghost l0: seq<Args>, ghost log: seq<Step>, ghost installed: seq<seq<Args>>)
      returns (ok: bool, ghost log': seq<Step>)
    requires m.ipt.jump == JumpTarget && |results| < |requests| && Programmable(requests[|results|])
    requires Reached(t0, h0, l0, m.ipt.chains, m.ipt.history, m.last, m.wg, requests, results, log, installed)
    modifies m, m.ipt
    ensures Reached(t0, h0, l0, m.ipt.chains, m.ipt.history, m.last, m.wg, requests, results + [ok], log', installed + [m.last])
  {
    ghost var h, t, l := m.ipt.history, m.ipt.chains, m.last;
    ShapedOneGuard(t, m.wg);
    ok := m.SyncFirewall(requests[|results|]);
    log' := ReachedNext(t0, h0, l0, t, h, l, m.wg, requests, results, log, installed, m.ipt.chains, m.ipt.history, m.last, ok);
  }

  /** Any sequence of syncs, with any call of any of them failing: every table in between enforces, and lets a mesh packet
      past a hook only if the last complete ruleset or the one being installed does; and the next sync that succeeds
      leaves exactly the table a fault-free run would have left. */
  method Run(m: Manager, requests: seq<seq<Rule>>) returns (results: seq<bool>, ghost log: seq<Step>, ghost installed: seq<seq<Args>>)
    requires m.ipt.jump == JumpTarget && Enforcing(m.ipt.chains, m.wg, m.last)
    requires forall r :: r in requests ==> Programmable(r)
    modifies m, m.ipt
    ensures |results| == |requests|
    ensures Installations(installed, old(m.last), requests, results)
    ensures Logged(log, old(m.ipt.history), m.ipt.history, m.wg, installed, requests)
    ensures Enforcing(m.ipt.chains, m.wg, installed[|requests|])
    ensures LastSucceeded(old(m.ipt.chains), m.ipt.chains, m.wg, requests, results)
  {
    ghost var t0, h0, l0 := m.ipt.chains, m.ipt.history, m.last;
    results, log, installed := [], [], [l0];
    ReachedStart(t0, h0, l0, m.wg, requests);
    for i := 0 to |requests|
      invariant |results| == i && m.ipt.jump == JumpTarget
      invariant Reached(t0, h0, l0, m.ipt.chains, m.ipt.history, m.last, m.wg, requests, results, log, installed)
    {
      assert requests[i] in requests;
      var ok;
      ok, log := RunNext(m, requests, results, t0, h0, l0, log, installed);
      results, installed := results + [ok], installed + [m.last];
    }
  }

  /** A shaped hook holds at most one guard. */
  lemma ShapedOneGuard(t: FilterTable, wg: string)
    requires Infra(t, wg)
    ensures OneGuardEach(t, wg)
  {
    LiftedShape(t[FORWARD], wg);
    LiftedShape(t[INPUT], wg);
  }

  lemma SettleTwice(rules: seq<Args>, wg: string)
    requires OneGuard(rules, wg)
    ensures Settle(Settle(rules, wg), wg) == Settle(rules, wg)
    ensures GuardJump(wg) !in Settle(rules, wg) && FwJump(wg) in Settle(rules, wg)
  {
    HookedShape(rules, wg);
    HookedOneGuard(rules, wg);
    var r := Hooked(rules, wg);
    HookSettles(r, wg);
    LiftedKeeps(Guarded(r, wg), wg);
  }

  /** With at most one guard per hook, syncing again is a fixed point: only the last ruleset matters. */
  lemma SyncedTwice(t: FilterTable, wg: string, r1: seq<Args>, r2: seq<Args>)
    requires OneGuardEach(t, wg)
    ensures BuiltIn(Synced(t, wg, r1)) && Synced(Synced(t, wg, r1), wg, r2) == Synced(t, wg, r2)
  {
    ChainNamesDiffer();
    var u := Synced(t, wg, r1);
    SettleTwice(t[FORWARD], wg);
    SettleTwice(t[INPUT], wg);
    var a, b := Synced(u, wg, r2), Synced(t, wg, r2);
    assert a.Keys == b.Keys;
    forall c | c in a ensures a[c] == b[c] {
    }
  }

  /** What the planner emits may be programmed. */
  lemma CompiledIsProgrammable(parse: Parser, cc: ClusterCIDRs, policies: seq<Policy>)
    ensures Programmable(InChain(CompiledChain(parse, cc, policies)))
    ensures Vectors(InChain(CompiledChain(parse, cc, policies))) == CompiledChain(parse, cc, policies)
  {
    var ks, ds := SortedAccepts(AllKeys(parse, cc, policies)), SortedDests(AllDests(parse, policies));
    var chain := CompiledChain(parse, cc, policies);
    assert chain == [ConntrackArgs()] + AcceptVectors(ks) + DropVectors(ds);
    SectionsTargetNothing(parse, ks, ds);
    forall r | r in InChain(chain) ensures r.chain == FW_CHAIN && JumpTarget(r.args) == None {
      var i :| 0 <= i < |chain| && r == InChain(chain)[i];
      assert chain[i] in chain;
    }
  }

  lemma SectionsTargetNothing(parse: Parser, ks: seq<AcceptKey>, ds: seq<string>)
    ensures forall args :: args in [ConntrackArgs()] + AcceptVectors(ks) + DropVectors(ds) ==> JumpTarget(args) == None
  {
    forall args | args in [ConntrackArgs()] + AcceptVectors(ks) + DropVectors(ds) ensures JumpTarget(args) == None {
      if args in AcceptVectors(ks) {
        var i :| 0 <= i < |ks| && args == AcceptVectors(ks)[i];
        PrintedTargets(parse, ks[i], "");
      } else if args in DropVectors(ds) {
        var i :| 0 <= i < |ds| && args == DropVectors(ds)[i];
        PrintedTargets(parse, AcceptKey("", "", "", ""), ds[i]);
      } else {
        assert args == ConntrackArgs();
        PrintedTargets(parse, AcceptKey("", "", "", ""), "");
      }
    }
  }

  lemma PrintedTargets(parse: Parser, k: AcceptKey, d: string)
    ensures JumpTarget(ConntrackArgs()) == JumpTarget(AcceptArgs(k)) == JumpTarget(DropArgs(d)) == None
  {
    var pkt := Packet("", 0, 0, "", 0, false);
    ConntrackMeaning(parse, pkt);
    AcceptArgsMeaning(parse, k, pkt);
    DropArgsMeaning(parse, d, pkt);
    assert |"ACCEPT"| < |FW_CHAIN| && |"DROP"| < |FW_CHAIN| < |GUARD_CHAIN|;
  }

  // ---- Drifted tables --------------------------------------------------------------------------------------------

  lemma {:induction false} DropPresentDecides(parse: Parser, content: seq<Args>, pkt: Packet)
    requires DROP_ALL in content
    ensures Decide(parse, content, pkt).Some?
  {
    if content[0] == DROP_ALL {
      JumpMatches(parse, "DROP", pkt);
    } else {
      assert content == [content[0]] + content[1..];
      DropPresentDecides(parse, content[1..], pkt);
    }
  }

  /** For rules whose meaning is modelled: the ensured guard drops a packet exactly when no rule found there accepts it
      or returns it first, and it is a lone blanket DROP exactly when it started absent, empty or as one. */
  lemma GuardEnsuredExactly(parse: Parser, content: seq<Args>, pkt: Packet)
    requires forall args :: args in content ==> Modelled(args)
    ensures Evaluate(parse, GuardEnsured(content), pkt) == Drop <==> Decide(parse, content, pkt) == None || Decide(parse, content, pkt) == Some(Drop)
    ensures GuardEnsured(content) == [DROP_ALL] <==> content == [] || content == [DROP_ALL]
  {
    if DROP_ALL in content {
      DropPresentDecides(parse, content, pkt);
    } else {
      DropAllDrops(parse, pkt);
      DecideAppend(parse, content, [DROP_ALL], pkt);
      if content + [DROP_ALL] == [DROP_ALL] {
        assert |content| == 0;
      }
    }
  }

  lemma WindowHooks(t: FilterTable, wg: string)
    requires BuiltIn(t)
    ensures var w := Window(t, wg);
      && BuiltIn(w) && FW_CHAIN in w && w[FW_CHAIN] == []
      && GUARD_CHAIN in w && w[GUARD_CHAIN] == GuardEnsured(Content(t, GUARD_CHAIN))
      && forall h :: IsHook(h) ==> GuardJump(wg) in w[h]
  {
    ChainNamesDiffer();
  }

  /** While the firewall chain is empty, a hook that holds a guard gives the guard's verdict, wherever the guard stands. */
  lemma {:induction false} EmptiedHookVerdict(parse: Parser, t: FilterTable, wg: string, rules: seq<Args>, pkt: Packet)
    requires FW_CHAIN in t && GUARD_CHAIN in t && t[FW_CHAIN] == [] && pkt.iface == wg
    ensures OwnVerdict(parse, t, wg, rules, pkt) == Return || OwnVerdict(parse, t, wg, rules, pkt) == Evaluate(parse, t[GUARD_CHAIN], pkt)
    ensures GuardJump(wg) in rules ==> OwnVerdict(parse, t, wg, rules, pkt) == Evaluate(parse, t[GUARD_CHAIN], pkt)
  {
    JumpMeaning(parse, t, wg, pkt);
    if rules != [] {
      assert rules == [rules[0]] + rules[1..];
      EmptiedHookVerdict(parse, t, wg, rules[1..], pkt);
    }
  }

  lemma WindowVerdict(parse: Parser, t: FilterTable, wg: string, hook: string, pkt: Packet)
    requires BuiltIn(t) && IsHook(hook) && pkt.iface == wg
    ensures var w := Window(t, wg);
      && hook in w && FW_CHAIN in w && GUARD_CHAIN in w
      && OwnVerdict(parse, w, wg, w[hook], pkt) == Evaluate(parse, GuardEnsured(Content(t, GUARD_CHAIN)), pkt)
  {
    WindowHooks(t, wg);
    var w := Window(t, wg);
    EmptiedHookVerdict(parse, w, wg, w[hook], pkt);
  }

  /** For guard rules whose meaning is modelled, and whatever the hooks hold: the rebuild window fails closed whatever is
      being replaced, if and only if the ensured guard drops every packet of the mesh device. */
  lemma WindowFailsClosedExactly(t: FilterTable, wg: string)
    requires BuiltIn(t) && forall args :: args in Content(t, GUARD_CHAIN) ==> Modelled(args)
    ensures (forall last, next :: FailClosed(Window(t, wg), wg, last, next)) <==>
      forall parse: Parser, pkt: Packet :: pkt.iface == wg ==> Evaluate(parse, GuardEnsured(Content(t, GUARD_CHAIN)), pkt) == Drop
  {
    var w, guard := Window(t, wg), GuardEnsured(Content(t, GUARD_CHAIN));
    WindowHooks(t, wg);
    forall parse: Parser, hook: string, pkt: Packet | IsHook(hook) && pkt.iface == wg
      ensures OwnVerdict(parse, w, wg, w[hook], pkt) == Evaluate(parse, guard, pkt)
    {
      WindowVerdict(parse, t, wg, hook, pkt);
    }
    if forall last, next :: FailClosed(w, wg, last, next) {
      assert FailClosed(w, wg, [DROP_ALL], [DROP_ALL]);
      forall parse: Parser, pkt: Packet | pkt.iface == wg ensures Evaluate(parse, guard, pkt) == Drop {
        DropAllDrops(parse, pkt);
        assert IsHook(FORWARD) && !Lets(parse, [DROP_ALL], pkt);
      }
    }
    if forall parse: Parser, pkt: Packet :: pkt.iface == wg ==> Evaluate(parse, guard, pkt) == Drop {
      forall last, next ensures FailClosed(w, wg, last, next) {
        forall parse: Parser, hook: string, pkt: Packet | IsHook(hook) && pkt.iface == wg ensures OwnVerdict(parse, w, wg, w[hook], pkt) == Drop {
          assert Evaluate(parse, guard, pkt) == Drop;
        }
      }
    }
  }

  /** A stray ACCEPT or RETURN in the guard chain makes the rebuild window fail open, whatever rule set is installed. */
  lemma DriftedGuardFailsOpen(t: FilterTable, wg: string, target: string)
    requires BuiltIn(t) && (target == "ACCEPT" || target == "RETURN") && Content(t, GUARD_CHAIN) == [["-j", target]]
    ensures !FailClosed(Window(t, wg), wg, [DROP_ALL], [DROP_ALL])
  {
    var parse: Parser, pkt := (s: string) => None, Packet(wg, 0, 0, "", 0, false);
    var content := [["-j", target]];
    JumpMatches(parse, target, pkt);
    assert content[0][1] != DROP_ALL[1];
    assert GuardEnsured(content)[0] == content[0];
    WindowVerdict(parse, t, wg, FORWARD, pkt);
    DropAllDrops(parse, pkt);
    assert IsHook(FORWARD) && !Lets(parse, [DROP_ALL], pkt);
  }

  lemma {:induction false} LeftGuardDrops(parse: Parser, t: FilterTable, wg: string, rules: seq<Args>, pkt: Packet)
    requires FW_CHAIN in t && GUARD_CHAIN in t && t[FW_CHAIN] == [] && GuardJump(wg) in rules && pkt.iface == wg
    requires Evaluate(parse, t[GUARD_CHAIN], pkt) == Drop
    ensures OwnVerdict(parse, t, wg, rules, pkt) == Drop
  {
    JumpMeaning(parse, t, wg, pkt);
    assert rules == [rules[0]] + rules[1..];
    if rules[0] != GuardJump(wg) {
      LeftGuardDrops(parse, t, wg, rules[1..], pkt);
    }
  }

  /** What a packet should meet in a hook: the rules if it arrives on the mesh device, nothing otherwise. */
  function Governed(parse: Parser, wg: string, rules: seq<Args>, pkt: Packet): Verdict {
    if pkt.iface == wg then Evaluate(parse, rules, pkt) else Return
  }

  /** After the sync exactly the packets of the mesh device meet the rules, in both hooks; the others pass untouched. */
  ghost predicate RestoresRules(t: FilterTable, wg: string, rules: seq<Args>)
    requires BuiltIn(t)
  {
    var u := Synced(t, wg, rules);
    forall parse: Parser, hook: string, pkt: Packet :: IsHook(hook) && hook in u && FW_CHAIN in u && GUARD_CHAIN in u ==>
      OwnVerdict(parse, u, wg, u[hook], pkt) == Governed(parse, wg, rules, pkt)
  }

  /** A completed sync puts exactly the new rules in force, whatever they are, if and only if no hook held two guards:
      only one guard is lifted per sync, so of stacked guards one stays and keeps dropping. */
  lemma SyncRestoresExactly(t: FilterTable, wg: string)
    requires BuiltIn(t) && Denies(GuardEnsured(Content(t, GUARD_CHAIN)))
    ensures (forall rules :: RestoresRules(t, wg, rules)) <==> OneGuardEach(t, wg)
  {
    if OneGuardEach(t, wg) {
      SettleTwice(t[FORWARD], wg);
      SettleTwice(t[INPUT], wg);
      forall rules ensures RestoresRules(t, wg, rules) {
        SettledEvaluates(t, wg, rules);
      }
    } else {
      StackedKeepsDropping(t, wg, if OneGuard(t[FORWARD], wg) then INPUT else FORWARD);
    }
  }

  lemma StackedKeepsDropping(t: FilterTable, wg: string, hook: string)
    requires BuiltIn(t) && Denies(GuardEnsured(Content(t, GUARD_CHAIN))) && IsHook(hook) && !OneGuard(t[hook], wg)
    ensures !RestoresRules(t, wg, [])
  {
    ChainNamesDiffer();
    StackedStays(t[hook], wg);
    var parse: Parser, pkt := (s: string) => None, Packet(wg, 0, 0, "", 0, false);
    var u := Synced(t, wg, []);
    LeftGuardDrops(parse, u, wg, u[hook], pkt);
    assert OwnVerdict(parse, u, wg, u[hook], pkt) != Governed(parse, wg, [], pkt);
  }

  lemma SettledEvaluates(t: FilterTable, wg: string, rules: seq<Args>)
    requires BuiltIn(t) && GuardJump(wg) !in Settle(t[FORWARD], wg) && GuardJump(wg) !in Settle(t[INPUT], wg)
    requires FwJump(wg) in Settle(t[FORWARD], wg) && FwJump(wg) in Settle(t[INPUT], wg)
    ensures RestoresRules(t, wg, rules)
  {
    ChainNamesDiffer();
    var u := Synced(t, wg, rules);
    forall parse: Parser, hook: string, pkt: Packet | IsHook(hook)
      ensures OwnVerdict(parse, u, wg, u[hook], pkt) == Governed(parse, wg, rules, pkt)
    {
      if pkt.iface == wg {
        UnguardedHookEvaluates(parse, u, wg, u[hook], pkt);
      } else {
        OtherDevicesUntouched(parse, u, wg, u[hook], pkt);
      }
    }
  }

  lemma StackedStays(rules: seq<Args>, wg: string)
    requires !OneGuard(rules, wg)
    ensures GuardJump(wg) in Settle(rules, wg)
  {
    JumpsDiffer(wg);
    if FwJump(wg) !in rules {
      assert ([FwJump(wg)] + rules)[1..] == rules;
    }
  }
}
