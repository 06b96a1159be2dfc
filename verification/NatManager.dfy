/** pkg/nat/manager.go: tearing down and rebuilding the ClusterSetIP chains under iptables' own rules. */
module NatManager {
  import opened Cidr
  import opened Order
  import opened NatPlan
  import opened Iptables

  const PREROUTING := "PREROUTING"
  const OUTPUT := "OUTPUT"

  type NatTable = Chains<NatRule>

  function JumpTarget(r: NatRule): Option<string> {
    if TargetOf(r) == "" then None else Some(TargetOf(r))
  }

  /** The built-in chains in which a packet's destination may still be rewritten. */
  predicate IsHook(c: string) {
    c == "PREROUTING" || c == "OUTPUT"
  }

  /** A chain the rebuild owns: the root chain or a per-service chain. */
  predicate Own(c: string) {
    c == ROOT_CHAIN || Managed(c)
  }

  function Hooked(rules: seq<NatRule>): seq<NatRule> {
    if Jump(ROOT_CHAIN) in rules then rules else [Jump(ROOT_CHAIN)] + rules
  }

  /** Everything but our own chains, with the hooks in place: the part a rebuild must not touch. */
  function Rest(t: NatTable): NatTable {
    map c | c in t && !Own(c) :: if IsHook(c) then Hooked(t[c]) else t[c]
  }

  /** No foreign chain jumps into a managed chain. */
  ghost predicate NoForeignJumps(rest: NatTable) {
    forall c, i :: c in rest && 0 <= i < |rest[c]| ==> !Managed(TargetOf(rest[c][i]))
  }

  /** A table the rebuild may start from: drifted, fresh, or left by a failed rebuild. */
  ghost predicate Rebuildable(t: NatTable) {
    PREROUTING in t && OUTPUT in t && NoForeignJumps(Rest(t))
  }

  /** The rules of one chain, in append order. */
  function Contents(rules: seq<Rule>, chain: string): seq<NatRule> {
    Collect((r: Rule) => if r.chain == chain then [r.rule] else [], rules)
  }

  /** Our chains, exactly as the ruleset wants them. */
  function OwnPart(chains: set<string>, rules: seq<Rule>): NatTable {
    map c | c in chains + {ROOT_CHAIN} :: Contents(rules, c)
  }

  /** The table a completed rebuild leaves: whatever our chains held before is gone. */
  function Rebuilt(t: NatTable, rs: Ruleset): NatTable {
    Rest(t) + OwnPart(Elements(rs.chains), rs.rules)
  }

  lemma NamesDiffer()
    ensures !Own(PREROUTING) && !Own(OUTPUT) && !Managed(ROOT_CHAIN) && PREROUTING != OUTPUT
  {
    assert PREROUTING[0] == 'P' && OUTPUT[0] == 'O' && ROOT_CHAIN[4] == 'C';
    assert SVC_PREFIX[0] == 'D' && SEP_PREFIX[0] == 'D' && SVC_PREFIX[4] == 'S' && SEP_PREFIX[4] == 'S';
  }

  lemma RestOwnSet(t: NatTable, c: string, rules: seq<NatRule>)
    requires Own(c)
    ensures Rest(t[c := rules]) == Rest(t)
  {
  }

  lemma RestOwnDelete(t: NatTable, c: string)
    requires Own(c)
    ensures Rest(t - {c}) == Rest(t)
  {
  }

  lemma RestHookInsert(t: NatTable, c: string)
    requires IsHook(c) && c in t && Jump(ROOT_CHAIN) !in t[c]
    ensures Rest(t[c := [Jump(ROOT_CHAIN)] + t[c]]) == Rest(t)
  {
    NamesDiffer();
    var u := t[c := [Jump(ROOT_CHAIN)] + t[c]];
    assert Jump(ROOT_CHAIN) == u[c][0];
    assert Hooked(u[c]) == Hooked(t[c]);
    assert Rest(u).Keys == Rest(t).Keys;
  }

  /** A rebuilt table sends both kinds of traffic to the root chain: what arrives, and what this node sends. */
  lemma RebuiltIsHooked(t: NatTable, rs: Ruleset)
    requires Rebuildable(t) && ROOT_CHAIN !in rs.chains && (forall c :: c in rs.chains ==> Managed(c))
    ensures forall hook :: hook == "PREROUTING" || hook == "OUTPUT" ==> hook in Rebuilt(t, rs) && Jump("DWX-CLUSTERSET") in Rebuilt(t, rs)[hook]
  {
    NamesDiffer();
    assert forall c :: c in Elements(rs.chains) ==> c in rs.chains;
  }

  /** With our chains empty, a managed chain is referenced by nobody. */
  lemma EmptiedIsUnreferenced(t: NatTable, c: string)
    requires Rebuildable(t) && Managed(c)
    requires forall d :: d in t && Own(d) ==> t[d] == []
    ensures Unreferenced(t, JumpTarget, c)
  {
    forall d, i | d in t && 0 <= i < |t[d]| ensures JumpTarget(t[d][i]) != Some(c) {
      assert !Own(d);
      var rest := Rest(t)[d];
      if IsHook(d) && Jump(ROOT_CHAIN) !in t[d] {
        assert rest[i + 1] == t[d][i];
      } else {
        assert rest[i] == t[d][i];
      }
    }
  }

  /** The chains of the table that a rebuild deletes. */
  function ManagedIn(t: NatTable): set<string> {
    set c | c in t && Managed(c)
  }

  lemma {:induction false} ContentsOfOthers(rules: seq<Rule>, chain: string)
    requires forall r :: r in rules ==> r.chain != chain
    ensures Contents(rules, chain) == []
  {
    if rules != [] {
      assert forall r :: r in rules[1..] ==> r in rules;
      ContentsOfOthers(rules[1..], chain);
      assert rules[0] in rules;
    }
  }

  lemma ContentsStep(rules: seq<Rule>, i: nat, chain: string)
    requires i < |rules|
    ensures Contents(rules[..i + 1], chain)
         == if rules[i].chain == chain then Contents(rules[..i], chain) + [rules[i].rule] else Contents(rules[..i], chain)
  {
    CollectStep((r: Rule) => if r.chain == chain then [r.rule] else [], rules, i);
  }

  /** Appending the next rule turns the partial own part into the next one. */
  lemma AppendStep(t: NatTable, rest: NatTable, chains: set<string>, rules: seq<Rule>, i: nat)
    requires i < |rules| && t == rest + OwnPart(chains, rules[..i])
    requires rules[i].chain in chains + {ROOT_CHAIN}
    ensures t[rules[i].chain := t[rules[i].chain] + [rules[i].rule]] == rest + OwnPart(chains, rules[..i + 1])
  {
    var c := rules[i].chain;
    var u := t[c := t[c] + [rules[i].rule]];
    var v := rest + OwnPart(chains, rules[..i + 1]);
    assert u.Keys == v.Keys;
    forall d | d in u ensures u[d] == v[d] {
      ContentsStep(rules, i, d);
    }
  }

  class Manager {
    const ipt: Handle<NatRule>

    constructor (ipt: Handle<NatRule>)
      ensures this.ipt == ipt
    {
      this.ipt := ipt;
    }

    method EnsureChain(chain: string) returns (ok: bool)
      requires Own(chain)
      modifies ipt
      ensures Rest(ipt.chains) == old(Rest(ipt.chains))
      ensures forall c :: c in old(ipt.chains) ==> c in ipt.chains
      ensures ok ==> chain in ipt.chains
    {
      var checked, found := ipt.ChainExists(chain);
      if !checked {
        return false;
      }
      if !found {
        RestOwnSet(ipt.chains, chain, []);
        ok := ipt.NewChain(chain);
        return;
      }
      return true;
    }

    method EnsureHook(hook: string) returns (ok: bool)
      requires ipt.jump == JumpTarget && IsHook(hook) && hook in ipt.chains && ROOT_CHAIN in ipt.chains
      modifies ipt
      ensures Rest(ipt.chains) == old(Rest(ipt.chains)) && ipt.chains.Keys == old(ipt.chains.Keys)
      ensures forall c :: c in ipt.chains && c != hook ==> ipt.chains[c] == old(ipt.chains)[c]
      ensures ipt.chains[hook] == old(ipt.chains)[hook] || ipt.chains[hook] == Hooked(old(ipt.chains)[hook])
      ensures ok ==> Jump(ROOT_CHAIN) in ipt.chains[hook]
    {
      var checked, found := ipt.Exists(hook, Jump(ROOT_CHAIN));
      if !checked {
        return false;
      }
      if !found {
        RestHookInsert(ipt.chains, hook);
        ok := ipt.InsertFirst(hook, Jump(ROOT_CHAIN));
        return;
      }
      return true;
    }

    method EnsureInfra() returns (ok: bool)
      requires ipt.jump == JumpTarget && Rebuildable(ipt.chains)
      modifies ipt
      ensures Rebuildable(ipt.chains) && Rest(ipt.chains) == old(Rest(ipt.chains))
      ensures ok ==> Installed(ipt.chains)
    {
      NamesDiffer();
      ok := EnsureChain(ROOT_CHAIN);
      if !ok {
        return;
      }
      ok := EnsureHook(PREROUTING);
      if !ok {
        return;
      }
      ok := EnsureHook(OUTPUT);
    }

    /** Flushes the listed chains. */
    method FlushAll(names: seq<string>) returns (ok: bool)
      requires Rebuildable(ipt.chains) && Installed(ipt.chains) && ipt.chains[ROOT_CHAIN] == []
      requires forall c :: c in names ==> c in ipt.chains && Managed(c)
      modifies ipt
      ensures Rebuildable(ipt.chains) && Installed(ipt.chains) && ipt.chains[ROOT_CHAIN] == []
      ensures Rest(ipt.chains) == old(Rest(ipt.chains)) && ipt.chains.Keys == old(ipt.chains.Keys)
      ensures ok ==> forall c :: c in names ==> ipt.chains[c] == []
    {
      NamesDiffer();
      for i := 0 to |names|
        invariant Rebuildable(ipt.chains) && Installed(ipt.chains) && ipt.chains[ROOT_CHAIN] == []
        invariant Rest(ipt.chains) == old(Rest(ipt.chains)) && ipt.chains.Keys == old(ipt.chains.Keys)
        invariant forall j :: 0 <= j < i ==> ipt.chains[names[j]] == []
      {
        RestOwnSet(ipt.chains, names[i], []);
        ok := ipt.ClearChain(names[i]);
        if !ok {
          return;
        }
      }
      return true;
    }

    /** Deletes the listed chains; each is empty and unreferenced by then. */
    method DeleteAll(names: seq<string>) returns (ok: bool)
      requires ipt.jump == JumpTarget && Rebuildable(ipt.chains) && Installed(ipt.chains)
      requires NoDup(names) && Elements(names) == ManagedIn(ipt.chains)
      requires forall c :: c in ipt.chains && Own(c) ==> ipt.chains[c] == []
      modifies ipt
      ensures Rebuildable(ipt.chains) && Installed(ipt.chains)
      ensures Rest(ipt.chains) == old(Rest(ipt.chains))
      ensures ok ==> ManagedIn(ipt.chains) == {} && ipt.chains[ROOT_CHAIN] == []
    {
      NamesDiffer();
      for i := 0 to |names|
        invariant Rebuildable(ipt.chains) && Installed(ipt.chains)
        invariant Rest(ipt.chains) == old(Rest(ipt.chains))
        invariant ManagedIn(ipt.chains) == Elements(names[i..])
        invariant forall c :: c in ipt.chains && Own(c) ==> ipt.chains[c] == []
      {
        SuffixElements(names, i);
        EmptiedIsUnreferenced(ipt.chains, names[i]);
        RestOwnDelete(ipt.chains, names[i]);
        ok := ipt.DeleteChain(names[i]);
        if !ok {
          return;
        }
      }
      return true;
    }

    method DeleteManagedChains() returns (ok: bool)
      requires ipt.jump == JumpTarget && Rebuildable(ipt.chains) && Installed(ipt.chains) && ipt.chains[ROOT_CHAIN] == []
      modifies ipt
      ensures Rebuildable(ipt.chains) && Installed(ipt.chains) && Rest(ipt.chains) == old(Rest(ipt.chains))
      ensures ok ==> ManagedIn(ipt.chains) == {} && ipt.chains[ROOT_CHAIN] == []
    {
      var listed, existing := ipt.ListChains();
      if !listed {
        return false;
      }
      var managed := Enumerate(set c | c in existing && Managed(c));
      assert Elements(managed) == ManagedIn(ipt.chains);
      assert forall c :: c in managed ==> c in Elements(managed);
      ok := FlushAll(managed);
      if !ok {
        return;
      }
      assert forall c :: c in ipt.chains && Managed(c) ==> c in Elements(managed);
      ok := DeleteAll(managed);
    }

    /** Creates the chains (none exists yet), then appends every rule (its chain and target exist). */
    method ApplyRuleset(rs: Ruleset) returns (ok: bool)
      requires ipt.jump == JumpTarget && Rebuildable(ipt.chains) && Installed(ipt.chains)
      requires ManagedIn(ipt.chains) == {} && ipt.chains[ROOT_CHAIN] == []
      requires NoDup(rs.chains) && (forall c :: c in rs.chains ==> Managed(c)) && Closed(rs.rules, Elements(rs.chains))
      modifies ipt
      ensures Rebuildable(ipt.chains) && Rest(ipt.chains) == old(Rest(ipt.chains))
      ensures ok ==> ipt.chains == Rebuilt(old(ipt.chains), rs)
    {
      ok := CreateChains(rs.chains);
      if !ok {
        return;
      }
      ok := AppendRules(Elements(rs.chains), rs.rules);
    }

    method CreateChains(names: seq<string>) returns (ok: bool)
      requires Rebuildable(ipt.chains) && Installed(ipt.chains)
      requires ManagedIn(ipt.chains) == {} && ipt.chains[ROOT_CHAIN] == []
      requires NoDup(names) && forall c :: c in names ==> Managed(c)
      modifies ipt
      ensures Rebuildable(ipt.chains) && Installed(ipt.chains) && Rest(ipt.chains) == old(Rest(ipt.chains))
      ensures ok ==> ipt.chains == Rest(old(ipt.chains)) + OwnPart(Elements(names), [])
    {
      NamesDiffer();
      assert forall c :: c in ipt.chains && Managed(c) ==> c in ManagedIn(ipt.chains);
      for i := 0 to |names|
        invariant Rebuildable(ipt.chains) && Installed(ipt.chains) && Rest(ipt.chains) == old(Rest(ipt.chains))
        invariant ManagedIn(ipt.chains) == Elements(names[..i])
        invariant forall c :: c in ipt.chains && Own(c) ==> ipt.chains[c] == []
      {
        PrefixElements(names, i);
        assert names[i] !in Elements(names[..i]);
        RestOwnSet(ipt.chains, names[i], []);
        ok := ipt.NewChain(names[i]);
        if !ok {
          return;
        }
      }
      assert names[..|names|] == names;
      InstalledIsRest(ipt.chains, Elements(names));
      return true;
    }

    method AppendRules(chains: set<string>, rules: seq<Rule>) returns (ok: bool)
      requires ipt.jump == JumpTarget && Rebuildable(ipt.chains) && Installed(ipt.chains)
      requires ipt.chains == Rest(ipt.chains) + OwnPart(chains, [])
      requires (forall c :: c in chains ==> Managed(c)) && Closed(rules, chains)
      modifies ipt
      ensures Rebuildable(ipt.chains) && Rest(ipt.chains) == old(Rest(ipt.chains))
      ensures ok ==> ipt.chains == Rest(old(ipt.chains)) + OwnPart(chains, rules)
    {
      ghost var rest := Rest(ipt.chains);
      assert rules[..0] == [];
      for i := 0 to |rules|
        invariant Rebuildable(ipt.chains) && Rest(ipt.chains) == rest
        invariant ipt.chains == rest + OwnPart(chains, rules[..i])
      {
        assert rules[i] in rules;
        AppendStep(ipt.chains, rest, chains, rules, i);
        RestOwnSet(ipt.chains, rules[i].chain, ipt.chains[rules[i].chain] + [rules[i].rule]);
        ok := ipt.Append(rules[i].chain, rules[i].rule);
        if !ok {
          return;
        }
      }
      assert rules[..|rules|] == rules;
      return true;
    }

    /** Rebuilds our chains from any table in which foreign chains do not jump into them. Every call meets
        iptables' precondition. Success leaves exactly the ruleset and an untouched rest; failure leaves a
        table from which a later rebuild leads to the same result. */
    method SyncClusterSet(hash: Hash, services: seq<ServiceDNAT>) returns (ok: bool, sorted: seq<ServiceDNAT>)
      requires ipt.jump == JumpTarget && Rebuildable(ipt.chains)
      modifies ipt
      ensures Rebuildable(ipt.chains) && Rest(ipt.chains) == old(Rest(ipt.chains))
      ensures multiset(sorted) == multiset(services) && Sorted(LessService, sorted)
      ensures ok ==> ipt.chains == Rebuilt(old(ipt.chains), Expansion(hash, Groups(sorted)))
    {
      NamesDiffer();
      var rs;
      rs, sorted := BuildRuleset(hash, services);
      ExpansionFits(hash, Groups(sorted));
      ok := EnsureInfra();
      if !ok {
        return;
      }
      RestOwnSet(ipt.chains, ROOT_CHAIN, []);
      ok := ipt.ClearChain(ROOT_CHAIN);
      if !ok {
        return;
      }
      ok := DeleteManagedChains();
      if !ok {
        return;
      }
      ok := ApplyRuleset(rs);
    }
  }

  ghost predicate Installed(t: NatTable) {
    && ROOT_CHAIN in t && PREROUTING in t && OUTPUT in t
    && Jump(ROOT_CHAIN) in t[PREROUTING] && Jump(ROOT_CHAIN) in t[OUTPUT]
  }

  lemma InstalledIsRest(t: NatTable, managed: set<string>)
    requires Installed(t) && ManagedIn(t) == managed && forall c :: c in t && Own(c) ==> t[c] == []
    ensures t == Rest(t) + OwnPart(managed, [])
  {
    var u := Rest(t) + OwnPart(managed, []);
    assert u.Keys == t.Keys;
    forall c | c in t ensures t[c] == u[c] {
      if Own(c) {
        assert c in OwnPart(managed, []);
      }
    }
  }

  lemma ExpansionFits(hash: Hash, groups: seq<Group>)
    ensures var rs := Expansion(hash, groups);
      NoDup(rs.chains) && (forall c :: c in rs.chains ==> Managed(c)) && Closed(rs.rules, Elements(rs.chains))
  {
    RulesClosed(hash, groups);
    StringLessTotal();
    StrictIsDistinct(StringLess, SortedStrings(ChainSet(hash, groups)));
    var chains := SortedStrings(ChainSet(hash, groups));
    assert forall c :: c in chains <==> c in Elements(chains);
  }
}
