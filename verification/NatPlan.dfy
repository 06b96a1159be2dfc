/** pkg/nat/plan.go: expanding ClusterSetIP services into DNAT and load-balancing chains. */
module NatPlan {
  import opened Order
  import opened Text

  const ROOT_CHAIN := "DWX-CLUSTERSET"
  const SVC_PREFIX := "DWX-SVC-"
  const SEP_PREFIX := "DWX-SEP-"

  datatype PortDNAT = PortDNAT(protocol: string, port: int)

  datatype ServiceDNAT = ServiceDNAT(namespace: string, name: string, vip: string, ports: seq<PortDNAT>, backends: seq<string>)

  /** The rules of the nat table. A split is taken with probability one in `outOf`, before printing rounds it. */
  datatype NatRule =
    | VipJump(vip: string, proto: string, port: string, target: string)
    | Split(outOf: nat, target: string)
    | Jump(target: string)
    | Dnat(proto: string, ip: string, port: string)
    | Foreign(text: string, jumpsTo: string)

  datatype Rule = Rule(chain: string, rule: NatRule)

  datatype Ruleset = Ruleset(chains: seq<string>, rules: seq<Rule>)

  /** The truncated SHA-256 of the joined parts. */
  type Hash = seq<string> -> string

  /** One (service, port) pair with its unique, sorted backends. */
  datatype Group = Group(namespace: string, name: string, vip: string, proto: string, port: string, backends: seq<string>)

  function SvcChain(hash: Hash, g: Group): string {
    SVC_PREFIX + hash([g.namespace, g.name, g.proto, g.port])
  }

  function SepChain(hash: Hash, g: Group, backend: string): string {
    SEP_PREFIX + hash([g.namespace, g.name, g.proto, g.port, backend])
  }

  // ---- The expansion --------------------------------------------------------------------------------

  function NormalizedPorts(ports: seq<PortDNAT>): set<PortDNAT> {
    set p | p in ports :: PortDNAT(NormalizeProto(p.protocol), p.port)
  }

  predicate LessPort(a: PortDNAT, b: PortDNAT) {
    if a.port != b.port then a.port < b.port else StringLess(a.protocol, b.protocol)
  }

  lemma LessPortTotal()
    ensures StrictTotal(LessPort) && WeakOrder(LessPort)
  {
    StringLessTotal();
    TotalIsWeak(LessPort);
  }

  ghost function SortedPorts(ports: set<PortDNAT>): (r: seq<PortDNAT>)
    ensures StrictlySorted(LessPort, r) && Elements(r) == ports
  {
    LessPortTotal();
    SortSet(LessPort, ports)
  }

  function NonBlank(texts: set<string>): set<string> {
    set b | b in texts && b != ""
  }

  ghost function SortedStrings(texts: set<string>): (r: seq<string>)
    ensures StrictlySorted(StringLess, r) && Elements(r) == texts
  {
    StringLessTotal();
    TotalIsWeak(StringLess);
    SortSet(StringLess, texts)
  }

  predicate Programmed(s: ServiceDNAT) {
    s.vip != "" && s.ports != [] && s.backends != []
  }

  function PortGroup(s: ServiceDNAT, p: PortDNAT, backends: seq<string>): Group {
    Group(s.namespace, s.name, s.vip, NormalizeProto(p.protocol), Itoa(p.port), backends)
  }

  function PortGroups(s: ServiceDNAT, ports: seq<PortDNAT>, backends: seq<string>): (r: seq<Group>)
    ensures |r| == |ports| && forall i :: 0 <= i < |ports| ==> r[i] == PortGroup(s, ports[i], backends)
  {
    seq(|ports|, i requires 0 <= i < |ports| => PortGroup(s, ports[i], backends))
  }

  ghost function ServiceGroups(s: ServiceDNAT): seq<Group> {
    if !Programmed(s) then []
    else PortGroups(s, SortedPorts(NormalizedPorts(s.ports)), SortedStrings(NonBlank(Elements(s.backends))))
  }

  ghost function Groups(svcs: seq<ServiceDNAT>): seq<Group> {
    Collect(ServiceGroups, svcs)
  }

  /** The statistic rules of a service chain: with m backends left, take the next one with probability 1/m. */
  function Balance(hash: Hash, g: Group, i: nat): seq<NatRule>
    requires i <= |g.backends|
    decreases |g.backends| - i
  {
    if i == |g.backends| then []
    else
      var sep := SepChain(hash, g, g.backends[i]);
      [if i < |g.backends| - 1 then Split(|g.backends| - i, sep) else Jump(sep)] + Balance(hash, g, i + 1)
  }

  function InChain(chain: string, rules: seq<NatRule>): (r: seq<Rule>)
    ensures |r| == |rules| && forall i :: 0 <= i < |rules| ==> r[i] == Rule(chain, rules[i])
  {
    seq(|rules|, i requires 0 <= i < |rules| => Rule(chain, rules[i]))
  }

  function Endpoints(hash: Hash, g: Group): (r: seq<Rule>)
    ensures |r| == |g.backends|
    ensures forall i :: 0 <= i < |r| ==> r[i] == Rule(SepChain(hash, g, g.backends[i]), Dnat(g.proto, g.backends[i], g.port))
  {
    seq(|g.backends|, i requires 0 <= i < |g.backends| => Rule(SepChain(hash, g, g.backends[i]), Dnat(g.proto, g.backends[i], g.port)))
  }

  function RootJump(hash: Hash, g: Group): NatRule {
    VipJump(g.vip, g.proto, g.port, SvcChain(hash, g))
  }

  /** The root jump, the load-balancing rules, then the DNAT rules of one (service, port) pair. */
  function GroupRules(hash: Hash, g: Group): seq<Rule> {
    [Rule(ROOT_CHAIN, RootJump(hash, g))] + InChain(SvcChain(hash, g), Balance(hash, g, 0)) + Endpoints(hash, g)
  }

  function GroupChains(hash: Hash, g: Group): set<string> {
    {SvcChain(hash, g)} + set b | b in g.backends :: SepChain(hash, g, b)
  }

  function Rules(hash: Hash, groups: seq<Group>): seq<Rule> {
    Collect((g: Group) => GroupRules(hash, g), groups)
  }

  function ChainSet(hash: Hash, groups: seq<Group>): set<string> {
    set g, c | g in groups && c in GroupChains(hash, g) :: c
  }

  ghost function Expansion(hash: Hash, groups: seq<Group>): Ruleset {
    Ruleset(SortedStrings(ChainSet(hash, groups)), Rules(hash, groups))
  }

  predicate LessService(a: ServiceDNAT, b: ServiceDNAT) {
    if a.namespace != b.namespace then StringLess(a.namespace, b.namespace) else StringLess(a.name, b.name)
  }

  lemma LessServiceTransitive(a: ServiceDNAT, b: ServiceDNAT, c: ServiceDNAT)
    ensures LessService(a, b) && LessService(b, c) ==> LessService(a, c)
    ensures !LessService(a, b) && !LessService(b, c) ==> !LessService(a, c)
    ensures !LessService(a, a)
  {
    StringLessTriple(a.namespace, b.namespace, c.namespace);
    StringLessTriple(b.namespace, c.namespace, a.namespace);
    StringLessTriple(a.name, b.name, c.name);
  }

  lemma LessServiceWeak()
    ensures WeakOrder(LessService)
  {
    forall a, b, c
      ensures LessService(a, b) && LessService(b, c) ==> LessService(a, c)
      ensures !LessService(a, b) && !LessService(b, c) ==> !LessService(a, c)
    {
      LessServiceTransitive(a, b, c);
    }
    forall a ensures !LessService(a, a) {
      LessServiceTransitive(a, a, a);
    }
  }

  // ---- The planner -------------------------------------------------------------------------------------

  method UniqueSortedStrings(list: seq<string>) returns (r: seq<string>)
    ensures r == SortedStrings(NonBlank(Elements(list)))
  {
    var seen: set<string> := {};
    for i := 0 to |list|
      invariant seen == NonBlank(Elements(list[..i]))
    {
      PrefixElements(list, i);
      if list[i] != "" {
        seen := seen + {list[i]};
      }
    }
    assert list[..|list|] == list;
    StringLessTotal();
    TotalIsWeak(StringLess);
    r := SortedKeys(StringLess, seen);
  }

  method SortPorts(ports: seq<PortDNAT>) returns (r: seq<PortDNAT>)
    ensures r == SortedPorts(NormalizedPorts(ports))
    ensures forall i, j :: 0 <= i < j < |r| ==> r[i].port < r[j].port || (r[i].port == r[j].port && StringLess(r[i].protocol, r[j].protocol))
  {
    var seen: set<PortDNAT> := {};
    for i := 0 to |ports|
      invariant seen == NormalizedPorts(ports[..i])
    {
      assert ports[..i + 1] == ports[..i] + [ports[i]];
      seen := seen + {PortDNAT(NormalizeProto(ports[i].protocol), ports[i].port)};
    }
    assert ports[..|ports|] == ports;
    LessPortTotal();
    r := SortedKeys(LessPort, seen);
  }

  method BalanceRules(hash: Hash, g: Group) returns (balance: seq<NatRule>)
    ensures balance == Balance(hash, g, 0)
  {
    var n := |g.backends|;
    balance := [];
    for i := 0 to n
      invariant balance + Balance(hash, g, i) == Balance(hash, g, 0)
    {
      var sep := SepChain(hash, g, g.backends[i]);
      var rule := if i < n - 1 then Split(n - i, sep) else Jump(sep);
      assert Balance(hash, g, i) == [rule] + Balance(hash, g, i + 1);
      assert balance + Balance(hash, g, i) == balance + [rule] + Balance(hash, g, i + 1);
      balance := balance + [rule];
    }
  }

  method EndpointRules(hash: Hash, g: Group) returns (endpoints: seq<Rule>, chains: set<string>)
    ensures endpoints == Endpoints(hash, g)
    ensures chains == set b | b in g.backends :: SepChain(hash, g, b)
  {
    endpoints, chains := [], {};
    for i := 0 to |g.backends|
      invariant |endpoints| == i
      invariant forall k :: 0 <= k < i ==> endpoints[k] == Rule(SepChain(hash, g, g.backends[k]), Dnat(g.proto, g.backends[k], g.port))
      invariant chains == set b | b in g.backends[..i] :: SepChain(hash, g, b)
    {
      assert g.backends[..i + 1] == g.backends[..i] + [g.backends[i]];
      var sep := SepChain(hash, g, g.backends[i]);
      chains := chains + {sep};
      endpoints := endpoints + [Rule(sep, Dnat(g.proto, g.backends[i], g.port))];
    }
    assert g.backends[..|g.backends|] == g.backends;
  }

  /** Appends one pair's rules and registers every chain they mention. */
  method AppendPortRules(hash: Hash, g: Group, rules: seq<Rule>, chainSet: set<string>) returns (rules': seq<Rule>, chainSet': set<string>)
    ensures rules' == rules + GroupRules(hash, g)
    ensures chainSet' == chainSet + GroupChains(hash, g)
  {
    var svc := SvcChain(hash, g);
    var balance := BalanceRules(hash, g);
    var endpoints, seps := EndpointRules(hash, g);
    chainSet' := chainSet + ({svc} + seps);
    rules' := rules + ([Rule(ROOT_CHAIN, RootJump(hash, g))] + InChain(svc, balance) + endpoints);
  }

  lemma ExpansionConcat(hash: Hash, a: seq<Group>, b: seq<Group>)
    ensures ChainSet(hash, a + b) == ChainSet(hash, a) + ChainSet(hash, b)
    ensures Rules(hash, a + b) == Rules(hash, a) + Rules(hash, b)
  {
    CollectConcat((g: Group) => GroupRules(hash, g), a, b);
  }

  lemma ExpansionStep(hash: Hash, groups: seq<Group>, i: nat)
    requires i < |groups|
    ensures ChainSet(hash, groups[..i + 1]) == ChainSet(hash, groups[..i]) + GroupChains(hash, groups[i])
    ensures Rules(hash, groups[..i + 1]) == Rules(hash, groups[..i]) + GroupRules(hash, groups[i])
  {
    CollectStep((g: Group) => GroupRules(hash, g), groups, i);
    assert groups[..i + 1] == groups[..i] + [groups[i]];
  }

  method AppendGroups(hash: Hash, groups: seq<Group>) returns (rules: seq<Rule>, chainSet: set<string>)
    ensures rules == Rules(hash, groups) && chainSet == ChainSet(hash, groups)
  {
    rules, chainSet := [], {};
    for i := 0 to |groups|
      invariant rules == Rules(hash, groups[..i]) && chainSet == ChainSet(hash, groups[..i])
    {
      ExpansionStep(hash, groups, i);
      rules, chainSet := AppendPortRules(hash, groups[i], rules, chainSet);
    }
    assert groups[..|groups|] == groups;
  }

  method ServiceRules(hash: Hash, s: ServiceDNAT) returns (rules: seq<Rule>, chainSet: set<string>)
    ensures rules == Rules(hash, ServiceGroups(s)) && chainSet == ChainSet(hash, ServiceGroups(s))
  {
    if s.vip == "" || |s.ports| == 0 || |s.backends| == 0 {
      return [], {};
    }
    var backends := UniqueSortedStrings(s.backends);
    var ports := SortPorts(s.ports);
    rules, chainSet := AppendGroups(hash, PortGroups(s, ports, backends));
  }

  /** Expands the services. The sorted order is the one `sort.Slice` chose. */
  method BuildRuleset(hash: Hash, services: seq<ServiceDNAT>) returns (rs: Ruleset, sorted: seq<ServiceDNAT>)
    ensures multiset(sorted) == multiset(services) && Sorted(LessService, sorted)
    ensures forall i, j :: 0 <= i < j < |sorted| ==>
      StringLess(sorted[i].namespace, sorted[j].namespace) || (sorted[i].namespace == sorted[j].namespace && !StringLess(sorted[j].name, sorted[i].name))
    ensures rs == Expansion(hash, Groups(sorted))
  {
    LessServiceWeak();
    StringLessTotal();
    sorted := SortSlice(LessService, services);
    assert forall i, j :: 0 <= i < j < |sorted| ==> !LessService(sorted[j], sorted[i]);
    var rules: seq<Rule>, chainSet: set<string> := [], {};
    for i := 0 to |sorted|
      invariant rules == Rules(hash, Groups(sorted[..i])) && chainSet == ChainSet(hash, Groups(sorted[..i]))
    {
      CollectStep(ServiceGroups, sorted, i);
      ExpansionConcat(hash, Groups(sorted[..i]), ServiceGroups(sorted[i]));
      var more, chains := ServiceRules(hash, sorted[i]);
      rules, chainSet := rules + more, chainSet + chains;
    }
    assert sorted[..|sorted|] == sorted;
    StringLessTotal();
    TotalIsWeak(StringLess);
    var names := SortedKeys(StringLess, chainSet);
    rs := Ruleset(names, rules);
  }

  ghost predicate DistinctNames(svcs: seq<ServiceDNAT>) {
    forall i, j :: 0 <= i < j < |svcs| ==> svcs[i].namespace != svcs[j].namespace || svcs[i].name != svcs[j].name
  }

  /** Distinct services have one sorted order, so the ruleset does not depend on the input order. */
  lemma RulesetOrderIndependent(hash: Hash, services1: seq<ServiceDNAT>, sorted1: seq<ServiceDNAT>, services2: seq<ServiceDNAT>, sorted2: seq<ServiceDNAT>)
    requires DistinctNames(services1) && multiset(services1) == multiset(services2)
    requires multiset(sorted1) == multiset(services1) && Sorted(LessService, sorted1)
    requires multiset(sorted2) == multiset(services2) && Sorted(LessService, sorted2)
    ensures Expansion(hash, Groups(sorted1)) == Expansion(hash, Groups(sorted2))
  {
    LessServiceWeak();
    StringLessTotal();
    PermutationNoDup(services1, sorted1);
    PermutationNoDup(services1, sorted2);
    PermutationElements(services1, sorted1);
    PermutationElements(services1, sorted2);
    assert TotalOn(LessService, Elements(services1)) by {
      forall a, b | a in Elements(services1) && b in Elements(services1) && a != b ensures LessService(a, b) || LessService(b, a) {
        var i :| 0 <= i < |services1| && services1[i] == a;
        var j :| 0 <= j < |services1| && services1[j] == b;
      }
    }
    SortedDistinctIsStrict(LessService, sorted1);
    SortedDistinctIsStrict(LessService, sorted2);
    StrictlySortedUnique(LessService, sorted1, sorted2);
  }

  // ---- Every rule lands in a created chain and jumps to one -------------------------------------------

  function TargetOf(r: NatRule): string {
    match r
    case VipJump(_, _, _, t) => t
    case Split(_, t) => t
    case Jump(t) => t
    case Dnat(_, _, _) => ""
    case Foreign(_, t) => t
  }

  predicate Managed(chain: string) {
    SVC_PREFIX <= chain || SEP_PREFIX <= chain
  }

  lemma {:induction false} BalanceTargets(hash: Hash, g: Group, i: nat)
    requires i <= |g.backends|
    ensures forall r :: r in Balance(hash, g, i) ==> TargetOf(r) in GroupChains(hash, g)
    decreases |g.backends| - i
  {
    if i < |g.backends| {
      BalanceTargets(hash, g, i + 1);
      assert g.backends[i] in g.backends;
    }
  }

  ghost predicate Closed(rules: seq<Rule>, chains: set<string>) {
    forall r :: r in rules ==>
      (r.chain == ROOT_CHAIN || r.chain in chains) && (TargetOf(r.rule) == "" || TargetOf(r.rule) in chains)
  }

  lemma GroupClosed(hash: Hash, g: Group)
    ensures Closed(GroupRules(hash, g), GroupChains(hash, g))
  {
    BalanceTargets(hash, g, 0);
    forall r | r in GroupRules(hash, g)
      ensures (r.chain == ROOT_CHAIN || r.chain in GroupChains(hash, g)) && (TargetOf(r.rule) == "" || TargetOf(r.rule) in GroupChains(hash, g))
    {
      var balance := InChain(SvcChain(hash, g), Balance(hash, g, 0));
      if r in balance {
        var i :| 0 <= i < |balance| && balance[i] == r;
        assert Balance(hash, g, 0)[i] == r.rule;
      } else if r in Endpoints(hash, g) {
        var i :| 0 <= i < |g.backends| && Endpoints(hash, g)[i] == r;
        assert g.backends[i] in g.backends;
      }
    }
  }

  lemma FirstRule(hash: Hash, s: ServiceDNAT, rest: seq<ServiceDNAT>)
    requires Programmed(s)
    ensures var rules := Rules(hash, Groups([s] + rest)); rules != [] && rules[0].rule.VipJump? && rules[0].rule.vip == s.vip
  {
    var ports := SortedPorts(NormalizedPorts(s.ports));
    assert s.ports[0] in s.ports;
    assert PortDNAT(NormalizeProto(s.ports[0].protocol), s.ports[0].port) in Elements(ports);
    var groups := Groups([s] + rest);
    assert ([s] + rest)[1..] == rest;
    assert groups == ServiceGroups(s) + Groups(rest);
    assert groups[0] == ServiceGroups(s)[0];
    assert Rules(hash, groups) == GroupRules(hash, groups[0]) + Rules(hash, groups[1..]);
  }

  lemma EitherWaySorted(a: ServiceDNAT, b: ServiceDNAT)
    requires a.namespace == b.namespace && a.name == b.name
    ensures Sorted(LessService, [a, b]) && Sorted(LessService, [b, a]) && multiset([a, b]) == multiset([b, a])
  {
    StringLessTriple(a.name, a.name, a.name);
  }

  /** Two services of one name but different addresses may be sorted either way, and the rulesets differ. */
  lemma SameNameOrderMatters(hash: Hash, a: ServiceDNAT, b: ServiceDNAT)
    requires Programmed(a) && Programmed(b) && a.namespace == b.namespace && a.name == b.name && a.vip != b.vip
    ensures Sorted(LessService, [a, b]) && Sorted(LessService, [b, a]) && multiset([a, b]) == multiset([b, a])
    ensures Expansion(hash, Groups([a, b])) != Expansion(hash, Groups([b, a]))
  {
    EitherWaySorted(a, b);
    FirstRule(hash, a, [b]);
    FirstRule(hash, b, [a]);
    assert [a] + [b] == [a, b] && [b] + [a] == [b, a];
  }

  /** Rules only use the root chain and created chains, and only jump to created, managed chains. */
  lemma {:induction false} RulesClosed(hash: Hash, groups: seq<Group>)
    ensures Closed(Rules(hash, groups), ChainSet(hash, groups))
    ensures forall c :: c in ChainSet(hash, groups) ==> Managed(c)
  {
    if groups != [] {
      var init, g := groups[..|groups| - 1], groups[|groups| - 1];
      assert groups == init + [g];
      RulesClosed(hash, init);
      GroupClosed(hash, g);
      ExpansionStep(hash, groups, |groups| - 1);
      assert groups[..|groups|] == groups;
    }
  }
}
