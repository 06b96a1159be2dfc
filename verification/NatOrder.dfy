/** pkg/nat/plan.go: which inputs the unstable sort of the services leaves with one ruleset. */
module NatOrder {
  import opened Order
  import opened Text
  import opened NatPlan
  import opened Reorder

  predicate Namesakes(a: ServiceDNAT, b: ServiceDNAT) {
    a.namespace == b.namespace && a.name == b.name
  }

  /** Services of one name that produce rules produce the same ones. */
  ghost predicate NamesakesAlike(svcs: seq<ServiceDNAT>) {
    forall a, b :: a in svcs && b in svcs && Programmed(a) && Programmed(b) && Namesakes(a, b) ==> ServiceGroups(a) == ServiceGroups(b)
  }

  /** A sequence `sort.Slice` may leave. */
  ghost predicate SortedAs(services: seq<ServiceDNAT>, sorted: seq<ServiceDNAT>) {
    multiset(sorted) == multiset(services) && Sorted(LessService, sorted)
  }

  lemma EquivalentAreNamesakes(a: ServiceDNAT, b: ServiceDNAT)
    ensures !LessService(a, b) && !LessService(b, a) <==> Namesakes(a, b)
  {
    StringLessTriple(a.namespace, b.namespace, a.namespace);
    StringLessTriple(a.name, b.name, a.name);
  }

  // ---- Alike namesakes: every order expands to the same groups ----------------------------------------------------------

  lemma AlikeCommute(s: seq<ServiceDNAT>)
    requires NamesakesAlike(s)
    ensures Commuting(LessService, ServiceGroups, s)
  {
    forall a, b | a in s && b in s && Tied(LessService, a, b) ensures ServiceGroups(a) + ServiceGroups(b) == ServiceGroups(b) + ServiceGroups(a) {
      EquivalentAreNamesakes(a, b);
      AlikeOrNothing(ServiceGroups(a), ServiceGroups(b));
    }
  }

  lemma AlikeOrNothing(u: seq<Group>, v: seq<Group>)
    requires u == v || u == [] || v == []
    ensures u + v == v + u
  {
    assert u == [] ==> u + v == v && v + u == v;
    assert v == [] ==> u + v == u && v + u == u;
  }

  // ---- Rules tell groups of one service name apart ------------------------------------------------------------------------

  lemma {:induction false} BalanceShape(hash: Hash, g: Group, i: nat)
    requires i <= |g.backends|
    ensures |Balance(hash, g, i)| == |g.backends| - i && forall r :: r in Balance(hash, g, i) ==> r.Split? || r.Jump?
    decreases |g.backends| - i
  {
    if i < |g.backends| {
      BalanceShape(hash, g, i + 1);
    }
  }

  /** One root jump, as many splits as backends, then one DNAT rule per backend. */
  ghost predicate Shaped(rules: seq<Rule>, jump: NatRule, proto: string, backends: seq<string>, port: string) {
    && |rules| == 1 + 2 * |backends| && rules[0].rule == jump
    && (forall i :: 0 < i < |rules| ==> !rules[i].rule.VipJump?)
    && (forall i :: 0 <= i < |backends| ==> rules[1 + |backends| + i].rule == Dnat(proto, backends[i], port))
  }

  lemma ShapeOfParts(first: Rule, middle: seq<Rule>, last: seq<Rule>, proto: string, backends: seq<string>, port: string)
    requires |middle| == |last| == |backends| && forall i :: 0 <= i < |middle| ==> !middle[i].rule.VipJump?
    requires forall i :: 0 <= i < |last| ==> last[i].rule == Dnat(proto, backends[i], port)
    ensures Shaped([first] + middle + last, first.rule, proto, backends, port)
  {
  }

  lemma GroupRulesShape(hash: Hash, g: Group)
    ensures Shaped(GroupRules(hash, g), RootJump(hash, g), g.proto, g.backends, g.port)
  {
    BalanceShape(hash, g, 0);
    var balance := Balance(hash, g, 0);
    var middle := InChain(SvcChain(hash, g), balance);
    forall i | 0 <= i < |middle| ensures !middle[i].rule.VipJump? {
      assert balance[i] in balance;
    }
    ShapeOfParts(Rule(ROOT_CHAIN, RootJump(hash, g)), middle, Endpoints(hash, g), g.proto, g.backends, g.port);
  }

  lemma RulesOfFirst(hash: Hash, groups: seq<Group>)
    requires groups != []
    ensures Rules(hash, groups) == GroupRules(hash, groups[0]) + Rules(hash, groups[1..])
    ensures |Rules(hash, groups)| >= 1 && Rules(hash, groups)[0].rule.VipJump?
  {
    GroupRulesShape(hash, groups[0]);
  }

  ghost predicate OfOneName(groups: seq<Group>, namespace: string, name: string) {
    forall g :: g in groups ==> g.namespace == namespace && g.name == name
  }

  lemma NotShorter(p: seq<Rule>, x: seq<Rule>, q: seq<Rule>, y: seq<Rule>)
    requires p + x == q + y && p != [] && (x != [] ==> x[0].rule.VipJump?) && forall i :: 0 < i < |q| ==> !q[i].rule.VipJump?
    ensures |p| >= |q|
  {
    assert forall i :: 0 <= i < |q| ==> (q + y)[i] == q[i];
    assert x != [] ==> (p + x)[|p|] == x[0];
  }

  /** A shaped block ends where the next root jump stands, so it can be cut off. */
  lemma ShapedCut(p: seq<Rule>, x: seq<Rule>, q: seq<Rule>, y: seq<Rule>, j: NatRule, k: NatRule, proto: string, port: string, bs: seq<string>,
      proto': string, port': string, cs: seq<string>)
    requires p + x == q + y && Shaped(p, j, proto, bs, port) && Shaped(q, k, proto', cs, port')
    requires (x != [] ==> x[0].rule.VipJump?) && (y != [] ==> y[0].rule.VipJump?)
    ensures j == k && bs == cs && x == y
  {
    var s := p + x;
    assert s[0] == p[0] && s[0] == q[0];
    NotShorter(p, x, q, y);
    NotShorter(q, y, p, x);
    assert s[..|p|] == p && s[..|p|] == q;
    var n := |bs|;
    forall i | 0 <= i < n ensures bs[i] == cs[i] {
      assert p[1 + n + i].rule == Dnat(proto, bs[i], port) && q[1 + n + i].rule == Dnat(proto', cs[i], port');
    }
    assert s[|p|..] == x && s[|p|..] == y;
  }

  lemma SameFirstGroup(hash: Hash, x: seq<Group>, y: seq<Group>)
    requires x != [] && y != [] && Rules(hash, x) == Rules(hash, y) && x[0].namespace == y[0].namespace && x[0].name == y[0].name
    ensures x[0] == y[0] && Rules(hash, x[1..]) == Rules(hash, y[1..])
  {
    RulesOfFirst(hash, x);
    RulesOfFirst(hash, y);
    RestStartsWithJump(hash, x[1..]);
    RestStartsWithJump(hash, y[1..]);
    var g, h := x[0], y[0];
    GroupRulesShape(hash, g);
    GroupRulesShape(hash, h);
    ShapedCut(GroupRules(hash, g), Rules(hash, x[1..]), GroupRules(hash, h), Rules(hash, y[1..]), RootJump(hash, g), RootJump(hash, h),
      g.proto, g.port, g.backends, h.proto, h.port, h.backends);
  }

  lemma RestStartsWithJump(hash: Hash, groups: seq<Group>)
    ensures Rules(hash, groups) != [] ==> Rules(hash, groups)[0].rule.VipJump?
  {
    if groups != [] {
      RulesOfFirst(hash, groups);
    }
  }

  lemma {:induction false} RulesDecode(hash: Hash, x: seq<Group>, y: seq<Group>, namespace: string, name: string)
    requires OfOneName(x, namespace, name) && OfOneName(y, namespace, name) && Rules(hash, x) == Rules(hash, y)
    ensures x == y
  {
    if x != [] && y != [] {
      SameFirstGroup(hash, x, y);
      RulesDecode(hash, x[1..], y[1..], namespace, name);
      assert x == [x[0]] + x[1..] && y == [y[0]] + y[1..];
    } else if x != [] {
      RulesOfFirst(hash, x);
    } else if y != [] {
      RulesOfFirst(hash, y);
    }
  }

  // ---- Unlike namesakes: two orders differ -----------------------------------------------------------------------------------

  /** No group of a service repeats: its ports are distinct once normalized. */
  lemma ServiceGroupsDistinct(s: ServiceDNAT)
    ensures NoDup(ServiceGroups(s)) && OfOneName(ServiceGroups(s), s.namespace, s.name)
  {
    if Programmed(s) {
      var ports := SortedPorts(NormalizedPorts(s.ports));
      LessPortTotal();
      forall i, j | 0 <= i < j < |ports| ensures ServiceGroups(s)[i] != ServiceGroups(s)[j] {
        assert ports[i] in Elements(ports) && ports[j] in Elements(ports);
        DistinctPorts(s, ports[i], ports[j]);
      }
    }
  }

  lemma DistinctPorts(s: ServiceDNAT, p: PortDNAT, q: PortDNAT)
    requires p in NormalizedPorts(s.ports) && q in NormalizedPorts(s.ports) && LessPort(p, q)
    ensures NormalizeProto(p.protocol) != NormalizeProto(q.protocol) || Itoa(p.port) != Itoa(q.port)
  {
    var a :| a in s.ports && p == PortDNAT(NormalizeProto(a.protocol), a.port);
    var b :| b in s.ports && q == PortDNAT(NormalizeProto(b.protocol), b.port);
    NormalizeIdempotent(a.protocol);
    NormalizeIdempotent(b.protocol);
    if Itoa(p.port) == Itoa(q.port) {
      ItoaInjective(p.port, q.port);
      StringLessIrreflexive(p.protocol);
    }
  }

  /** Exchanging two different duplicate-free blocks changes the sequence. */
  lemma ExchangeShows(u: seq<Group>, m: seq<Group>, v: seq<Group>)
    requires NoDup(u) && NoDup(v) && u != [] && v != [] && u + m + v == v + m + u
    ensures u == v
  {
    var s := u + m + v;
    if |u| == |v| {
      assert s[..|u|] == u && (v + m + u)[..|v|] == v;
    } else if |u| < |v| {
      ShorterRepeats(u, m, v);
    } else {
      ShorterRepeats(v, m, u);
    }
  }

  lemma ShorterRepeats(u: seq<Group>, m: seq<Group>, v: seq<Group>)
    requires u != [] && |u| < |v| && u + m + v == v + m + u
    ensures !NoDup(v)
  {
    var s, last := u + m + v, |u| + |m| + |v| - |u|;
    assert s[0] == u[0] && s[0] == (v + m + u)[0] == v[0];
    assert s[last] == v[|v| - |u|];
    assert (v + m + u)[last] == u[0];
  }

  lemma SwappedIsSorted(s: seq<ServiceDNAT>, i: nat, j: nat)
    requires i < j < |s| && Sorted(LessService, s) && Namesakes(s[i], s[j])
    ensures Sorted(LessService, s[i := s[j]][j := s[i]]) && multiset(s[i := s[j]][j := s[i]]) == multiset(s)
  {
    var t := s[i := s[j]][j := s[i]];
    forall p, q | 0 <= p < q < |t| ensures !LessService(t[q], t[p]) {
      NamesakeOrder(t[p], s[p], t[q], s[q]);
    }
  }

  /** Only the names are compared. */
  lemma NamesakeOrder(a: ServiceDNAT, a': ServiceDNAT, b: ServiceDNAT, b': ServiceDNAT)
    requires Namesakes(a, a') && Namesakes(b, b')
    ensures LessService(b, a) == LessService(b', a')
  {
  }

  lemma GroupsOfOneName(svcs: seq<ServiceDNAT>, a: ServiceDNAT)
    requires forall s :: s in svcs ==> Namesakes(s, a)
    ensures OfOneName(Groups(svcs), a.namespace, a.name)
  {
    forall g | g in Groups(svcs) ensures g.namespace == a.namespace && g.name == a.name {
      CollectMember(ServiceGroups, svcs, g);
      var s :| s in svcs && g in ServiceGroups(s);
      ServiceGroupsDistinct(s);
    }
  }

  lemma BetweenNamesakes(s: seq<ServiceDNAT>, i: nat, j: nat, k: nat)
    requires i <= k <= j < |s| && Sorted(LessService, s) && Namesakes(s[i], s[j])
    ensures Namesakes(s[k], s[i])
  {
    if i < k < j {
      assert !LessService(s[k], s[i]) && !LessService(s[j], s[k]);
      NamesakeOrder(s[k], s[k], s[j], s[i]);
      EquivalentAreNamesakes(s[k], s[i]);
    }
  }

  lemma RulesAround(hash: Hash, before: seq<ServiceDNAT>, mid: seq<ServiceDNAT>, after: seq<ServiceDNAT>)
    ensures Rules(hash, Groups(before + mid + after)) == Rules(hash, Groups(before)) + Rules(hash, Groups(mid)) + Rules(hash, Groups(after))
  {
    CollectConcat(ServiceGroups, before + mid, after);
    CollectConcat(ServiceGroups, before, mid);
    ExpansionConcat(hash, Groups(before + mid), Groups(after));
    ExpansionConcat(hash, Groups(before), Groups(mid));
  }

  lemma GroupsOfThree(a: ServiceDNAT, mid: seq<ServiceDNAT>, b: ServiceDNAT)
    ensures Groups([a] + mid + [b]) == ServiceGroups(a) + Groups(mid) + ServiceGroups(b)
  {
    CollectConcat(ServiceGroups, [a] + mid, [b]);
    CollectConcat(ServiceGroups, [a], mid);
    assert Groups([a]) == ServiceGroups(a) && Groups([b]) == ServiceGroups(b);
  }

  /** Exchanging two unlike namesakes of a sorted order leaves a sorted order with other rules. */
  lemma ExchangeMatters(hash: Hash, s: seq<ServiceDNAT>, i: nat, j: nat)
    requires i < j < |s| && Sorted(LessService, s) && Namesakes(s[i], s[j])
    requires Programmed(s[i]) && Programmed(s[j]) && ServiceGroups(s[i]) != ServiceGroups(s[j])
    ensures Rules(hash, Groups(s[i := s[j]][j := s[i]])) != Rules(hash, Groups(s))
  {
    var a, b, mid := s[i], s[j], s[i + 1..j];
    Cut(s, i, j);
    RulesAround(hash, s[..i], [a] + mid + [b], s[j + 1..]);
    RulesAround(hash, s[..i], [b] + mid + [a], s[j + 1..]);
    if Rules(hash, Groups(s[i := b][j := a])) == Rules(hash, Groups(s)) {
      MiddleSame(Rules(hash, Groups(s[..i])), Rules(hash, Groups([a] + mid + [b])), Rules(hash, Groups([b] + mid + [a])), Rules(hash, Groups(s[j + 1..])));
      MiddleNamesakes(s, i, j);
      ExchangeHidden(hash, a, mid, b);
    }
  }

  lemma Cut(s: seq<ServiceDNAT>, i: nat, j: nat)
    requires i < j < |s|
    ensures s == s[..i] + ([s[i]] + s[i + 1..j] + [s[j]]) + s[j + 1..]
    ensures s[i := s[j]][j := s[i]] == s[..i] + ([s[j]] + s[i + 1..j] + [s[i]]) + s[j + 1..]
  {
  }

  lemma MiddleNamesakes(s: seq<ServiceDNAT>, i: nat, j: nat)
    requires i < j < |s| && Sorted(LessService, s) && Namesakes(s[i], s[j])
    ensures forall x :: x in s[i + 1..j] ==> Namesakes(x, s[i])
  {
    forall x | x in s[i + 1..j] ensures Namesakes(x, s[i]) {
      var k :| i < k < j && s[k] == x;
      BetweenNamesakes(s, i, j, k);
    }
  }

  lemma ExchangeHidden(hash: Hash, a: ServiceDNAT, mid: seq<ServiceDNAT>, b: ServiceDNAT)
    requires Programmed(a) && Programmed(b) && Namesakes(a, b) && forall x :: x in mid ==> Namesakes(x, a)
    requires Rules(hash, Groups([a] + mid + [b])) == Rules(hash, Groups([b] + mid + [a]))
    ensures ServiceGroups(a) == ServiceGroups(b)
  {
    GroupsOfOneName([a] + mid + [b], a);
    GroupsOfOneName([b] + mid + [a], a);
    RulesDecode(hash, Groups([a] + mid + [b]), Groups([b] + mid + [a]), a.namespace, a.name);
    GroupsOfThree(a, mid, b);
    GroupsOfThree(b, mid, a);
    ServiceGroupsDistinct(a);
    ServiceGroupsDistinct(b);
    GroupsNonEmpty(a);
    GroupsNonEmpty(b);
    ExchangeShows(ServiceGroups(a), Groups(mid), ServiceGroups(b));
  }

  lemma GroupsNonEmpty(s: ServiceDNAT)
    requires Programmed(s)
    ensures ServiceGroups(s) != []
  {
    var ports := SortedPorts(NormalizedPorts(s.ports));
    assert s.ports[0] in s.ports;
    assert PortDNAT(NormalizeProto(s.ports[0].protocol), s.ports[0].port) in Elements(ports);
  }

  // ---- Exactly when the ruleset is determined ------------------------------------------------------------------------------

  /** The ruleset does not depend on the order the sort leaves, nor on the input order, if and only if services of one
      namespace and name that produce rules produce the same ones. */
  lemma OrderDeterminedExactly(hash: Hash, services: seq<ServiceDNAT>)
    ensures (forall s, t :: SortedAs(services, s) && SortedAs(services, t) ==> Expansion(hash, Groups(s)) == Expansion(hash, Groups(t)))
       <==> NamesakesAlike(services)
  {
    if NamesakesAlike(services) {
      forall s, t | SortedAs(services, s) && SortedAs(services, t) ensures Expansion(hash, Groups(s)) == Expansion(hash, Groups(t)) {
        AlikeSame(services, s);
        LessServiceWeak();
        AlikeCommute(s);
        CommutingCollect(LessService, ServiceGroups, s, t);
      }
    } else {
      var s, t := UnlikeOrders(hash, services);
      assert Expansion(hash, Groups(s)).rules != Expansion(hash, Groups(t)).rules;
    }
  }

  lemma AlikeSame(services: seq<ServiceDNAT>, s: seq<ServiceDNAT>)
    requires multiset(s) == multiset(services)
    ensures NamesakesAlike(s) <==> NamesakesAlike(services)
  {
    forall x ensures x in s <==> x in services {
      assert x in multiset(s) <==> x in multiset(services);
    }
  }

  lemma UnlikeOrders(hash: Hash, services: seq<ServiceDNAT>) returns (s: seq<ServiceDNAT>, t: seq<ServiceDNAT>)
    requires !NamesakesAlike(services)
    ensures SortedAs(services, s) && SortedAs(services, t) && Rules(hash, Groups(s)) != Rules(hash, Groups(t))
  {
    LessServiceWeak();
    s := Sort(LessService, services);
    SortSorted(LessService, services);
    AlikeSame(services, s);
    var i, j := UnlikePair(s);
    t := s[i := s[j]][j := s[i]];
    SwappedIsSorted(s, i, j);
    ExchangeMatters(hash, s, i, j);
  }

  lemma UnlikePair(s: seq<ServiceDNAT>) returns (i: nat, j: nat)
    requires !NamesakesAlike(s)
    ensures i < j < |s| && Programmed(s[i]) && Programmed(s[j]) && Namesakes(s[i], s[j]) && ServiceGroups(s[i]) != ServiceGroups(s[j])
  {
    var a, b :| a in s && b in s && Programmed(a) && Programmed(b) && Namesakes(a, b) && ServiceGroups(a) != ServiceGroups(b);
    i, j := TwoPositions(s, a, b);
  }

  lemma TwoPositions<A>(s: seq<A>, a: A, b: A) returns (i: nat, j: nat)
    requires a in s && b in s && a != b
    ensures i < j < |s| && ((s[i] == a && s[j] == b) || (s[i] == b && s[j] == a))
  {
    i :| i < |s| && s[i] == a;
    j :| j < |s| && s[j] == b;
    if j < i {
      i, j := j, i;
    }
  }
}
