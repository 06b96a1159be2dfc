/** What the rebuilt nat table does to a packet: uniform load balancing over the right backends. */
module NatBalance {
  import opened Order
  import opened NatPlan
  import opened NatManager

  datatype NatPacket = NatPacket(dst: string, proto: string, dport: string)

  /** Where a packet is rewritten to. */
  datatype Dest = Dest(ip: string, port: string)

  /** The probability of being rewritten to a given destination, and of falling off the end unrewritten. */
  datatype Outcome = Outcome(rewritten: real, through: real)

  predicate VipMatches(vip: string, proto: string, port: string, pkt: NatPacket) {
    pkt.dst == vip && pkt.proto == proto && pkt.dport == port
  }

  /** The probability of one in n. */
  ghost function Even(n: nat): (r: real)
    requires n > 0
    ensures OneIn(r, n)
  {
    assert OneIn(1.0 / n as real, n);
    var r: real :| OneIn(r, n);
    r
  }

  predicate OneIn(r: real, n: nat) {
    r * n as real == 1.0
  }

  /** The reciprocal, for readers of the results. */
  lemma EvenIsOneOver(n: nat)
    requires n > 0
    ensures Even(n) == 1.0 / n as real
  {
    assert OneIn(Even(n), n);
  }

  /** A jump: what the called chain lets through continues with the rest. */
  function After(called: Outcome, rest: Outcome): Outcome {
    Outcome(called.rewritten + called.through * rest.rewritten, called.through * rest.through)
  }

  function Mix(p: real, a: Outcome, b: Outcome): Outcome {
    Outcome(p * a.rewritten + (1.0 - p) * b.rewritten, p * a.through + (1.0 - p) * b.through)
  }

  /** Walking a chain; `depth` bounds the nesting of jumps. */
  ghost function Walk(t: NatTable, rules: seq<NatRule>, pkt: NatPacket, dest: Dest, depth: nat): Outcome
    decreases depth, |rules|
  {
    if rules == [] then Outcome(0.0, 1.0)
    else
      var rest := Walk(t, rules[1..], pkt, dest, depth);
      match rules[0]
      case VipJump(vip, proto, port, target) =>
        if VipMatches(vip, proto, port, pkt) then After(Call(t, target, pkt, dest, depth), rest) else rest
      case Split(n, target) =>
        if n == 0 then rest else Mix(Even(n), After(Call(t, target, pkt, dest, depth), rest), rest)
      case Jump(target) => After(Call(t, target, pkt, dest, depth), rest)
      case Dnat(proto, ip, port) =>
        if proto == pkt.proto then Outcome(if Dest(ip, port) == dest then 1.0 else 0.0, 0.0) else rest
      case Foreign(_, _) => rest
  }

  ghost function Call(t: NatTable, target: string, pkt: NatPacket, dest: Dest, depth: nat): Outcome
    decreases depth, 0
  {
    if depth == 0 || target !in t then Outcome(0.0, 1.0) else Walk(t, t[target], pkt, dest, depth - 1)
  }

  // ---- One service chain picks every backend with the same probability -------------------------------

  /** Each of the backends from the i-th on with the same probability, and never unrewritten. */
  ghost function Share(g: Group, i: nat, dest: Dest): Outcome
    requires i < |g.backends|
  {
    Chance(dest.port == g.port && dest.ip in g.backends[i..], |g.backends| - i)
  }

  /** A terminal outcome: an even share of 1/n, or nothing. */
  ghost function Chance(hit: bool, n: nat): Outcome
    requires n > 0
  {
    Outcome(if hit then Even(n) else 0.0, 0.0)
  }

  lemma RealShare(a: real, b: real, m: real)
    requires a * m == 1.0 && b * (m - 1.0) == 1.0 && m > 1.0
    ensures (1.0 - a) * b == a
  {
    var x := (1.0 - a) * b;
    assert (1.0 - a) * m == m - 1.0;
    assert x * m == ((1.0 - a) * m) * b;
    assert (x - a) * m == 0.0;
  }

  lemma EvenShare(m: nat)
    requires m > 1
    ensures (1.0 - Even(m)) * Even(m - 1) == Even(m)
  {
    assert (m - 1) as real == m as real - 1.0;
    RealShare(Even(m), Even(m - 1), m as real);
  }

  lemma MixTerminal(p: real, a: real, b: real)
    ensures Mix(p, Outcome(a, 0.0), Outcome(b, 0.0)).through == 0.0
    ensures a == 0.0 && b == 0.0 ==> Mix(p, Outcome(a, 0.0), Outcome(b, 0.0)).rewritten == 0.0
    ensures a == 1.0 && b == 0.0 ==> Mix(p, Outcome(a, 0.0), Outcome(b, 0.0)).rewritten == p
    ensures a == 0.0 ==> Mix(p, Outcome(a, 0.0), Outcome(b, 0.0)).rewritten == (1.0 - p) * b
  {
    assert p * 0.0 == 0.0 && (1.0 - p) * 0.0 == 0.0;
  }

  lemma AfterTerminal(a: real, rest: Outcome)
    ensures After(Outcome(a, 0.0), rest) == Outcome(a, 0.0)
  {
  }

  /** One split: the backend at hand with probability 1/m, a share of what is left otherwise. */
  lemma SplitShare(m: nat, here: bool, later: bool, called: Outcome, rest: Outcome, result: Outcome)
    requires m > 1 && !(here && later)
    requires called == Sure(here) && rest == Chance(later, m - 1) && result == Chance(here || later, m)
    ensures Mix(Even(m), After(called, rest), rest) == result
  {
    AfterTerminal(called.rewritten, rest);
    if here {
      MixTerminal(Even(m), 1.0, 0.0);
    } else if later {
      MixTerminal(Even(m), 0.0, Even(m - 1));
      EvenShare(m);
    } else {
      MixTerminal(Even(m), 0.0, 0.0);
    }
  }

  function Sure(hit: bool): Outcome {
    Outcome(if hit then 1.0 else 0.0, 0.0)
  }

  /** Each endpoint chain holds exactly its backend's DNAT rule. */
  ghost predicate EndpointsInstalled(t: NatTable, hash: Hash, g: Group) {
    forall b :: b in g.backends ==> SepChain(hash, g, b) in t && t[SepChain(hash, g, b)] == [Dnat(g.proto, b, g.port)]
  }

  lemma EndpointCall(t: NatTable, hash: Hash, g: Group, b: string, pkt: NatPacket, dest: Dest, depth: nat)
    requires b in g.backends && EndpointsInstalled(t, hash, g) && pkt.proto == g.proto && depth > 0
    ensures Call(t, SepChain(hash, g, b), pkt, dest, depth) == Sure(Dest(b, g.port) == dest)
  {
    assert t[SepChain(hash, g, b)][0] == Dnat(g.proto, b, g.port);
  }

  lemma WalkFirst(t: NatTable, rule: NatRule, tail: seq<NatRule>, pkt: NatPacket, dest: Dest, depth: nat)
    requires (rule.Split? && rule.outOf > 0) || rule.Jump?
    ensures var called, rest := Call(t, TargetOf(rule), pkt, dest, depth), Walk(t, tail, pkt, dest, depth);
      Walk(t, [rule] + tail, pkt, dest, depth) == if rule.Jump? then After(called, rest) else Mix(Even(rule.outOf), After(called, rest), rest)
  {
    assert ([rule] + tail)[1..] == tail;
  }

  /** With m backends left and probability 1/m at each step, every remaining backend is hit with probability 1/m. */
  lemma {:induction false} BalanceIsUniform(t: NatTable, hash: Hash, g: Group, i: nat, pkt: NatPacket, dest: Dest, depth: nat)
    requires i < |g.backends| && NoDup(g.backends)
    requires EndpointsInstalled(t, hash, g) && pkt.proto == g.proto && depth > 0
    ensures Walk(t, Balance(hash, g, i), pkt, dest, depth) == Share(g, i, dest)
    decreases |g.backends| - i
  {
    if i < |g.backends| - 1 {
      BalanceIsUniform(t, hash, g, i + 1, pkt, dest, depth);
      SplitStep(t, hash, g, i, pkt, dest, depth);
    } else {
      LastStep(t, hash, g, i, pkt, dest, depth);
    }
  }

  lemma SplitStep(t: NatTable, hash: Hash, g: Group, i: nat, pkt: NatPacket, dest: Dest, depth: nat)
    requires i < |g.backends| - 1 && NoDup(g.backends)
    requires EndpointsInstalled(t, hash, g) && pkt.proto == g.proto && depth > 0
    requires Walk(t, Balance(hash, g, i + 1), pkt, dest, depth) == Share(g, i + 1, dest)
    ensures Walk(t, Balance(hash, g, i), pkt, dest, depth) == Share(g, i, dest)
  {
    var b, m := g.backends[i], |g.backends| - i;
    var sep, tail := SepChain(hash, g, b), Balance(hash, g, i + 1);
    var here, later := Dest(b, g.port) == dest, dest.port == g.port && dest.ip in g.backends[i + 1..];
    assert Balance(hash, g, i) == [Split(m, sep)] + tail;
    EndpointCall(t, hash, g, b, pkt, dest, depth);
    NextBackend(g, i, dest);
    ShareIsChance(g, i, dest, here || later, m);
    ShareIsChance(g, i + 1, dest, later, m - 1);
    SplitShare(m, here, later, Call(t, sep, pkt, dest, depth), Walk(t, tail, pkt, dest, depth), Share(g, i, dest));
    WalkFirst(t, Split(m, sep), tail, pkt, dest, depth);
  }

  lemma ShareIsChance(g: Group, i: nat, dest: Dest, hit: bool, m: nat)
    requires i < |g.backends| && m == |g.backends| - i && hit == (dest.port == g.port && dest.ip in g.backends[i..])
    ensures Share(g, i, dest) == Chance(hit, m)
  {
  }

  lemma NextBackend(g: Group, i: nat, dest: Dest)
    requires i < |g.backends| && NoDup(g.backends)
    ensures dest.ip in g.backends[i..] <==> dest.ip == g.backends[i] || dest.ip in g.backends[i + 1..]
    ensures g.backends[i] !in g.backends[i + 1..]
  {
    SuffixElements(g.backends, i);
    assert g.backends[i..] == [g.backends[i]] + g.backends[i + 1..];
    assert g.backends[i] !in Elements(g.backends[i + 1..]);
  }

  lemma LastStep(t: NatTable, hash: Hash, g: Group, i: nat, pkt: NatPacket, dest: Dest, depth: nat)
    requires i == |g.backends| - 1
    requires EndpointsInstalled(t, hash, g) && pkt.proto == g.proto && depth > 0
    ensures Walk(t, Balance(hash, g, i), pkt, dest, depth) == Share(g, i, dest)
  {
    var b := g.backends[i];
    var rule := Jump(SepChain(hash, g, b));
    assert Balance(hash, g, i) == [rule] + [];
    EndpointCall(t, hash, g, b, pkt, dest, depth);
    WalkFirst(t, rule, [], pkt, dest, depth);
    AfterTerminal(if Dest(b, g.port) == dest then 1.0 else 0.0, Outcome(0.0, 1.0));
    LastShare(g, i, dest);
  }

  lemma LastShare(g: Group, i: nat, dest: Dest)
    requires i == |g.backends| - 1
    ensures Share(g, i, dest) == Sure(Dest(g.backends[i], g.port) == dest)
  {
    assert g.backends[i..] == [g.backends[i]];
    assert Even(1) == 1.0;
  }

  // ---- The root chain sends a packet to the one service that owns its address --------------------------

  ghost predicate RootInstalled(t: NatTable, hash: Hash, groups: seq<Group>) {
    ROOT_CHAIN in t && t[ROOT_CHAIN] == RootJumps(hash, groups)
  }

  function RootJumps(hash: Hash, groups: seq<Group>): (r: seq<NatRule>)
    ensures |r| == |groups| && forall i :: 0 <= i < |groups| ==> r[i] == RootJump(hash, groups[i])
  {
    seq(|groups|, i requires 0 <= i < |groups| => RootJump(hash, groups[i]))
  }

  predicate ForGroup(g: Group, pkt: NatPacket) {
    VipMatches(g.vip, g.proto, g.port, pkt)
  }

  ghost predicate DistinctAddresses(groups: seq<Group>) {
    forall i, j :: 0 <= i < j < |groups| ==>
      (groups[i].vip, groups[i].proto, groups[i].port) != (groups[j].vip, groups[j].proto, groups[j].port)
  }

  lemma {:induction false} RootMisses(t: NatTable, hash: Hash, groups: seq<Group>, pkt: NatPacket, dest: Dest, depth: nat)
    requires forall i :: 0 <= i < |groups| ==> !ForGroup(groups[i], pkt)
    ensures Walk(t, RootJumps(hash, groups), pkt, dest, depth) == Outcome(0.0, 1.0)
  {
    if groups != [] {
      var rest := groups[1..];
      assert RootJumps(hash, groups)[1..] == RootJumps(hash, rest);
      assert forall i :: 0 <= i < |rest| ==> rest[i] == groups[i + 1];
      RootMisses(t, hash, rest, pkt, dest, depth);
    }
  }

  lemma AfterMiss(called: Outcome)
    ensures After(called, Outcome(0.0, 1.0)) == called
  {
    assert called.through * 0.0 == 0.0 && called.through * 1.0 == called.through;
  }

  lemma {:induction false} RootHits(t: NatTable, hash: Hash, groups: seq<Group>, i: nat, pkt: NatPacket, dest: Dest, depth: nat)
    requires i < |groups| && ForGroup(groups[i], pkt) && DistinctAddresses(groups)
    ensures Walk(t, RootJumps(hash, groups), pkt, dest, depth) == Call(t, SvcChain(hash, groups[i]), pkt, dest, depth)
  {
    var rest := groups[1..];
    assert RootJumps(hash, groups)[1..] == RootJumps(hash, rest);
    assert forall j :: 0 <= j < |rest| ==> rest[j] == groups[j + 1];
    if i > 0 {
      assert !ForGroup(groups[0], pkt);
      RootHits(t, hash, rest, i - 1, pkt, dest, depth);
    } else {
      RootMisses(t, hash, rest, pkt, dest, depth);
      AfterMiss(Call(t, SvcChain(hash, groups[0]), pkt, dest, depth));
    }
  }

  // ---- What the rebuilt table holds ---------------------------------------------------------------------

  /** No two (service, port) pairs share a service chain, no two backends an endpoint chain. */
  ghost predicate CollisionFree(hash: Hash, groups: seq<Group>) {
    && (forall i, j :: 0 <= i < j < |groups| ==> SvcChain(hash, groups[i]) != SvcChain(hash, groups[j]))
    && (forall i, j, a, b :: 0 <= i < |groups| && 0 <= j < |groups| && a in groups[i].backends && b in groups[j].backends && (i, a) != (j, b)
          ==> SepChain(hash, groups[i], a) != SepChain(hash, groups[j], b))
  }

  /** What is hashed into chain names for one (service, port) pair: its own key, and that key with each backend. */
  function HashedFor(g: Group): set<seq<string>> {
    {[g.namespace, g.name, g.proto, g.port]} + set b | b in g.backends :: [g.namespace, g.name, g.proto, g.port, b]
  }

  function HashedKeys(groups: seq<Group>): set<seq<string>> {
    set g, k | g in groups && k in HashedFor(g) :: k
  }

  /** No two of the keys have one hash. */
  ghost predicate HashApart(hash: Hash, keys: set<seq<string>>) {
    forall a, b :: a in keys && b in keys && hash(a) == hash(b) ==> a == b
  }

  ghost predicate DistinctPairs(groups: seq<Group>) {
    forall i, j :: 0 <= i < j < |groups| ==>
      [groups[i].namespace, groups[i].name, groups[i].proto, groups[i].port] != [groups[j].namespace, groups[j].name, groups[j].proto, groups[j].port]
  }

  lemma KeyHashed(groups: seq<Group>, i: nat, b: string)
    requires i < |groups|
    ensures var g := groups[i];
      && [g.namespace, g.name, g.proto, g.port] in HashedKeys(groups)
      && (b in g.backends ==> [g.namespace, g.name, g.proto, g.port, b] in HashedKeys(groups))
  {
    assert groups[i] in groups;
    assert [groups[i].namespace, groups[i].name, groups[i].proto, groups[i].port] in HashedFor(groups[i]);
    assert b in groups[i].backends ==> [groups[i].namespace, groups[i].name, groups[i].proto, groups[i].port, b] in HashedFor(groups[i]);
  }

  lemma NamesApart(hash: Hash, keys: set<seq<string>>, prefix: string, a: seq<string>, b: seq<string>)
    requires HashApart(hash, keys) && a in keys && b in keys && a != b
    ensures prefix + hash(a) != prefix + hash(b)
  {
    assert (prefix + hash(a))[|prefix|..] == hash(a) && (prefix + hash(b))[|prefix|..] == hash(b);
  }

  /** Distinct pairs whose keys do not collide get chains of their own. */
  lemma ApartIsCollisionFree(hash: Hash, groups: seq<Group>)
    requires DistinctPairs(groups) && HashApart(hash, HashedKeys(groups))
    ensures CollisionFree(hash, groups)
  {
    var keys := HashedKeys(groups);
    forall i, j | 0 <= i < j < |groups| ensures SvcChain(hash, groups[i]) != SvcChain(hash, groups[j]) {
      var g, h := groups[i], groups[j];
      KeyHashed(groups, i, "");
      KeyHashed(groups, j, "");
      NamesApart(hash, keys, SVC_PREFIX, [g.namespace, g.name, g.proto, g.port], [h.namespace, h.name, h.proto, h.port]);
    }
    forall i, j, a, b | 0 <= i < |groups| && 0 <= j < |groups| && a in groups[i].backends && b in groups[j].backends && (i, a) != (j, b)
      ensures SepChain(hash, groups[i], a) != SepChain(hash, groups[j], b)
    {
      EndpointsApart(hash, groups, i, j, a, b);
    }
  }

  lemma EndpointsApart(hash: Hash, groups: seq<Group>, i: nat, j: nat, a: string, b: string)
    requires DistinctPairs(groups) && HashApart(hash, HashedKeys(groups))
    requires i < |groups| && j < |groups| && a in groups[i].backends && b in groups[j].backends && (i, a) != (j, b)
    ensures SepChain(hash, groups[i], a) != SepChain(hash, groups[j], b)
  {
    var g, h := groups[i], groups[j];
    KeyHashed(groups, i, a);
    KeyHashed(groups, j, b);
    var x, y := [g.namespace, g.name, g.proto, g.port, a], [h.namespace, h.name, h.proto, h.port, b];
    assert x[..4] == [g.namespace, g.name, g.proto, g.port] && y[..4] == [h.namespace, h.name, h.proto, h.port];
    assert x[4] == a && y[4] == b && (i == j || i < j || j < i);
    NamesApart(hash, HashedKeys(groups), SEP_PREFIX, x, y);
  }

  lemma ChainKindsDiffer(hash: Hash, g: Group, h: Group, b: string)
    ensures SvcChain(hash, g) != ROOT_CHAIN && SepChain(hash, h, b) != ROOT_CHAIN && SvcChain(hash, g) != SepChain(hash, h, b)
  {
    assert SvcChain(hash, g)[5] == 'V' && SepChain(hash, h, b)[5] == 'E' && ROOT_CHAIN[5] == 'L';
  }

  lemma {:induction false} InChainContents(chain: string, rules: seq<NatRule>, c: string)
    ensures Contents(NatPlan.InChain(chain, rules), c) == if c == chain then rules else []
  {
    if rules != [] {
      assert NatPlan.InChain(chain, rules)[1..] == NatPlan.InChain(chain, rules[1..]);
      InChainContents(chain, rules[1..], c);
      assert [rules[0]] + rules[1..] == rules;
    }
  }

  /** The contribution of one (service, port) pair to a chain. */
  lemma GroupContents(hash: Hash, g: Group, c: string)
    ensures Contents(GroupRules(hash, g), c)
         == (if c == ROOT_CHAIN then [RootJump(hash, g)] else [])
            + (if c == SvcChain(hash, g) then Balance(hash, g, 0) else [])
            + Contents(Endpoints(hash, g), c)
  {
    var f := (r: Rule) => if r.chain == c then [r.rule] else [];
    var root := [Rule(ROOT_CHAIN, RootJump(hash, g))];
    var balance := NatPlan.InChain(SvcChain(hash, g), Balance(hash, g, 0));
    CollectConcat(f, root, balance);
    CollectConcat(f, root + balance, Endpoints(hash, g));
    assert root[1..] == [];
    InChainContents(SvcChain(hash, g), Balance(hash, g, 0), c);
  }

  lemma RulesContents(hash: Hash, groups: seq<Group>, c: string)
    ensures Contents(Rules(hash, groups), c) == Collect((g: Group) => Contents(GroupRules(hash, g), c), groups)
  {
    var f := (r: Rule) => if r.chain == c then [r.rule] else [];
    CollectCollect((g: Group) => GroupRules(hash, g), f, (g: Group) => Contents(GroupRules(hash, g), c), groups);
  }

  lemma EndpointsElsewhere(hash: Hash, g: Group, c: string)
    requires forall b :: b in g.backends ==> SepChain(hash, g, b) != c
    ensures Contents(Endpoints(hash, g), c) == []
  {
    forall r | r in Endpoints(hash, g) ensures r.chain != c {
      var i :| 0 <= i < |g.backends| && Endpoints(hash, g)[i] == r;
      assert g.backends[i] in g.backends;
    }
    ContentsOfOthers(Endpoints(hash, g), c);
  }

  lemma RootContents(hash: Hash, groups: seq<Group>)
    ensures Contents(Rules(hash, groups), ROOT_CHAIN) == RootJumps(hash, groups)
  {
    RulesContents(hash, groups, ROOT_CHAIN);
    var f := (g: Group) => Contents(GroupRules(hash, g), ROOT_CHAIN);
    forall i | 0 <= i < |groups| ensures f(groups[i]) == [RootJumps(hash, groups)[i]] {
      RootGroup(hash, groups[i]);
    }
    CollectMap(f, groups, RootJumps(hash, groups));
  }

  lemma RootGroup(hash: Hash, g: Group)
    ensures Contents(GroupRules(hash, g), ROOT_CHAIN) == [RootJump(hash, g)]
  {
    ChainKindsDiffer(hash, g, g, "");
    forall b | b in g.backends ensures SepChain(hash, g, b) != ROOT_CHAIN {
      ChainKindsDiffer(hash, g, g, b);
    }
    EndpointsElsewhere(hash, g, ROOT_CHAIN);
    GroupContents(hash, g, ROOT_CHAIN);
  }

  lemma ServiceContents(hash: Hash, groups: seq<Group>, i: nat)
    requires i < |groups| && CollisionFree(hash, groups)
    ensures Contents(Rules(hash, groups), SvcChain(hash, groups[i])) == Balance(hash, groups[i], 0)
  {
    var c := SvcChain(hash, groups[i]);
    var f := (g: Group) => Contents(GroupRules(hash, g), c);
    forall j | 0 <= j < |groups| ensures f(groups[j]) == if j == i then Balance(hash, groups[i], 0) else [] {
      ServiceGroupContents(hash, groups[j], groups[i]);
      assert j != i ==> SvcChain(hash, groups[j]) != c;
    }
    RulesContents(hash, groups, c);
    CollectOnly(f, groups, i);
  }

  lemma ServiceGroupContents(hash: Hash, g: Group, h: Group)
    ensures Contents(GroupRules(hash, g), SvcChain(hash, h))
         == if SvcChain(hash, g) == SvcChain(hash, h) then Balance(hash, g, 0) else []
  {
    ChainKindsDiffer(hash, h, g, "");
    forall b | b in g.backends ensures SepChain(hash, g, b) != SvcChain(hash, h) {
      ChainKindsDiffer(hash, h, g, b);
    }
    EndpointsElsewhere(hash, g, SvcChain(hash, h));
    GroupContents(hash, g, SvcChain(hash, h));
  }

  lemma EndpointContents(hash: Hash, groups: seq<Group>, i: nat, k: nat)
    requires i < |groups| && k < |groups[i].backends| && CollisionFree(hash, groups) && NoDup(groups[i].backends)
    ensures var g, b := groups[i], groups[i].backends[k];
      Contents(Rules(hash, groups), SepChain(hash, g, b)) == [Dnat(g.proto, b, g.port)]
  {
    var g, b := groups[i], groups[i].backends[k];
    var c := SepChain(hash, g, b);
    var f := (h: Group) => Contents(GroupRules(hash, h), c);
    forall j | 0 <= j < |groups| ensures f(groups[j]) == if j == i then [Dnat(g.proto, b, g.port)] else [] {
      ChainKindsDiffer(hash, groups[j], g, b);
      GroupContents(hash, groups[j], c);
      if j != i {
        EndpointsElsewhere(hash, groups[j], c);
      } else {
        OneEndpoint(hash, groups, i, k);
      }
    }
    RulesContents(hash, groups, c);
    CollectOnly(f, groups, i);
  }

  lemma OneEndpoint(hash: Hash, groups: seq<Group>, i: nat, k: nat)
    requires i < |groups| && k < |groups[i].backends| && CollisionFree(hash, groups) && NoDup(groups[i].backends)
    ensures var g, b := groups[i], groups[i].backends[k];
      Contents(Endpoints(hash, g), SepChain(hash, g, b)) == [Dnat(g.proto, b, g.port)]
  {
    var g, b := groups[i], groups[i].backends[k];
    var c := SepChain(hash, g, b);
    var e := Endpoints(hash, g);
    forall j | 0 <= j < |e| && j != k ensures e[j].chain != c {
      assert g.backends[j] in g.backends && g.backends[j] != b;
      assert (i, g.backends[j]) != (i, b);
    }
    CollectOnly((r: Rule) => if r.chain == c then [r.rule] else [], e, k);
  }

  // ---- The rebuilt table ----------------------------------------------------------------------------------

  /** The table's own chains are exactly the expansion. */
  ghost predicate Realizes(t: NatTable, hash: Hash, groups: seq<Group>) {
    forall c :: c in ChainSet(hash, groups) + {ROOT_CHAIN} ==> c in t && t[c] == Contents(Rules(hash, groups), c)
  }

  lemma RebuiltRealizes(t: NatTable, hash: Hash, groups: seq<Group>)
    ensures Realizes(Rebuilt(t, Expansion(hash, groups)), hash, groups)
  {
  }

  lemma InstalledAll(t: NatTable, hash: Hash, groups: seq<Group>, i: nat)
    requires i < |groups| && Realizes(t, hash, groups) && CollisionFree(hash, groups) && NoDup(groups[i].backends)
    ensures RootInstalled(t, hash, groups)
    ensures SvcChain(hash, groups[i]) in t && t[SvcChain(hash, groups[i])] == Balance(hash, groups[i], 0)
    ensures EndpointsInstalled(t, hash, groups[i])
  {
    var g := groups[i];
    assert g in groups;
    RootContents(hash, groups);
    assert SvcChain(hash, g) in GroupChains(hash, g);
    ServiceContents(hash, groups, i);
    forall b | b in g.backends ensures SepChain(hash, g, b) in t && t[SepChain(hash, g, b)] == [Dnat(g.proto, b, g.port)] {
      assert SepChain(hash, g, b) in GroupChains(hash, g);
      var k :| 0 <= k < |g.backends| && g.backends[k] == b;
      EndpointContents(hash, groups, i, k);
    }
  }

  /** A packet to a programmed address is rewritten, to each backend with probability exactly 1/n, and to
      nothing else; without backends it passes unrewritten. Two jumps are all a walk takes. */
  lemma UniformAndConfined(t: NatTable, hash: Hash, groups: seq<Group>, i: nat, pkt: NatPacket, dest: Dest, depth: nat)
    requires depth >= 2 && i < |groups| && Realizes(t, hash, groups) && CollisionFree(hash, groups) && DistinctAddresses(groups)
    requires ForGroup(groups[i], pkt) && NoDup(groups[i].backends)
    ensures ROOT_CHAIN in t
    ensures Walk(t, t[ROOT_CHAIN], pkt, dest, depth) == if groups[i].backends == [] then Outcome(0.0, 1.0) else Share(groups[i], 0, dest)
  {
    InstalledAll(t, hash, groups, i);
    RootHits(t, hash, groups, i, pkt, dest, depth);
    if groups[i].backends != [] {
      BalanceIsUniform(t, hash, groups[i], 0, pkt, dest, depth - 1);
    }
  }

  /** A packet to any other address is left alone. */
  lemma OtherAddressesUntouched(t: NatTable, hash: Hash, groups: seq<Group>, pkt: NatPacket, dest: Dest, depth: nat)
    requires Realizes(t, hash, groups) && forall i :: 0 <= i < |groups| ==> !ForGroup(groups[i], pkt)
    ensures ROOT_CHAIN in t && Walk(t, t[ROOT_CHAIN], pkt, dest, depth) == Outcome(0.0, 1.0)
  {
    RootContents(hash, groups);
    RootMisses(t, hash, groups, pkt, dest, depth);
  }
}
