/** pkg/meshfw/plan.go: compiling MeshNetworkPolicies into one first-match chain. */
module FirewallPlan {
  import opened Cidr
  import opened Order
  import opened Text
  import opened Packets

  const FW_CHAIN := "DWX-MESH-FW"

  datatype Port = Port(protocol: string, port: int)

  datatype PeerSelector = PeerSelector(clusterIDs: seq<string>, cidrs: seq<string>)

  datatype IngressRule = IngressRule(from: seq<PeerSelector>, ports: seq<Port>)

  datatype Policy = Policy(name: string, destinations: seq<string>, ingress: seq<IngressRule>)

  datatype Rule = Rule(chain: string, args: Args)

  datatype Ruleset = Ruleset(rules: seq<Rule>, skipped: seq<string>)

  /** One ACCEPT rule; "" in src or dst means any. */
  datatype AcceptKey = AcceptKey(src: string, dst: string, proto: string, port: string)

  type ClusterCIDRs = map<string, seq<string>>

  // ---- What the policies promise ------------------------------------------------------------

  predicate Covered(parse: Parser, cidrs: seq<string>, ip: nat) {
    exists c :: c in cidrs && c != "" && Covers(parse, c, ip)
  }

  /** The policy protects this destination. No destinations at all means it protects everything. */
  predicate Selects(parse: Parser, p: Policy, dst: nat) {
    p.destinations == [] || Covered(parse, p.destinations, dst)
  }

  predicate FromMatches(parse: Parser, cc: ClusterCIDRs, from: seq<PeerSelector>, src: nat) {
    exists sel :: sel in from &&
      (Covered(parse, sel.cidrs, src) || exists id :: id in sel.clusterIDs && id in cc && Covered(parse, cc[id], src))
  }

  ghost predicate PortMatches(ports: seq<Port>, pkt: Packet) {
    ports == [] || exists pt :: pt in ports && Names(pt.protocol, pkt.proto) && pt.port == pkt.dport
  }

  /** Some ingress rule of a policy that selects the destination admits the packet. */
  ghost predicate Allows(parse: Parser, cc: ClusterCIDRs, p: Policy, pkt: Packet) {
    && Selects(parse, p, pkt.dst)
    && exists ing :: ing in p.ingress && FromMatches(parse, cc, ing.from, pkt.src) && PortMatches(ing.ports, pkt)
  }

  /** The NetworkPolicy reading: replies pass, selected destinations are default-deny, the rest is untouched. */
  ghost function PolicyVerdict(parse: Parser, cc: ClusterCIDRs, policies: seq<Policy>, pkt: Packet): Verdict {
    if pkt.established then Accept
    else if exists p :: p in policies && Allows(parse, cc, p, pkt) then Accept
    else if exists p :: p in policies && Selects(parse, p, pkt.dst) then Drop
    else Return
  }

  /** A destination text of the policy that is no IPv4 range. */
  predicate BadDestination(parse: Parser, p: Policy, c: string) {
    c in p.destinations && c != "" && parse(c).None?
  }

  /** A source text of the policy, given directly or through a known cluster, that is no IPv4 range. */
  predicate BadSource(parse: Parser, cc: ClusterCIDRs, p: Policy, c: string) {
    && c != "" && parse(c).None?
    && exists ing, sel :: ing in p.ingress && sel in ing.from && (c in sel.cidrs || exists id :: id in sel.clusterIDs && id in cc && c in cc[id])
  }

  /** The policy programs something: it names no destination, or one that is an IPv4 range. */
  predicate Effective(parse: Parser, p: Policy) {
    p.destinations == [] || exists c :: c in p.destinations && c != "" && parse(c).Some?
  }

  /** `x` is what the builder reports of the policy: a bad text, tagged with where it stood. */
  ghost predicate Reported(parse: Parser, cc: ClusterCIDRs, p: Policy, x: string) {
    || (exists c :: BadDestination(parse, p, c) && x == "dest:" + c)
    || (Effective(parse, p) && exists c :: BadSource(parse, cc, p, c) && x == "from:" + c)
  }

  // ---- What the builder accumulates -----------------------------------------------------------

  predicate IsIPv4(parse: Parser, c: string) {
    parse(c).Some?
  }

  function Kept(parse: Parser, texts: set<string>): set<string> {
    set c | c in texts && c != "" && IsIPv4(parse, c)
  }

  function Rejected(parse: Parser, texts: set<string>, kind: string): set<string> {
    set c | c in texts && c != "" && !IsIPv4(parse, c) :: kind + ":" + c
  }

  function DestSet(parse: Parser, p: Policy): set<string> {
    if p.destinations == [] then {""} else Kept(parse, Elements(p.destinations))
  }

  function SelectorSources(sel: PeerSelector, cc: ClusterCIDRs): set<string> {
    ClusterSources(Elements(sel.clusterIDs), cc) + Elements(sel.cidrs)
  }

  function ClusterSources(ids: set<string>, cc: ClusterCIDRs): set<string> {
    set id, c | id in ids && id in cc && c in cc[id] :: c
  }

  function Sources(from: seq<PeerSelector>, cc: ClusterCIDRs): set<string> {
    set sel, c | sel in from && c in SelectorSources(sel, cc) :: c
  }

  function PortKeys(src: string, dst: string, ports: seq<Port>): set<AcceptKey> {
    if ports == [] then {AcceptKey(src, dst, "", "")}
    else set pt | pt in ports :: AcceptKey(src, dst, NormalizeProto(pt.protocol), Itoa(pt.port))
  }

  function CrossKeys(srcs: set<string>, dests: set<string>, ports: seq<Port>): set<AcceptKey> {
    set d, s, k | d in dests && s in srcs && k in PortKeys(s, d, ports) :: k
  }

  function IngressKeys(parse: Parser, cc: ClusterCIDRs, ing: IngressRule, dests: set<string>): set<AcceptKey> {
    CrossKeys(Kept(parse, Sources(ing.from, cc)), dests, ing.ports)
  }

  function KeysOf(parse: Parser, cc: ClusterCIDRs, ingress: set<IngressRule>, dests: set<string>): set<AcceptKey> {
    set ing, k | ing in ingress && k in IngressKeys(parse, cc, ing, dests) :: k
  }

  function PolicyKeys(parse: Parser, cc: ClusterCIDRs, p: Policy): set<AcceptKey> {
    KeysOf(parse, cc, Elements(p.ingress), DestSet(parse, p))
  }

  function IngressSkips(parse: Parser, cc: ClusterCIDRs, ing: IngressRule): set<string> {
    Rejected(parse, Sources(ing.from, cc), "from")
  }

  function SkipsOf(parse: Parser, cc: ClusterCIDRs, ingress: set<IngressRule>): set<string> {
    set ing, x | ing in ingress && x in IngressSkips(parse, cc, ing) :: x
  }

  /** A policy whose destinations are all rejected is dropped before its sources are looked at. */
  function PolicySkips(parse: Parser, cc: ClusterCIDRs, p: Policy): set<string> {
    Rejected(parse, Elements(p.destinations), "dest")
    + if DestSet(parse, p) == {} then {} else SkipsOf(parse, cc, Elements(p.ingress))
  }

  function AllKeys(parse: Parser, cc: ClusterCIDRs, policies: seq<Policy>): set<AcceptKey> {
    set p, k | p in policies && k in PolicyKeys(parse, cc, p) :: k
  }

  function AllDests(parse: Parser, policies: seq<Policy>): set<string> {
    set p, d | p in policies && d in DestSet(parse, p) :: d
  }

  function AllSkips(parse: Parser, cc: ClusterCIDRs, policies: seq<Policy>): set<string> {
    set p, x | p in policies && x in PolicySkips(parse, cc, p) :: x
  }

  // ---- The emitted rules ------------------------------------------------------------------------

  function ConntrackArgs(): Args {
    ["-m", "conntrack", "--ctstate", "RELATED,ESTABLISHED", "-j", "ACCEPT"]
  }

  /** The option, unless its value is the "any" sentinel. */
  function Flag(flag: string, value: string, rest: Args): Args {
    if value != "" then [flag, value] + rest else rest
  }

  function PortArgs(proto: string, port: string): Args {
    if port != "" then ["-m", proto] + (["--dport", port] + ["-j", "ACCEPT"]) else ["-j", "ACCEPT"]
  }

  function AcceptArgs(k: AcceptKey): Args {
    Flag("-s", k.src, Flag("-d", k.dst,
      if k.proto != "" then ["-p", k.proto] + PortArgs(k.proto, k.port) else ["-j", "ACCEPT"]))
  }

  function DropArgs(dst: string): Args {
    Flag("-d", dst, ["-j", "DROP"])
  }

  predicate LessAccept(a: AcceptKey, b: AcceptKey) {
    if a.dst != b.dst then StringLess(a.dst, b.dst)
    else if a.src != b.src then StringLess(a.src, b.src)
    else if a.proto != b.proto then StringLess(a.proto, b.proto)
    else StringLess(a.port, b.port)
  }

  /** The protect-all sentinel "" sorts last, so that its DROP is the final catch-all. */
  predicate LessDest(a: string, b: string) {
    if a == "" then false else if b == "" then true else StringLess(a, b)
  }

  lemma LessAcceptTransitive(a: AcceptKey, b: AcceptKey, c: AcceptKey)
    requires LessAccept(a, b) && LessAccept(b, c)
    ensures LessAccept(a, c)
  {
    StringLessTotal();
    if a.dst == b.dst == c.dst {
      if a.src == b.src == c.src {
        if a.proto == b.proto == c.proto {
          StringLessTransitive(a.port, b.port, c.port);
        }
      }
    }
  }

  lemma LessAcceptConnected(a: AcceptKey, b: AcceptKey)
    ensures a == b ==> !LessAccept(a, b)
    ensures a != b ==> LessAccept(a, b) || LessAccept(b, a)
  {
    StringLessTotal();
  }

  lemma LessAcceptTotal()
    ensures StrictTotal(LessAccept) && WeakOrder(LessAccept)
  {
    forall a, b, c | LessAccept(a, b) && LessAccept(b, c) ensures LessAccept(a, c) {
      LessAcceptTransitive(a, b, c);
    }
    forall a, b ensures (a == b ==> !LessAccept(a, b)) && (a != b ==> LessAccept(a, b) || LessAccept(b, a)) {
      LessAcceptConnected(a, b);
    }
    TotalIsWeak(LessAccept);
  }

  lemma LessDestTotal()
    ensures StrictTotal(LessDest) && WeakOrder(LessDest)
  {
    StringLessTotal();
    TotalIsWeak(LessDest);
  }

  lemma StringLessWeak()
    ensures StrictTotal(StringLess) && WeakOrder(StringLess)
  {
    StringLessTotal();
    TotalIsWeak(StringLess);
  }

  /** The order of the accepts: by destination, then source, protocol and port. */
  lemma AcceptOrder(a: AcceptKey, b: AcceptKey)
    ensures StringLess(a.dst, b.dst) ==> LessAccept(a, b)
    ensures a.dst == b.dst && StringLess(a.src, b.src) ==> LessAccept(a, b)
    ensures a.dst == b.dst && a.src == b.src && StringLess(a.proto, b.proto) ==> LessAccept(a, b)
    ensures a.dst == b.dst && a.src == b.src && a.proto == b.proto && StringLess(a.port, b.port) ==> LessAccept(a, b)
  {
    StringLessTotal();
  }

  /** The drops are in order of destination, and the one for every destination comes last. */
  lemma DropOrder(dests: set<string>, i: nat, j: nat)
    requires i < j < |SortedDests(dests)|
    ensures var ds := SortedDests(dests); ds[i] != "" && (ds[j] == "" || StringLess(ds[i], ds[j]))
  {
  }

  function AcceptVectors(keys: seq<AcceptKey>): (r: seq<Args>)
    ensures |r| == |keys| && forall i :: 0 <= i < |keys| ==> r[i] == AcceptArgs(keys[i])
  {
    seq(|keys|, i requires 0 <= i < |keys| => AcceptArgs(keys[i]))
  }

  function DropVectors(dests: seq<string>): (r: seq<Args>)
    ensures |r| == |dests| && forall i :: 0 <= i < |dests| ==> r[i] == DropArgs(dests[i])
  {
    seq(|dests|, i requires 0 <= i < |dests| => DropArgs(dests[i]))
  }

  function InChain(vectors: seq<Args>): (r: seq<Rule>)
    ensures |r| == |vectors| && forall i :: 0 <= i < |vectors| ==> r[i] == Rule(FW_CHAIN, vectors[i])
  {
    seq(|vectors|, i requires 0 <= i < |vectors| => Rule(FW_CHAIN, vectors[i]))
  }

  ghost function SortedAccepts(keys: set<AcceptKey>): (r: seq<AcceptKey>)
    ensures StrictlySorted(LessAccept, r) && Elements(r) == keys
  {
    LessAcceptTotal();
    SortSet(LessAccept, keys)
  }

  ghost function SortedDests(dests: set<string>): (r: seq<string>)
    ensures StrictlySorted(LessDest, r) && Elements(r) == dests
  {
    LessDestTotal();
    SortSet(LessDest, dests)
  }

  ghost function SortedTexts(texts: set<string>): (r: seq<string>)
    ensures StrictlySorted(StringLess, r) && Elements(r) == texts
  {
    StringLessWeak();
    SortSet(StringLess, texts)
  }

  /** The argument vectors of the compiled chain, in order. */
  ghost function Compiled(keys: set<AcceptKey>, dests: set<string>): seq<Args> {
    [ConntrackArgs()] + AcceptVectors(SortedAccepts(keys)) + DropVectors(SortedDests(dests))
  }

  /** The chain a policy set compiles to. */
  ghost function CompiledChain(parse: Parser, cc: ClusterCIDRs, policies: seq<Policy>): seq<Args> {
    Compiled(AllKeys(parse, cc, policies), AllDests(parse, policies))
  }

  // ---- The compiled chain means what the policies say ---------------------------------------------

  /** The packet is one the accept key admits. */
  predicate KeyMatches(parse: Parser, k: AcceptKey, pkt: Packet) {
    && (k.src == "" || Covers(parse, k.src, pkt.src))
    && (k.dst == "" || Covers(parse, k.dst, pkt.dst))
    && (k.proto == "" || (k.proto == pkt.proto && (k.port == "" || k.port == Itoa(pkt.dport))))
  }

  predicate DestMatches(parse: Parser, d: string, pkt: Packet) {
    d == "" || Covers(parse, d, pkt.dst)
  }

  lemma PairMatches(parse: Parser, flag: string, value: string, rest: Args, pkt: Packet)
    ensures Matches(parse, [flag, value] + rest, pkt) <==> OptionHolds(parse, flag, value, pkt) && Matches(parse, rest, pkt)
    ensures flag != "-j" ==> Target([flag, value] + rest) == Target(rest)
  {
    assert ([flag, value] + rest)[2..] == rest;
  }

  lemma FlagMatches(parse: Parser, flag: string, value: string, rest: Args, pkt: Packet)
    ensures Matches(parse, Flag(flag, value, rest), pkt)
       <==> (value == "" || OptionHolds(parse, flag, value, pkt)) && Matches(parse, rest, pkt)
    ensures flag != "-j" ==> Target(Flag(flag, value, rest)) == Target(rest)
  {
    PairMatches(parse, flag, value, rest, pkt);
  }

  lemma JumpMatches(parse: Parser, target: string, pkt: Packet)
    ensures Matches(parse, ["-j", target], pkt) && Target(["-j", target]) == target
  {
    assert ["-j", target][2..] == [];
  }

  lemma PortArgsMeaning(parse: Parser, proto: string, port: string, pkt: Packet)
    ensures Matches(parse, PortArgs(proto, port), pkt) <==> port == "" || port == Itoa(pkt.dport)
    ensures Target(PortArgs(proto, port)) == "ACCEPT"
  {
    var jump := ["-j", "ACCEPT"];
    JumpMatches(parse, "ACCEPT", pkt);
    PairMatches(parse, "--dport", port, jump, pkt);
    PairMatches(parse, "-m", proto, ["--dport", port] + jump, pkt);
  }

  lemma AcceptArgsMeaning(parse: Parser, k: AcceptKey, pkt: Packet)
    ensures Matches(parse, AcceptArgs(k), pkt) <==> KeyMatches(parse, k, pkt)
    ensures Target(AcceptArgs(k)) == "ACCEPT"
  {
    JumpMatches(parse, "ACCEPT", pkt);
    PortArgsMeaning(parse, k.proto, k.port, pkt);
    PairMatches(parse, "-p", k.proto, PortArgs(k.proto, k.port), pkt);
    var tail := if k.proto != "" then ["-p", k.proto] + PortArgs(k.proto, k.port) else ["-j", "ACCEPT"];
    FlagMatches(parse, "-d", k.dst, tail, pkt);
    FlagMatches(parse, "-s", k.src, Flag("-d", k.dst, tail), pkt);
  }

  lemma DropArgsMeaning(parse: Parser, d: string, pkt: Packet)
    ensures Matches(parse, DropArgs(d), pkt) <==> DestMatches(parse, d, pkt)
    ensures Target(DropArgs(d)) == "DROP"
  {
    JumpMatches(parse, "DROP", pkt);
    FlagMatches(parse, "-d", d, ["-j", "DROP"], pkt);
  }

  lemma ConntrackMeaning(parse: Parser, pkt: Packet)
    ensures Matches(parse, ConntrackArgs(), pkt) <==> pkt.established
    ensures Target(ConntrackArgs()) == "ACCEPT"
  {
    var jump := ["-j", "ACCEPT"];
    assert jump[2..] == [];
    var state := ["--ctstate", "RELATED,ESTABLISHED"] + jump;
    assert ConntrackArgs() == ["-m", "conntrack"] + state;
    PairMatches(parse, "--ctstate", "RELATED,ESTABLISHED", jump, pkt);
    PairMatches(parse, "-m", "conntrack", state, pkt);
  }

  lemma AcceptsVerdict(parse: Parser, keys: seq<AcceptKey>, pkt: Packet)
    ensures Decide(parse, AcceptVectors(keys), pkt)
         == if exists k :: k in keys && KeyMatches(parse, k, pkt) then Some(Accept) else None
  {
    forall i | 0 <= i < |keys|
      ensures Target(AcceptVectors(keys)[i]) == "ACCEPT"
      ensures Matches(parse, AcceptVectors(keys)[i], pkt) <==> KeyMatches(parse, keys[i], pkt)
    {
      AcceptArgsMeaning(parse, keys[i], pkt);
    }
    UniformVerdict(parse, AcceptVectors(keys), "ACCEPT", pkt);
  }

  lemma DropsVerdict(parse: Parser, dests: seq<string>, pkt: Packet)
    ensures Decide(parse, DropVectors(dests), pkt)
         == if exists d :: d in dests && DestMatches(parse, d, pkt) then Some(Drop) else None
  {
    forall i | 0 <= i < |dests|
      ensures Target(DropVectors(dests)[i]) == "DROP"
      ensures Matches(parse, DropVectors(dests)[i], pkt) <==> DestMatches(parse, dests[i], pkt)
    {
      DropArgsMeaning(parse, dests[i], pkt);
    }
    UniformVerdict(parse, DropVectors(dests), "DROP", pkt);
  }

  /** The verdict of a compiled chain in terms of its accept and protected sets. */
  lemma CompiledVerdict(parse: Parser, keys: set<AcceptKey>, dests: set<string>, pkt: Packet)
    ensures Evaluate(parse, Compiled(keys, dests), pkt)
         == if pkt.established then Accept
            else if exists k :: k in keys && KeyMatches(parse, k, pkt) then Accept
            else if exists d :: d in dests && DestMatches(parse, d, pkt) then Drop
            else Return
  {
    var ks, ds := SortedAccepts(keys), SortedDests(dests);
    var head, accepts, drops := [ConntrackArgs()], AcceptVectors(ks), DropVectors(ds);
    ConntrackMeaning(parse, pkt);
    assert head[1..] == [];
    AcceptsVerdict(parse, ks, pkt);
    DropsVerdict(parse, ds, pkt);
    DecideAppend(parse, head, accepts, pkt);
    DecideAppend(parse, head + accepts, drops, pkt);
    assert forall k :: k in ks <==> k in Elements(ks);
    assert forall d :: d in ds <==> d in Elements(ds);
  }

  /** A source matches a `from` list exactly through one of the ranges it expands to. */
  lemma MatchingSource(parse: Parser, cc: ClusterCIDRs, from: seq<PeerSelector>, src: nat) returns (s: string)
    requires FromMatches(parse, cc, from, src)
    ensures s in Kept(parse, Sources(from, cc)) && Covers(parse, s, src)
  {
    var sel :| sel in from &&
      (Covered(parse, sel.cidrs, src) || exists id :: id in sel.clusterIDs && id in cc && Covered(parse, cc[id], src));
    if Covered(parse, sel.cidrs, src) {
      s :| s in sel.cidrs && s != "" && Covers(parse, s, src);
    } else {
      var id :| id in sel.clusterIDs && id in cc && Covered(parse, cc[id], src);
      s :| s in cc[id] && s != "" && Covers(parse, s, src);
    }
    assert s in SelectorSources(sel, cc);
  }

  lemma SourceMatches(parse: Parser, cc: ClusterCIDRs, from: seq<PeerSelector>, src: nat, s: string)
    requires s in Kept(parse, Sources(from, cc)) && Covers(parse, s, src)
    ensures FromMatches(parse, cc, from, src)
  {
    var sel :| sel in from && s in SelectorSources(sel, cc);
    if s in sel.cidrs {
      assert Covered(parse, sel.cidrs, src);
    } else {
      var id :| id in sel.clusterIDs && id in cc && s in cc[id];
      assert Covered(parse, cc[id], src);
    }
  }

  predicate PortPart(k: AcceptKey, pkt: Packet) {
    k.proto == "" || (k.proto == pkt.proto && k.port == Itoa(pkt.dport))
  }

  lemma MatchingPort(ports: seq<Port>, s: string, d: string, pkt: Packet) returns (k: AcceptKey)
    requires PortMatches(ports, pkt)
    ensures k in PortKeys(s, d, ports) && k.src == s && k.dst == d && PortPart(k, pkt)
  {
    k := AcceptKey(s, d, "", "");
    if ports != [] {
      var pt :| pt in ports && Names(pt.protocol, pkt.proto) && pt.port == pkt.dport;
      NormalizeExactly(pt.protocol, pkt.proto);
      k := AcceptKey(s, d, NormalizeProto(pt.protocol), Itoa(pt.port));
    }
  }

  lemma PortKeyMatches(ports: seq<Port>, s: string, d: string, k: AcceptKey, pkt: Packet)
    requires k in PortKeys(s, d, ports)
    ensures k.src == s && k.dst == d && (PortPart(k, pkt) ==> PortMatches(ports, pkt))
  {
    if ports != [] {
      var pt :| pt in ports && k == AcceptKey(s, d, NormalizeProto(pt.protocol), Itoa(pt.port));
      if PortPart(k, pkt) {
        ItoaInjective(pt.port, pkt.dport);
        NormalizeExactly(pt.protocol, pkt.proto);
      }
    }
  }

  lemma AllowedHasKey(parse: Parser, cc: ClusterCIDRs, p: Policy, pkt: Packet)
    requires Allows(parse, cc, p, pkt)
    ensures exists k :: k in PolicyKeys(parse, cc, p) && KeyMatches(parse, k, pkt)
  {
    var ing :| ing in p.ingress && FromMatches(parse, cc, ing.from, pkt.src) && PortMatches(ing.ports, pkt);
    var s := MatchingSource(parse, cc, ing.from, pkt.src);
    var d := "";
    if p.destinations != [] {
      d :| d in p.destinations && d != "" && Covers(parse, d, pkt.dst);
    }
    assert d in DestSet(parse, p);
    var k := MatchingPort(ing.ports, s, d, pkt);
    assert k in IngressKeys(parse, cc, ing, DestSet(parse, p));
    assert k in PolicyKeys(parse, cc, p) && KeyMatches(parse, k, pkt);
  }

  lemma KeyIsAllowed(parse: Parser, cc: ClusterCIDRs, p: Policy, k: AcceptKey, pkt: Packet)
    requires k in PolicyKeys(parse, cc, p) && KeyMatches(parse, k, pkt)
    ensures Allows(parse, cc, p, pkt)
  {
    var ing :| ing in p.ingress && k in IngressKeys(parse, cc, ing, DestSet(parse, p));
    var d, s :| d in DestSet(parse, p) && s in Kept(parse, Sources(ing.from, cc)) && k in PortKeys(s, d, ing.ports);
    PortKeyMatches(ing.ports, s, d, k, pkt);
    SourceMatches(parse, cc, ing.from, pkt.src, s);
  }

  lemma SelectedIsProtected(parse: Parser, p: Policy, pkt: Packet)
    ensures Selects(parse, p, pkt.dst) <==> exists d :: d in DestSet(parse, p) && DestMatches(parse, d, pkt)
  {
    if p.destinations == [] {
      assert "" in DestSet(parse, p) && DestMatches(parse, "", pkt);
    } else if Selects(parse, p, pkt.dst) {
      var d :| d in p.destinations && d != "" && Covers(parse, d, pkt.dst);
      assert d in DestSet(parse, p) && DestMatches(parse, d, pkt);
    }
  }

  /** First-match evaluation of the compiled chain is the NetworkPolicy verdict, for every packet. */
  lemma CompiledMeaning(parse: Parser, cc: ClusterCIDRs, policies: seq<Policy>, pkt: Packet)
    ensures Evaluate(parse, CompiledChain(parse, cc, policies), pkt) == PolicyVerdict(parse, cc, policies, pkt)
  {
    CompiledVerdict(parse, AllKeys(parse, cc, policies), AllDests(parse, policies), pkt);
    KeysMeanAllowed(parse, cc, policies, pkt);
    DestsMeanSelected(parse, policies, pkt);
  }

  lemma KeysMeanAllowed(parse: Parser, cc: ClusterCIDRs, policies: seq<Policy>, pkt: Packet)
    ensures (exists k :: k in AllKeys(parse, cc, policies) && KeyMatches(parse, k, pkt))
       <==> exists p :: p in policies && Allows(parse, cc, p, pkt)
  {
    var keys := AllKeys(parse, cc, policies);
    if p :| p in policies && Allows(parse, cc, p, pkt) {
      AllowedHasKey(parse, cc, p, pkt);
      var k :| k in PolicyKeys(parse, cc, p) && KeyMatches(parse, k, pkt);
      assert k in keys;
    }
    if k :| k in keys && KeyMatches(parse, k, pkt) {
      var p :| p in policies && k in PolicyKeys(parse, cc, p);
      KeyIsAllowed(parse, cc, p, k, pkt);
    }
  }

  lemma DestsMeanSelected(parse: Parser, policies: seq<Policy>, pkt: Packet)
    ensures (exists d :: d in AllDests(parse, policies) && DestMatches(parse, d, pkt))
       <==> exists p :: p in policies && Selects(parse, p, pkt.dst)
  {
    var dests := AllDests(parse, policies);
    if p :| p in policies && Selects(parse, p, pkt.dst) {
      SelectedIsProtected(parse, p, pkt);
      var d :| d in DestSet(parse, p) && DestMatches(parse, d, pkt);
      assert d in dests;
    }
    if d :| d in dests && DestMatches(parse, d, pkt) {
      var p :| p in policies && d in DestSet(parse, p);
      SelectedIsProtected(parse, p, pkt);
    }
  }

  /** The whole ruleset depends only on which policies there are, not on their order or repetition. */
  lemma RulesetOrderIndependent(parse: Parser, cc: ClusterCIDRs, p1: seq<Policy>, p2: seq<Policy>)
    requires Elements(p1) == Elements(p2)
    ensures CompiledChain(parse, cc, p1) == CompiledChain(parse, cc, p2)
    ensures SortedTexts(AllSkips(parse, cc, p1)) == SortedTexts(AllSkips(parse, cc, p2))
  {
    assert forall p :: p in p1 <==> p in Elements(p1);
    assert forall p :: p in p2 <==> p in Elements(p2);
    assert AllKeys(parse, cc, p1) == AllKeys(parse, cc, p2);
    assert AllDests(parse, p1) == AllDests(parse, p2);
    assert AllSkips(parse, cc, p1) == AllSkips(parse, cc, p2);
  }

  // ---- The builder ----------------------------------------------------------------------------------

  /** Accumulates the deduplicated accept and protected sets while folding in each policy. */
  class FwBuilder {
    const parse: Parser
    const clusterCIDRs: ClusterCIDRs
    var accepts: set<AcceptKey>
    var protectedDest: set<string>
    var skipped: seq<string>

    constructor (parse: Parser, clusterCIDRs: ClusterCIDRs)
      ensures this.parse == parse && this.clusterCIDRs == clusterCIDRs
      ensures accepts == {} && protectedDest == {} && skipped == []
    {
      this.parse, this.clusterCIDRs := parse, clusterCIDRs;
      accepts, protectedDest, skipped := {}, {}, [];
    }

    method KeepIPv4(list: seq<string>, kind: string) returns (out: seq<string>)
      modifies this`skipped
      ensures Elements(out) == Kept(parse, Elements(list))
      ensures Elements(skipped) == old(Elements(skipped)) + Rejected(parse, Elements(list), kind)
    {
      out := [];
      for i := 0 to |list|
        invariant Elements(out) == Kept(parse, Elements(list[..i]))
        invariant Elements(skipped) == old(Elements(skipped)) + Rejected(parse, Elements(list[..i]), kind)
      {
        var c := list[i];
        PrefixElements(list, i);
        FilterAdd(parse, Elements(list[..i]), c, kind);
        if c == "" {
          continue;
        }
        if !IsIPv4(parse, c) {
          ElementsAppend(skipped, [kind + ":" + c]);
          skipped := skipped + [kind + ":" + c];
          continue;
        }
        ElementsAppend(out, [c]);
        out := out + [c];
      }
      assert list[..|list|] == list;
    }

    method AddAccept(src: string, dst: string, ports: seq<Port>)
      modifies this`accepts
      ensures accepts == old(accepts) + PortKeys(src, dst, ports)
    {
      if |ports| == 0 {
        accepts := accepts + {AcceptKey(src, dst, "", "")};
        return;
      }
      for i := 0 to |ports|
        invariant accepts == old(accepts) + set pt | pt in ports[..i] :: AcceptKey(src, dst, NormalizeProto(pt.protocol), Itoa(pt.port))
      {
        assert ports[..i + 1] == ports[..i] + [ports[i]];
        accepts := accepts + {AcceptKey(src, dst, NormalizeProto(ports[i].protocol), Itoa(ports[i].port))};
      }
      assert ports[..|ports|] == ports;
    }

    method AddIngress(ing: IngressRule, dests: seq<string>)
      modifies this`accepts, this`skipped
      ensures accepts == old(accepts) + IngressKeys(parse, clusterCIDRs, ing, Elements(dests))
      ensures Elements(skipped) == old(Elements(skipped)) + IngressSkips(parse, clusterCIDRs, ing)
    {
      var sources := ResolveSources(ing.from, clusterCIDRs);
      var srcs := KeepIPv4(sources, "from");
      AddCross(srcs, dests, ing.ports);
    }

    method AddCross(srcs: seq<string>, dests: seq<string>, ports: seq<Port>)
      modifies this`accepts
      ensures accepts == old(accepts) + CrossKeys(Elements(srcs), Elements(dests), ports)
    {
      for i := 0 to |dests|
        invariant accepts == old(accepts) + CrossKeys(Elements(srcs), Elements(dests[..i]), ports)
      {
        PrefixElements(dests, i);
        CrossAddDest(Elements(srcs), Elements(dests[..i]), dests[i], ports);
        AddPairs(srcs, dests[i], ports);
      }
      assert dests[..|dests|] == dests;
    }

    method AddPairs(srcs: seq<string>, dest: string, ports: seq<Port>)
      modifies this`accepts
      ensures accepts == old(accepts) + CrossKeys(Elements(srcs), {dest}, ports)
    {
      for i := 0 to |srcs|
        invariant accepts == old(accepts) + CrossKeys(Elements(srcs[..i]), {dest}, ports)
      {
        PrefixElements(srcs, i);
        CrossAddSource(Elements(srcs[..i]), srcs[i], dest, ports);
        AddAccept(srcs[i], dest, ports);
      }
      assert srcs[..|srcs|] == srcs;
    }

    method Protect(dests: seq<string>)
      modifies this`protectedDest
      ensures protectedDest == old(protectedDest) + Elements(dests)
    {
      for i := 0 to |dests|
        invariant protectedDest == old(protectedDest) + Elements(dests[..i])
      {
        PrefixElements(dests, i);
        protectedDest := protectedDest + {dests[i]};
      }
      assert dests[..|dests|] == dests;
    }

    method AddPolicy(p: Policy)
      modifies this
      ensures accepts == old(accepts) + PolicyKeys(parse, clusterCIDRs, p)
      ensures protectedDest == old(protectedDest) + DestSet(parse, p)
      ensures Elements(skipped) == old(Elements(skipped)) + PolicySkips(parse, clusterCIDRs, p)
    {
      var dests := KeepIPv4(p.destinations, "dest");
      if |p.destinations| == 0 {
        dests := [""];
      } else if |dests| == 0 {
        assert DestSet(parse, p) == {};
        assert PolicyKeys(parse, clusterCIDRs, p) == {};
        return;
      }
      assert Elements(dests) == DestSet(parse, p);
      assert dests[0] in Elements(dests);
      Protect(dests);
      AddIngresses(p.ingress, dests);
    }

    method AddIngresses(ingress: seq<IngressRule>, dests: seq<string>)
      modifies this`accepts, this`skipped
      ensures accepts == old(accepts) + KeysOf(parse, clusterCIDRs, Elements(ingress), Elements(dests))
      ensures Elements(skipped) == old(Elements(skipped)) + SkipsOf(parse, clusterCIDRs, Elements(ingress))
    {
      for i := 0 to |ingress|
        invariant accepts == old(accepts) + KeysOf(parse, clusterCIDRs, Elements(ingress[..i]), Elements(dests))
        invariant Elements(skipped) == old(Elements(skipped)) + SkipsOf(parse, clusterCIDRs, Elements(ingress[..i]))
      {
        PrefixElements(ingress, i);
        AddIngress(ingress[i], dests);
        KeysAdd(parse, clusterCIDRs, Elements(ingress[..i]), ingress[i], Elements(dests));
      }
      assert ingress[..|ingress|] == ingress;
    }

    /** Emits the chain: conntrack fast path, sorted ACCEPTs, sorted DROPs. */
    method Emit() returns (rs: Ruleset)
      modifies this`skipped
      ensures rs.rules == InChain(Compiled(accepts, protectedDest))
      ensures rs.skipped == SortedTexts(old(Elements(skipped)))
    {
      LessAcceptTotal();
      LessDestTotal();
      var keys := SortedKeys(LessAccept, accepts);
      var acceptRules := AcceptRules(keys);
      var dests := SortedKeys(LessDest, protectedDest);
      var dropRules := DropRules(dests);
      InChainCompiled(AcceptVectors(keys), DropVectors(dests));
      StringLessWeak();
      var sorted := SortSlice(StringLess, skipped);
      PermutationElements(skipped, sorted);
      skipped := sorted;
      var unique := Dedupe(sorted);
      StrictlySortedUnique(StringLess, unique, SortedTexts(Elements(sorted)));
      rs := Ruleset([Rule(FW_CHAIN, ConntrackArgs())] + acceptRules + dropRules, unique);
    }
  }

  lemma KeysAdd(parse: Parser, cc: ClusterCIDRs, rules: set<IngressRule>, ing: IngressRule, dests: set<string>)
    ensures KeysOf(parse, cc, rules + {ing}, dests) == KeysOf(parse, cc, rules, dests) + IngressKeys(parse, cc, ing, dests)
    ensures SkipsOf(parse, cc, rules + {ing}) == SkipsOf(parse, cc, rules) + IngressSkips(parse, cc, ing)
  {
  }

  lemma CrossAddDest(srcs: set<string>, dests: set<string>, d: string, ports: seq<Port>)
    ensures CrossKeys(srcs, dests + {d}, ports) == CrossKeys(srcs, dests, ports) + CrossKeys(srcs, {d}, ports)
  {
  }

  lemma CrossAddSource(srcs: set<string>, s: string, d: string, ports: seq<Port>)
    ensures CrossKeys(srcs + {s}, {d}, ports) == CrossKeys(srcs, {d}, ports) + PortKeys(s, d, ports)
  {
  }

  lemma FilterAdd(parse: Parser, texts: set<string>, c: string, kind: string)
    ensures Kept(parse, texts + {c}) == Kept(parse, texts) + if c != "" && IsIPv4(parse, c) then {c} else {}
    ensures Rejected(parse, texts + {c}, kind)
         == Rejected(parse, texts, kind) + if c != "" && !IsIPv4(parse, c) then {kind + ":" + c} else {}
  {
  }

  lemma InChainCompiled(accepts: seq<Args>, drops: seq<Args>)
    ensures InChain([ConntrackArgs()] + accepts + drops) == [Rule(FW_CHAIN, ConntrackArgs())] + InChain(accepts) + InChain(drops)
  {
  }

  method AcceptRules(keys: seq<AcceptKey>) returns (rules: seq<Rule>)
    ensures rules == InChain(AcceptVectors(keys))
  {
    rules := [];
    for i := 0 to |keys|
      invariant |rules| == i && forall j :: 0 <= j < i ==> rules[j] == Rule(FW_CHAIN, AcceptArgs(keys[j]))
    {
      rules := rules + [Rule(FW_CHAIN, AcceptArgs(keys[i]))];
    }
  }

  method DropRules(dests: seq<string>) returns (rules: seq<Rule>)
    ensures rules == InChain(DropVectors(dests))
  {
    rules := [];
    for i := 0 to |dests|
      invariant |rules| == i && forall j :: 0 <= j < i ==> rules[j] == Rule(FW_CHAIN, DropArgs(dests[j]))
    {
      rules := rules + [Rule(FW_CHAIN, DropArgs(dests[i]))];
    }
  }

  lemma AppendStrict(out: seq<string>, x: string)
    requires StrictlySorted(StringLess, out) && out != [] && StringLess(out[|out| - 1], x)
    ensures StrictlySorted(StringLess, out + [x])
  {
    forall i | 0 <= i < |out| ensures StringLess(out[i], x) {
      if i < |out| - 1 {
        StringLessTriple(out[i], out[|out| - 1], x);
      }
    }
  }

  lemma NextIsGreater(list: seq<string>, i: nat)
    requires Sorted(StringLess, list) && 0 < i < |list| && list[i] != list[i - 1]
    ensures StringLess(list[i - 1], list[i])
  {
    StringLessTotal();
  }

  /** Drops repeats from a sorted list. */
  method Dedupe(list: seq<string>) returns (out: seq<string>)
    requires Sorted(StringLess, list)
    ensures StrictlySorted(StringLess, out) && Elements(out) == Elements(list)
  {
    if |list| == 0 {
      return [];
    }
    out := list[..1];
    for i := 1 to |list|
      invariant out != [] && out[|out| - 1] == list[i - 1]
      invariant StrictlySorted(StringLess, out) && Elements(out) == Elements(list[..i])
    {
      PrefixElements(list, i);
      ElementsAppend(out, [list[i]]);
      if list[i] != out[|out| - 1] {
        NextIsGreater(list, i);
        AppendStrict(out, list[i]);
        out := out + [list[i]];
      }
    }
    assert list[..|list|] == list;
  }

  /** Expands selectors into source CIDRs; an unknown cluster contributes none. */
  method ResolveSources(from: seq<PeerSelector>, cc: ClusterCIDRs) returns (out: seq<string>)
    ensures Elements(out) == Sources(from, cc)
  {
    out := [];
    for i := 0 to |from|
      invariant Elements(out) == Sources(from[..i], cc)
    {
      var sel := from[i];
      var resolved := ResolveSelector(sel, cc);
      ElementsAppend(out, resolved);
      out := out + resolved;
      assert from[..i + 1] == from[..i] + [sel];
    }
    assert from[..|from|] == from;
  }

  method ResolveSelector(sel: PeerSelector, cc: ClusterCIDRs) returns (out: seq<string>)
    ensures Elements(out) == SelectorSources(sel, cc)
  {
    out := [];
    for i := 0 to |sel.clusterIDs|
      invariant Elements(out) == ClusterSources(Elements(sel.clusterIDs[..i]), cc)
    {
      var id := sel.clusterIDs[i];
      PrefixElements(sel.clusterIDs, i);
      if id in cc {
        ElementsAppend(out, cc[id]);
        out := out + cc[id];
      }
    }
    assert sel.clusterIDs[..|sel.clusterIDs|] == sel.clusterIDs;
    ElementsAppend(out, sel.cidrs);
    out := out + sel.cidrs;
  }

  /** Compiles the policy set; the chain is exactly `CompiledChain`, whatever order maps are visited in. */
  method BuildFirewall(parse: Parser, policies: seq<Policy>, cc: ClusterCIDRs) returns (rs: Ruleset)
    ensures rs.rules == InChain(CompiledChain(parse, cc, policies))
    ensures rs.skipped == SortedTexts(AllSkips(parse, cc, policies))
  {
    var b := new FwBuilder(parse, cc);
    for i := 0 to |policies|
      invariant b.parse == parse && b.clusterCIDRs == cc
      invariant b.accepts == AllKeys(parse, cc, policies[..i])
      invariant b.protectedDest == AllDests(parse, policies[..i])
      invariant Elements(b.skipped) == AllSkips(parse, cc, policies[..i])
    {
      assert policies[..i + 1] == policies[..i] + [policies[i]];
      b.AddPolicy(policies[i]);
    }
    assert policies[..|policies|] == policies;
    rs := b.Emit();
  }

  lemma EffectiveExactly(parse: Parser, p: Policy)
    ensures DestSet(parse, p) != {} <==> Effective(parse, p)
  {
    if p.destinations != [] {
      if c :| c in p.destinations && c != "" && parse(c).Some? {
        assert c in Kept(parse, Elements(p.destinations));
      }
      if DestSet(parse, p) != {} {
        var c :| c in DestSet(parse, p);
        assert c in p.destinations;
      }
    } else {
      assert "" in DestSet(parse, p);
    }
  }

  lemma SourceSkipped(parse: Parser, cc: ClusterCIDRs, p: Policy, x: string)
    ensures x in SkipsOf(parse, cc, Elements(p.ingress)) <==> exists c :: BadSource(parse, cc, p, c) && x == "from:" + c
  {
    if x in SkipsOf(parse, cc, Elements(p.ingress)) {
      var ing :| ing in Elements(p.ingress) && x in IngressSkips(parse, cc, ing);
      var c :| c in Sources(ing.from, cc) && c != "" && !IsIPv4(parse, c) && x == "from" + ":" + c;
      var sel :| sel in ing.from && c in SelectorSources(sel, cc);
      assert "from" + ":" == "from:";
      assert BadSource(parse, cc, p, c);
    }
    if c :| BadSource(parse, cc, p, c) && x == "from:" + c {
      var ing, sel :| ing in p.ingress && sel in ing.from && (c in sel.cidrs || exists id :: id in sel.clusterIDs && id in cc && c in cc[id]);
      assert c in SelectorSources(sel, cc) && c in Sources(ing.from, cc);
      assert "from" + ":" == "from:";
      assert x in IngressSkips(parse, cc, ing) && ing in Elements(p.ingress);
    }
  }

  lemma DestinationSkipped(parse: Parser, p: Policy, x: string)
    ensures x in Rejected(parse, Elements(p.destinations), "dest") <==> exists c :: BadDestination(parse, p, c) && x == "dest:" + c
  {
    assert "dest" + ":" == "dest:";
    if x in Rejected(parse, Elements(p.destinations), "dest") {
      var c :| c in Elements(p.destinations) && c != "" && !IsIPv4(parse, c) && x == "dest" + ":" + c;
      assert BadDestination(parse, p, c);
    }
    if c :| BadDestination(parse, p, c) && x == "dest:" + c {
      assert c in Elements(p.destinations);
    }
  }

  /** What is reported as skipped: exactly the destination texts that are no IPv4 range, and, of policies that program
      something, the source texts that are none, each tagged with where it stood. */
  lemma SkippedExactly(parse: Parser, cc: ClusterCIDRs, policies: seq<Policy>, x: string)
    ensures x in AllSkips(parse, cc, policies) <==> exists p :: p in policies && Reported(parse, cc, p, x)
  {
    forall p: Policy ensures x in PolicySkips(parse, cc, p) <==> Reported(parse, cc, p, x) {
      EffectiveExactly(parse, p);
      SourceSkipped(parse, cc, p, x);
      DestinationSkipped(parse, p, x);
    }
  }

  /** The options and targets the planner prints are all among those given a meaning. */
  lemma PlannedIsModelled(keys: set<AcceptKey>, dests: set<string>, args: Args)
    requires args in Compiled(keys, dests)
    ensures Modelled(args)
  {
    if args != ConntrackArgs() {
      var accepts, drops := AcceptVectors(SortedAccepts(keys)), DropVectors(SortedDests(dests));
      assert args in accepts || args in drops;
      if args in accepts {
        var i :| 0 <= i < |accepts| && accepts[i] == args;
        AcceptIsModelled(SortedAccepts(keys)[i]);
      } else {
        var i :| 0 <= i < |drops| && drops[i] == args;
        TargetIsModelled("DROP");
        FlagIsModelled("-d", SortedDests(dests)[i], ["-j", "DROP"]);
      }
    } else {
      TargetIsModelled("ACCEPT");
      OptionIsModelled("--ctstate", "RELATED,ESTABLISHED", ["-j", "ACCEPT"]);
      OptionIsModelled("-m", "conntrack", ["--ctstate", "RELATED,ESTABLISHED"] + ["-j", "ACCEPT"]);
      assert args == ["-m", "conntrack"] + (["--ctstate", "RELATED,ESTABLISHED"] + ["-j", "ACCEPT"]);
    }
  }

  lemma TargetIsModelled(target: string)
    requires target == "ACCEPT" || target == "DROP"
    ensures Modelled(["-j", target])
  {
    assert ["-j", target][2..] == [];
  }

  lemma OptionIsModelled(flag: string, value: string, rest: Args)
    requires flag in {"-s", "-d", "-p", "--dport", "--ctstate", "-m"} && Modelled(rest)
    ensures Modelled([flag, value] + rest)
  {
    assert ([flag, value] + rest)[2..] == rest;
  }

  lemma FlagIsModelled(flag: string, value: string, rest: Args)
    requires (flag == "-s" || flag == "-d") && Modelled(rest)
    ensures Modelled(Flag(flag, value, rest))
  {
    OptionIsModelled(flag, value, rest);
  }

  lemma AcceptIsModelled(k: AcceptKey)
    ensures Modelled(AcceptArgs(k))
  {
    var accept := ["-j", "ACCEPT"];
    TargetIsModelled("ACCEPT");
    OptionIsModelled("--dport", k.port, accept);
    OptionIsModelled("-m", k.proto, ["--dport", k.port] + accept);
    OptionIsModelled("-p", k.proto, PortArgs(k.proto, k.port));
    var rest := if k.proto != "" then ["-p", k.proto] + PortArgs(k.proto, k.port) else accept;
    FlagIsModelled("-d", k.dst, rest);
    FlagIsModelled("-s", k.src, Flag("-d", k.dst, rest));
  }
}
