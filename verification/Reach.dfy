/** pkg/reach: expected reachability, read from the same compiled chain the data plane programs. */
module Reach {
  import opened Cidr
  import opened Order
  import opened Packets
  import opened FirewallPlan
  import opened FirewallInterpret

  datatype Status = Reachable | Blocked | Degraded | Unreachable

  datatype DestReach = DestReach(dest: string, allowed: bool)

  datatype Reachability = Reachability(cluster: string, status: Status, dests: seq<DestReach>)

  datatype Peer = Peer(clusterID: string, connected: bool, conflict: bool, cidrs: seq<string>)

  const ANY_V4 := "0.0.0.0/0"

  predicate AnySource(s: string) {
    s == "" || s == ANY_V4 || s == "::/0"
  }

  /** Some accept names one of the peer's ranges, or everyone, as a source for this destination. */
  predicate PeerAllowed(cidrs: seq<string>, accepts: seq<Access>, dest: string) {
    exists a :: a in accepts && (a.dest == "" || a.dest == dest) && (AnySource(a.source) || a.source in cidrs)
  }

  function DestLabel(d: string): string {
    if d == "" then "<all mesh ingress>" else d
  }

  /** Classifies one peer. */
  method ReachFor(p: Peer, accepts: seq<Access>, protected: seq<string>) returns (r: Reachability)
    ensures RowFor(p, accepts, protected, r)
  {
    if !p.connected {
      return Reachability(p.clusterID, Unreachable, []);
    }
    if p.conflict {
      return Reachability(p.clusterID, Degraded, []);
    }
    if |protected| == 0 {
      return Reachability(p.clusterID, Reachable, []);
    }
    var dests: seq<DestReach>, allowed := [], 0;
    for i := 0 to |protected|
      invariant |dests| == i && forall j :: 0 <= j < i ==>
        dests[j] == DestReach(DestLabel(protected[j]), PeerAllowed(p.cidrs, accepts, protected[j]))
      invariant 0 <= allowed <= i
      invariant allowed == 0 <==> forall j :: 0 <= j < i ==> !PeerAllowed(p.cidrs, accepts, protected[j])
    {
      var ok := PeerAllowed(p.cidrs, accepts, protected[i]);
      dests := dests + [DestReach(DestLabel(protected[i]), ok)];
      if ok {
        allowed := allowed + 1;
      }
    }
    r := Reachability(p.clusterID, if allowed == 0 then Blocked else Reachable, dests);
  }

  predicate LessCluster(a: Reachability, b: Reachability) {
    StringLess(a.cluster, b.cluster)
  }

  lemma LessClusterWeak()
    ensures WeakOrder(LessCluster)
  {
    StringLessTotal();
    TotalIsWeak(StringLess);
  }

  /** The matrix: one row per peer, sorted by cluster, over the deduplicated protected destinations. */
  method Plan(parse: Parser, peers: seq<Peer>, policies: seq<Policy>, cc: ClusterCIDRs)
      returns (rows: seq<Reachability>, protected: seq<string>, accepts: seq<Access>)
    ensures |rows| == |peers| && forall i, j :: 0 <= i < j < |rows| ==> !StringLess(rows[j].cluster, rows[i].cluster)
    ensures PlainParser(parse) ==> Elements(protected) == AllDests(parse, policies)
    ensures PlainParser(parse) && OrdinaryPolicies(parse, cc, policies) ==>
      accepts == KeyAccesses(SortedAccepts(AllKeys(parse, cc, policies)))
    ensures forall r :: r in rows ==> exists p :: p in peers && RowFor(p, accepts, protected, r)
    ensures forall p :: p in peers ==> exists r :: r in rows && RowFor(p, accepts, protected, r)
  {
    var rs := BuildFirewall(parse, policies, cc);
    var vectors := seq(|rs.rules|, i requires 0 <= i < |rs.rules| => rs.rules[i].args);
    assert vectors == CompiledChain(parse, cc, policies);
    var d := Interpret(vectors);
    if PlainParser(parse) {
      PolicyKeysAreBuilderKeys(parse, cc, policies);
      InterpretInvertsCompile(AllKeys(parse, cc, policies), AllDests(parse, policies));
    }
    accepts := d.accepts;
    StringLessWeak();
    protected := SortedKeys(StringLess, Elements(d.protected));
    rows := SortedRows(peers, accepts, protected);
  }

  method SortedRows(peers: seq<Peer>, accepts: seq<Access>, protected: seq<string>) returns (rows: seq<Reachability>)
    ensures |rows| == |peers| && Sorted(LessCluster, rows)
    ensures forall r :: r in rows ==> exists p :: p in peers && RowFor(p, accepts, protected, r)
    ensures forall p :: p in peers ==> exists r :: r in rows && RowFor(p, accepts, protected, r)
  {
    var out := Rows(peers, accepts, protected);
    LessClusterWeak();
    rows := SortSlice(LessCluster, out);
    PermutationElements(out, rows);
    assert |multiset(rows)| == |multiset(out)|;
    forall r | r in rows ensures exists p :: p in peers && RowFor(p, accepts, protected, r) {
      assert r in Elements(rows);
    }
    forall p | p in peers ensures exists r :: r in rows && RowFor(p, accepts, protected, r) {
      var r :| r in out && RowFor(p, accepts, protected, r);
      assert r in Elements(out);
    }
  }

  method Rows(peers: seq<Peer>, accepts: seq<Access>, protected: seq<string>) returns (out: seq<Reachability>)
    ensures |out| == |peers|
    ensures forall i :: 0 <= i < |peers| ==> RowFor(peers[i], accepts, protected, out[i])
    ensures forall r :: r in out ==> exists p :: p in peers && RowFor(p, accepts, protected, r)
    ensures forall p :: p in peers ==> exists r :: r in out && RowFor(p, accepts, protected, r)
  {
    out := [];
    for i := 0 to |peers|
      invariant |out| == i && forall j :: 0 <= j < i ==> RowFor(peers[j], accepts, protected, out[j])
    {
      var r := ReachFor(peers[i], accepts, protected);
      out := out + [r];
    }
    forall r | r in out ensures exists p :: p in peers && RowFor(p, accepts, protected, r) {
      var i :| 0 <= i < |out| && out[i] == r;
      assert RowFor(peers[i], accepts, protected, out[i]);
    }
    forall p | p in peers ensures exists r :: r in out && RowFor(p, accepts, protected, r) {
      var i :| 0 <= i < |peers| && peers[i] == p;
      assert RowFor(peers[i], accepts, protected, out[i]);
    }
  }

  predicate NoneAllowed(p: Peer, accepts: seq<Access>, protected: seq<string>) {
    forall d :: d in protected ==> !PeerAllowed(p.cidrs, accepts, d)
  }

  /** The row says of every protected destination whether the accepts name the peer for it. */
  predicate RowFor(p: Peer, accepts: seq<Access>, protected: seq<string>, r: Reachability) {
    && r.cluster == p.clusterID
    && (r.status == Unreachable <==> !p.connected)
    && (r.status == Degraded <==> p.connected && p.conflict)
    && (r.status == Blocked <==> p.connected && !p.conflict && protected != [] && NoneAllowed(p, accepts, protected))
    && (p.connected && !p.conflict ==> |r.dests| == |protected|)
    && forall i :: 0 <= i < |protected| && i < |r.dests| ==>
         && r.dests[i].dest == (if protected[i] == "" then "<all mesh ingress>" else protected[i])
         && r.dests[i].allowed == PeerAllowed(p.cidrs, accepts, protected[i])
  }

  ghost predicate OrdinaryPolicies(parse: Parser, cc: ClusterCIDRs, policies: seq<Policy>) {
    forall k :: k in AllKeys(parse, cc, policies) ==> OrdinaryProtocol(k)
  }

  /** The packets one (range, protocol, port) triple stands for; a blank protocol stands for all. */
  predicate InFlow(parse: Parser, src: string, dest: string, proto: string, port: string, pkt: Packet) {
    && Covers(parse, src, pkt.src)
    && (dest == "" || Covers(parse, dest, pkt.dst))
    && (proto == "" || (pkt.proto == proto && Text.Itoa(pkt.dport) == port))
  }

  ghost predicate FlowAccepted(parse: Parser, cc: ClusterCIDRs, policies: seq<Policy>, src: string, dest: string, proto: string, port: string) {
    forall pkt :: InFlow(parse, src, dest, proto, port, pkt) ==> Evaluate(parse, CompiledChain(parse, cc, policies), pkt) == Accept
  }

  /** A destination reported as allowed is reachable through the real chain: there is a source range (one of the peer's, or
      everywhere), a protocol and a port for which every packet is accepted, and a fresh packet of that kind exists. When
      the source is everywhere, the same protocol and port are accepted from every range of the peer. */
  lemma AllowedIsAccepted(parse: Parser, cc: ClusterCIDRs, policies: seq<Policy>, cidrs: seq<string>, dest: string)
      returns (src: string, proto: string, port: string, pkt: Packet)
    requires parse("::/0").None? && (dest == "" || parse(dest).Some?)
    requires PeerAllowed(cidrs, KeyAccesses(SortedAccepts(AllKeys(parse, cc, policies))), dest)
    ensures (src in cidrs || src == "0.0.0.0/0") && FlowAccepted(parse, cc, policies, src, dest, proto, port)
    ensures !pkt.established && InFlow(parse, src, dest, proto, port, pkt)
    ensures (src == "0.0.0.0/0" && parse(src) == Some(Everywhere()) ==>
               forall r :: r in cidrs ==> FlowAccepted(parse, cc, policies, r, dest, proto, port))
  {
    var k := AllowingKey(parse, cc, policies, cidrs, dest);
    src, proto, port := k.src, k.proto, k.port;
    KeyFlowAccepted(parse, cc, policies, k, dest);
    pkt := FlowPacket(parse, cc, policies, k, dest);
    if src == ANY_V4 && parse(ANY_V4) == Some(Everywhere()) {
      forall r | r in cidrs ensures FlowAccepted(parse, cc, policies, r, dest, proto, port) {
        FromEverywhere(parse, cc, policies, r, dest, proto, port);
      }
    }
  }

  /** A peer is reported as allowed to a destination if and only if an accept key of the policies names that destination, or
      none, and one of the peer's ranges or everywhere. */
  lemma AllowedExactly(parse: Parser, cc: ClusterCIDRs, policies: seq<Policy>, cidrs: seq<string>, dest: string)
    ensures PeerAllowed(cidrs, KeyAccesses(SortedAccepts(AllKeys(parse, cc, policies))), dest) <==>
      exists k :: k in AllKeys(parse, cc, policies) && k.src != "" && NamesPeer(k, cidrs, dest)
  {
    var ks := SortedAccepts(AllKeys(parse, cc, policies));
    AllowedByKey(cidrs, ks, dest);
    forall k ensures k in ks <==> k in AllKeys(parse, cc, policies) {
      assert k in Elements(ks) <==> k in ks;
    }
    forall k | k in AllKeys(parse, cc, policies) ensures k.src != "" {
      KeySourceParses(parse, cc, policies, k);
    }
  }

  predicate NamesPeer(k: AcceptKey, cidrs: seq<string>, dest: string) {
    (k.dst == "" || k.dst == dest) && (k.src in cidrs || k.src == "" || k.src == "0.0.0.0/0" || k.src == "::/0")
  }

  lemma AllowedByKey(cidrs: seq<string>, ks: seq<AcceptKey>, dest: string)
    ensures PeerAllowed(cidrs, KeyAccesses(ks), dest) <==> exists k :: k in ks && NamesPeer(k, cidrs, dest)
  {
    if a :| a in KeyAccesses(ks) && (a.dest == "" || a.dest == dest) && (AnySource(a.source) || a.source in cidrs) {
      var i :| 0 <= i < |ks| && KeyAccesses(ks)[i] == a;
      assert ks[i] in ks && NamesPeer(ks[i], cidrs, dest);
    }
    if k :| k in ks && NamesPeer(k, cidrs, dest) {
      var i :| 0 <= i < |ks| && ks[i] == k;
      assert KeyAccesses(ks)[i] in KeyAccesses(ks);
    }
  }

  /** The accept key behind a report of "allowed". */
  lemma AllowingKey(parse: Parser, cc: ClusterCIDRs, policies: seq<Policy>, cidrs: seq<string>, dest: string) returns (k: AcceptKey)
    requires parse("::/0").None? && PeerAllowed(cidrs, KeyAccesses(SortedAccepts(AllKeys(parse, cc, policies))), dest)
    ensures k in AllKeys(parse, cc, policies) && (k.dst == "" || k.dst == dest) && (k.src in cidrs || k.src == ANY_V4)
  {
    var ks := SortedAccepts(AllKeys(parse, cc, policies));
    var a :| a in KeyAccesses(ks) && (a.dest == "" || a.dest == dest) && (AnySource(a.source) || a.source in cidrs);
    var i :| 0 <= i < |ks| && KeyAccesses(ks)[i] == a;
    k := ks[i];
    assert k in Elements(ks);
    KeySourceParses(parse, cc, policies, k);
  }

  function Everywhere(): Block {
    WholeSpaceAligned();
    Prefix(0, 0)
  }

  /** Every packet an accept key describes towards a destination it names is accepted. */
  lemma KeyFlowAccepted(parse: Parser, cc: ClusterCIDRs, policies: seq<Policy>, k: AcceptKey, dest: string)
    requires k in AllKeys(parse, cc, policies) && (k.dst == "" || k.dst == dest)
    ensures FlowAccepted(parse, cc, policies, k.src, dest, k.proto, k.port)
  {
    forall pkt | InFlow(parse, k.src, dest, k.proto, k.port, pkt)
      ensures Evaluate(parse, CompiledChain(parse, cc, policies), pkt) == Accept
    {
      assert KeyMatches(parse, k, pkt);
      CompiledVerdict(parse, AllKeys(parse, cc, policies), AllDests(parse, policies), pkt);
    }
  }

  lemma FlowPacket(parse: Parser, cc: ClusterCIDRs, policies: seq<Policy>, k: AcceptKey, dest: string) returns (pkt: Packet)
    requires k in AllKeys(parse, cc, policies) && (dest == "" || parse(dest).Some?)
    ensures !pkt.established && InFlow(parse, k.src, dest, k.proto, k.port, pkt)
  {
    KeySourceParses(parse, cc, policies, k);
    var dport := KeyPort(parse, cc, policies, k);
    var src := BaseAddress(parse, k.src);
    var dst := 0;
    if dest != "" {
      dst := BaseAddress(parse, dest);
    }
    pkt := Packet("", src, dst, k.proto, dport, false);
  }

  lemma FromEverywhere(parse: Parser, cc: ClusterCIDRs, policies: seq<Policy>, range: string, dest: string, proto: string, port: string)
    requires parse(ANY_V4) == Some(Everywhere()) && FlowAccepted(parse, cc, policies, ANY_V4, dest, proto, port)
    ensures FlowAccepted(parse, cc, policies, range, dest, proto, port)
  {
    forall pkt | InFlow(parse, range, dest, proto, port, pkt)
      ensures Evaluate(parse, CompiledChain(parse, cc, policies), pkt) == Accept
    {
      ContainsIsRange(parse(range).value, pkt.src);
      ContainsIsRange(Everywhere(), pkt.src);
      Pow2Word();
      assert InFlow(parse, ANY_V4, dest, proto, port, pkt);
    }
  }

  lemma KeySourceParses(parse: Parser, cc: ClusterCIDRs, policies: seq<Policy>, k: AcceptKey)
    requires k in AllKeys(parse, cc, policies)
    ensures k.src != "" && parse(k.src).Some?
    ensures k.dst == "" || parse(k.dst).Some?
  {
    var p :| p in policies && k in PolicyKeys(parse, cc, p);
    var ing :| ing in Elements(p.ingress) && k in IngressKeys(parse, cc, ing, DestSet(parse, p));
    var d, s :| d in DestSet(parse, p) && s in Kept(parse, Sources(ing.from, cc)) && k in PortKeys(s, d, ing.ports);
  }

  /** When nothing is protected the chain drops nothing, so calling every peer open is sound. */
  lemma OpenIsNeverDropped(parse: Parser, cc: ClusterCIDRs, policies: seq<Policy>, pkt: Packet)
    requires AllDests(parse, policies) == {}
    ensures Evaluate(parse, CompiledChain(parse, cc, policies), pkt) != Drop
  {
    CompiledVerdict(parse, AllKeys(parse, cc, policies), AllDests(parse, policies), pkt);
  }

  // ---- When the chain really shuts a range out ------------------------------------------------------

  /** Every fresh packet from the range to the destination is dropped. */
  ghost predicate ShutOut(parse: Parser, cc: ClusterCIDRs, policies: seq<Policy>, range: string, dest: string) {
    forall pkt: Packet :: !pkt.established && Covers(parse, range, pkt.src) && DestMatches(parse, dest, pkt)
      ==> Evaluate(parse, CompiledChain(parse, cc, policies), pkt) == Drop
  }

  predicate TextsOverlap(parse: Parser, a: string, b: string) {
    parse(a).Some? && parse(b).Some? && Overlap(parse(a).value, parse(b).value)
  }

  /** The accept key shares a source with the range and a destination with `dest`. */
  predicate Touches(parse: Parser, k: AcceptKey, range: string, dest: string) {
    TextsOverlap(parse, k.src, range) && (k.dst == "" || dest == "" || TextsOverlap(parse, k.dst, dest))
  }

  /** A protected destination is closed to a range exactly when no accept key overlaps both. */
  lemma ShutOutExactly(parse: Parser, cc: ClusterCIDRs, policies: seq<Policy>, range: string, dest: string)
    requires parse(range).Some? && dest in AllDests(parse, policies)
    ensures ShutOut(parse, cc, policies, range, dest)
       <==> forall k :: k in AllKeys(parse, cc, policies) ==> !Touches(parse, k, range, dest)
  {
    var keys, dests := AllKeys(parse, cc, policies), AllDests(parse, policies);
    if k :| k in keys && Touches(parse, k, range, dest) {
      var pkt := TouchingPacket(parse, cc, policies, k, range, dest);
      CompiledVerdict(parse, keys, dests, pkt);
      assert !ShutOut(parse, cc, policies, range, dest);
    } else {
      forall pkt: Packet | !pkt.established && Covers(parse, range, pkt.src) && DestMatches(parse, dest, pkt)
        ensures Evaluate(parse, CompiledChain(parse, cc, policies), pkt) == Drop
      {
        forall k | k in keys ensures !KeyMatches(parse, k, pkt) {
          UntouchedMisses(parse, cc, policies, k, range, dest, pkt);
        }
        CompiledVerdict(parse, keys, dests, pkt);
      }
    }
  }

  /** No accept key touches any of the peer's ranges at the destination. */
  ghost predicate Untouched(parse: Parser, cc: ClusterCIDRs, policies: seq<Policy>, cidrs: seq<string>, dest: string) {
    forall r, k :: r in cidrs && k in AllKeys(parse, cc, policies) ==> !Touches(parse, k, r, dest)
  }

  /** A peer is shut out of a protected destination if and only if no accept key touches any of its ranges there. Such a
      peer is always reported as not allowed, so the report misses nobody and is true exactly of untouched peers. */
  lemma BlockedIsTrueExactly(parse: Parser, cc: ClusterCIDRs, policies: seq<Policy>, cidrs: seq<string>, dest: string)
    requires (forall r :: r in cidrs ==> parse(r).Some?) && cidrs != [] && dest in AllDests(parse, policies)
    requires parse("::/0").None? && parse(ANY_V4) == Some(Everywhere())
    ensures (forall r :: r in cidrs ==> ShutOut(parse, cc, policies, r, dest)) <==> Untouched(parse, cc, policies, cidrs, dest)
    ensures Untouched(parse, cc, policies, cidrs, dest) ==> !PeerAllowed(cidrs, KeyAccesses(SortedAccepts(AllKeys(parse, cc, policies))), dest)
  {
    forall r | r in cidrs
      ensures ShutOut(parse, cc, policies, r, dest) <==> forall k :: k in AllKeys(parse, cc, policies) ==> !Touches(parse, k, r, dest)
    {
      ShutOutExactly(parse, cc, policies, r, dest);
    }
    if PeerAllowed(cidrs, KeyAccesses(SortedAccepts(AllKeys(parse, cc, policies))), dest) {
      var r, k := AllowedTouches(parse, cc, policies, cidrs, dest);
    }
  }

  lemma AllowedTouches(parse: Parser, cc: ClusterCIDRs, policies: seq<Policy>, cidrs: seq<string>, dest: string) returns (r: string, k: AcceptKey)
    requires (forall r :: r in cidrs ==> parse(r).Some?) && cidrs != []
    requires parse("::/0").None? && parse(ANY_V4) == Some(Everywhere())
    requires PeerAllowed(cidrs, KeyAccesses(SortedAccepts(AllKeys(parse, cc, policies))), dest)
    ensures r in cidrs && k in AllKeys(parse, cc, policies) && Touches(parse, k, r, dest)
  {
    k := AllowingKey(parse, cc, policies, cidrs, dest);
    KeySourceParses(parse, cc, policies, k);
    if k.src in cidrs {
      r := k.src;
      OverlapsItself(parse(r).value);
    } else {
      r := cidrs[0];
      EverywhereOverlaps(parse(r).value);
    }
    if k.dst != "" {
      OverlapsItself(parse(k.dst).value);
    }
  }

  lemma OverlapsItself(b: Block)
    ensures Overlap(b, b)
  {
    ContainsIsRange(b, b.base);
  }

  lemma EverywhereOverlaps(b: Block)
    ensures Overlap(Everywhere(), b)
  {
    ContainsIsRange(Everywhere(), b.base);
    Pow2Word();
  }

  lemma UntouchedMisses(parse: Parser, cc: ClusterCIDRs, policies: seq<Policy>, k: AcceptKey, range: string, dest: string, pkt: Packet)
    requires k in AllKeys(parse, cc, policies) && !Touches(parse, k, range, dest)
    requires Covers(parse, range, pkt.src) && DestMatches(parse, dest, pkt)
    ensures !KeyMatches(parse, k, pkt)
  {
    KeySourceParses(parse, cc, policies, k);
    if KeyMatches(parse, k, pkt) {
      OverlapExact(parse(k.src).value, parse(range).value);
      if k.dst != "" && dest != "" {
        OverlapExact(parse(k.dst).value, parse(dest).value);
      }
      assert false;
    }
  }

  lemma TouchingPacket(parse: Parser, cc: ClusterCIDRs, policies: seq<Policy>, k: AcceptKey, range: string, dest: string)
      returns (pkt: Packet)
    requires k in AllKeys(parse, cc, policies) && dest in AllDests(parse, policies) && Touches(parse, k, range, dest)
    ensures !pkt.established && Covers(parse, range, pkt.src) && DestMatches(parse, dest, pkt)
    ensures KeyMatches(parse, k, pkt)
  {
    var dport := KeyPort(parse, cc, policies, k);
    KeySourceParses(parse, cc, policies, k);
    DestParses(parse, policies, dest);
    var src := SharedAddress(parse, k.src, range);
    var dst := 0;
    if k.dst != "" && dest != "" {
      dst := SharedAddress(parse, k.dst, dest);
    } else if k.dst != "" {
      dst := BaseAddress(parse, k.dst);
    } else if dest != "" {
      dst := BaseAddress(parse, dest);
    }
    pkt := Packet("", src, dst, k.proto, dport, false);
  }

  lemma SharedAddress(parse: Parser, a: string, b: string) returns (ip: nat)
    requires TextsOverlap(parse, a, b)
    ensures Covers(parse, a, ip) && Covers(parse, b, ip)
  {
    OverlapExact(parse(a).value, parse(b).value);
    var x: int :| Contains(parse(a).value, x) && Contains(parse(b).value, x);
    ContainsIsRange(parse(a).value, x);
    ip := x;
  }

  lemma BaseAddress(parse: Parser, a: string) returns (ip: nat)
    requires parse(a).Some?
    ensures Covers(parse, a, ip)
  {
    ip := parse(a).value.base;
    ContainsIsRange(parse(a).value, ip);
  }

  lemma DestParses(parse: Parser, policies: seq<Policy>, d: string)
    requires d in AllDests(parse, policies)
    ensures d == "" || parse(d).Some?
  {
    var p :| p in policies && d in DestSet(parse, p);
  }

  lemma KeyPort(parse: Parser, cc: ClusterCIDRs, policies: seq<Policy>, k: AcceptKey) returns (dport: int)
    requires k in AllKeys(parse, cc, policies)
    ensures k.proto == "" || k.port == Text.Itoa(dport)
  {
    var p :| p in policies && k in PolicyKeys(parse, cc, p);
    var ing :| ing in Elements(p.ingress) && k in IngressKeys(parse, cc, ing, DestSet(parse, p));
    var d, s :| d in DestSet(parse, p) && s in Kept(parse, Sources(ing.from, cc)) && k in PortKeys(s, d, ing.ports);
    dport := 0;
    if ing.ports != [] {
      var pt :| pt in ing.ports && k == AcceptKey(s, d, Text.NormalizeProto(pt.protocol), Text.Itoa(pt.port));
      dport := pt.port;
    }
  }

  // A peer inside an allowed supernet: the report says Blocked, the chain lets it in.

  ghost predicate Misreported(parse: Parser, policies: seq<Policy>, range: string, dest: string, pkt: Packet) {
    && Covers(parse, range, pkt.src) && Covers(parse, dest, pkt.dst)
    && !PeerAllowed([range], KeyAccesses(SortedAccepts(AllKeys(parse, map[], policies))), dest)
    && Evaluate(parse, CompiledChain(parse, map[], policies), pkt) == Accept
  }

  function OneRule(dest: string, source: string): seq<Policy> {
    [Policy("db", [dest], [IngressRule([PeerSelector([], [source])], [])])]
  }

  lemma OneRuleSource(parse: Parser, dest: string, source: string, a: Access)
    requires a in KeyAccesses(SortedAccepts(AllKeys(parse, map[], OneRule(dest, source))))
    ensures a.source == source
  {
    var ks := SortedAccepts(AllKeys(parse, map[], OneRule(dest, source)));
    var i :| 0 <= i < |ks| && KeyAccesses(ks)[i] == a;
    assert ks[i] in Elements(ks);
    OneRuleKey(parse, dest, source, ks[i]);
  }

  lemma OneRuleKey(parse: Parser, dest: string, source: string, k: AcceptKey)
    requires k in AllKeys(parse, map[], OneRule(dest, source))
    ensures k.src == source
  {
    var p := OneRule(dest, source)[0];
    assert k in PolicyKeys(parse, map[], p);
    var ing :| ing in Elements(p.ingress) && k in IngressKeys(parse, map[], ing, DestSet(parse, p));
    assert ing == p.ingress[0];
    var d, s :| d in DestSet(parse, p) && s in Kept(parse, Sources(ing.from, map[])) && k in PortKeys(s, d, ing.ports);
    var sel :| sel in ing.from && s in SelectorSources(sel, map[]);
  }

  lemma OneRuleAccepts(parse: Parser, dest: string, source: string, pkt: Packet)
    requires dest != "" && source != "" && Covers(parse, dest, pkt.dst) && Covers(parse, source, pkt.src)
    ensures Evaluate(parse, CompiledChain(parse, map[], OneRule(dest, source)), pkt) == Accept
  {
    var p := OneRule(dest, source)[0];
    var ing := p.ingress[0];
    var sel := ing.from[0];
    assert dest in p.destinations && Selects(parse, p, pkt.dst);
    assert source in sel.cidrs && Covered(parse, sel.cidrs, pkt.src);
    assert sel in ing.from && FromMatches(parse, map[], ing.from, pkt.src);
    assert ing in p.ingress && Allows(parse, map[], p, pkt);
    assert p in OneRule(dest, source);
    CompiledMeaning(parse, map[], OneRule(dest, source), pkt);
  }

  /** "Blocked" compares range texts: a peer inside an allowed supernet is reported as not allowed,
      yet the chain accepts its packets. */
  lemma SupernetReportedBlocked(parse: Parser, dest: string, super: string, sub: string, pkt: Packet)
    requires dest != "" && !AnySource(super) && super != sub
    requires Covers(parse, super, pkt.src) && Covers(parse, sub, pkt.src) && Covers(parse, dest, pkt.dst)
    ensures Misreported(parse, OneRule(dest, super), sub, dest, pkt)
  {
    forall a | a in KeyAccesses(SortedAccepts(AllKeys(parse, map[], OneRule(dest, super)))) ensures a.source == super {
      OneRuleSource(parse, dest, super, a);
    }
    OneRuleAccepts(parse, dest, super, pkt);
  }

  function SampleParse(c: string): Option<Block> {
    SampleSizes();
    if c == "1.0.0.0/8" then Some(Prefix(0x100_0000, 8))
    else if c == "1.0.0.0/16" then Some(Prefix(0x100_0000, 16))
    else None
  }

  lemma SampleCovers(ip: nat)
    requires 0x100_0000 <= ip < 0x101_0000
    ensures Covers(SampleParse, "1.0.0.0/8", ip) && Covers(SampleParse, "1.0.0.0/16", ip)
  {
    SampleSizes();
    ContainsIsRange(SampleParse("1.0.0.0/8").value, ip);
    ContainsIsRange(SampleParse("1.0.0.0/16").value, ip);
  }

  /** Such a peer exists: 1.0.0.0/16 inside 1.0.0.0/8. */
  lemma BlockedMayBeAccepted() returns (parse: Parser, policies: seq<Policy>, range: string, dest: string, pkt: Packet)
    ensures Misreported(parse, policies, range, dest, pkt)
  {
    pkt := Packet("", 0x100_0000, 0x100_0000, "tcp", 80, false);
    SampleCovers(pkt.src);
    parse, range, dest := SampleParse, "1.0.0.0/16", "1.0.0.0/16";
    policies := OneRule(dest, "1.0.0.0/8");
    SupernetReportedBlocked(SampleParse, dest, "1.0.0.0/8", range, pkt);
  }

  lemma SampleSizes()
    ensures Size(16) == 0x1_0000 && Size(8) == 0x100_0000
  {
    Pow2Word();
    Pow2Add(16, 16);
    Pow2Add(8, 8);
    Pow2Add(16, 8);
  }
}
