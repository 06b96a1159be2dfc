/** pkg/controllers/servicenat_controller.go: from imports, exports and liveness to the DNAT table. */
module ServiceNat {
  import opened Order
  import opened Text
  import opened NatPlan
  import opened NatManager
  import opened NatBalance

  datatype ServiceType = ClusterSetIP | Headless

  datatype ServiceImport = ServiceImport(namespace: string, name: string, kind: ServiceType, ports: seq<PortDNAT>, ips: seq<string>)

  datatype EndpointExport = EndpointExport(cluster: string, namespace: string, name: string, kind: ServiceType, ips: seq<string>)

  function Key(namespace: string, name: string): string {
    namespace + "/" + name
  }

  /** The export feeds the load balancer: right type, and its cluster is not marked down. */
  predicate Live(e: EndpointExport, down: set<string>) {
    e.kind == ClusterSetIP && e.cluster !in down
  }

  function BackendsFor(exports: seq<EndpointExport>, down: set<string>, key: string): seq<string> {
    Collect((e: EndpointExport) => if Live(e, down) && Key(e.namespace, e.name) == key then e.ips else [], exports)
  }

  function LowerPorts(ports: seq<PortDNAT>): (r: seq<PortDNAT>)
    ensures |r| == |ports| && forall i :: 0 <= i < |ports| ==> r[i] == PortDNAT(ToLower(ports[i].protocol), ports[i].port)
  {
    seq(|ports|, i requires 0 <= i < |ports| => PortDNAT(ToLower(ports[i].protocol), ports[i].port))
  }

  function ImportedService(exports: seq<EndpointExport>, down: set<string>, si: ServiceImport): seq<ServiceDNAT> {
    if si.kind != ClusterSetIP || si.ips == [] then []
    else
      var b := BackendsFor(exports, down, Key(si.namespace, si.name));
      if b == [] then [] else [ServiceDNAT(si.namespace, si.name, si.ips[0], LowerPorts(si.ports), b)]
  }

  /** Every ClusterSetIP import with an address and a live backend, in import order. */
  function ServicesFor(imports: seq<ServiceImport>, exports: seq<EndpointExport>, down: set<string>): seq<ServiceDNAT> {
    Collect((si: ServiceImport) => ImportedService(exports, down, si), imports)
  }

  method GroupBackends(exports: seq<EndpointExport>, down: set<string>) returns (backends: map<string, seq<string>>)
    ensures forall key :: (if key in backends then backends[key] else []) == BackendsFor(exports, down, key)
  {
    backends := map[];
    for i := 0 to |exports|
      invariant forall key :: (if key in backends then backends[key] else []) == BackendsFor(exports[..i], down, key)
    {
      var e := exports[i];
      forall key ensures BackendsFor(exports[..i + 1], down, key)
        == if Live(e, down) && Key(e.namespace, e.name) == key then BackendsFor(exports[..i], down, key) + e.ips else BackendsFor(exports[..i], down, key)
      {
        BackendsStep(exports, down, key, i);
      }
      if e.kind != ClusterSetIP {
        continue;
      }
      if e.cluster in down {
        continue;
      }
      var key := Key(e.namespace, e.name);
      backends := backends[key := (if key in backends then backends[key] else []) + e.ips];
    }
    assert exports[..|exports|] == exports;
  }

  lemma BackendsStep(exports: seq<EndpointExport>, down: set<string>, key: string, i: nat)
    requires i < |exports|
    ensures BackendsFor(exports[..i + 1], down, key)
         == if Live(exports[i], down) && Key(exports[i].namespace, exports[i].name) == key
            then BackendsFor(exports[..i], down, key) + exports[i].ips else BackendsFor(exports[..i], down, key)
  {
    CollectStep((e: EndpointExport) => if Live(e, down) && Key(e.namespace, e.name) == key then e.ips else [], exports, i);
  }

  method BuildServiceDNAT(imports: seq<ServiceImport>, exports: seq<EndpointExport>, down: set<string>) returns (out: seq<ServiceDNAT>)
    ensures out == ServicesFor(imports, exports, down)
  {
    var backends := GroupBackends(exports, down);
    out := [];
    for i := 0 to |imports|
      invariant out == ServicesFor(imports[..i], exports, down)
    {
      var si := imports[i];
      CollectStep((s: ServiceImport) => ImportedService(exports, down, s), imports, i);
      if si.kind != ClusterSetIP || |si.ips| == 0 {
        continue;
      }
      var key := Key(si.namespace, si.name);
      var b := if key in backends then backends[key] else [];
      if |b| == 0 {
        continue;
      }
      out := out + [ServiceDNAT(si.namespace, si.name, si.ips[0], LowerPorts(si.ports), b)];
    }
    assert imports[..|imports|] == imports;
  }

  // ---- Where the services' groups come from ---------------------------------------------------------------

  lemma BackendIsExported(exports: seq<EndpointExport>, down: set<string>, key: string, ip: string)
    requires ip in BackendsFor(exports, down, key)
    ensures exists e :: e in exports && Live(e, down) && Key(e.namespace, e.name) == key && ip in e.ips
  {
    CollectMember((e: EndpointExport) => if Live(e, down) && Key(e.namespace, e.name) == key then e.ips else [], exports, ip);
  }

  predicate Imports(si: ServiceImport, s: ServiceDNAT, exports: seq<EndpointExport>, down: set<string>) {
    && si.kind == ClusterSetIP && si.ips != [] && si.ips[0] == s.vip
    && si.namespace == s.namespace && si.name == s.name
    && s.backends == BackendsFor(exports, down, Key(si.namespace, si.name))
  }

  lemma ServiceIsImported(imports: seq<ServiceImport>, exports: seq<EndpointExport>, down: set<string>, s: ServiceDNAT)
    requires s in ServicesFor(imports, exports, down)
    ensures exists si :: si in imports && Imports(si, s, exports, down)
  {
    CollectMember((si: ServiceImport) => ImportedService(exports, down, si), imports, s);
  }

  lemma GroupIsServices(svcs: seq<ServiceDNAT>, g: Group)
    requires g in Groups(svcs)
    ensures exists s :: s in svcs && Programmed(s) && g in ServiceGroups(s)
  {
    CollectMember(ServiceGroups, svcs, g);
  }

  lemma ServiceGroupShape(s: ServiceDNAT, g: Group)
    requires g in ServiceGroups(s)
    ensures g.vip == s.vip && NoDup(g.backends) && Elements(g.backends) == NonBlank(Elements(s.backends))
  {
    StringLessTotal();
    StrictIsDistinct(StringLess, SortedStrings(NonBlank(Elements(s.backends))));
  }

  // ---- Distinct VIPs make distinct addresses -------------------------------------------------------------------

  ghost predicate DistinctVIPs(svcs: seq<ServiceDNAT>) {
    forall i, j :: 0 <= i < j < |svcs| && Programmed(svcs[i]) && Programmed(svcs[j]) ==> svcs[i].vip != svcs[j].vip
  }

  lemma PortsDistinct(s: ServiceDNAT)
    ensures DistinctAddresses(ServiceGroups(s))
  {
    if Programmed(s) {
      LessPortTotal();
      var ports := SortedPorts(NormalizedPorts(s.ports));
      StrictIsDistinct(LessPort, ports);
      var gs := ServiceGroups(s);
      forall i, j | 0 <= i < j < |gs| ensures (gs[i].vip, gs[i].proto, gs[i].port) != (gs[j].vip, gs[j].proto, gs[j].port) {
        NormalizedPort(s, ports[i]);
        NormalizedPort(s, ports[j]);
        if Itoa(ports[i].port) == Itoa(ports[j].port) {
          ItoaInjective(ports[i].port, ports[j].port);
        }
      }
    }
  }

  lemma NormalizedPort(s: ServiceDNAT, p: PortDNAT)
    requires p in SortedPorts(NormalizedPorts(s.ports))
    ensures NormalizeProto(p.protocol) == p.protocol
  {
    assert p in Elements(SortedPorts(NormalizedPorts(s.ports)));
    var q :| q in s.ports && p == PortDNAT(NormalizeProto(q.protocol), q.port);
    NormalizeIdempotent(q.protocol);
  }

  lemma DistinctConcat(a: seq<Group>, b: seq<Group>)
    requires DistinctAddresses(a) && DistinctAddresses(b)
    requires forall g, h :: g in a && h in b ==> g.vip != h.vip
    ensures DistinctAddresses(a + b)
  {
    var c := a + b;
    forall i, j | 0 <= i < j < |c| ensures (c[i].vip, c[i].proto, c[i].port) != (c[j].vip, c[j].proto, c[j].port) {
      if i < |a| <= j {
        assert c[i] in a && c[j] in b;
      }
    }
  }

  lemma {:induction false} GroupsDistinct(svcs: seq<ServiceDNAT>)
    requires DistinctVIPs(svcs)
    ensures DistinctAddresses(Groups(svcs))
  {
    if svcs != [] {
      var s, rest := svcs[0], svcs[1..];
      assert forall i :: 0 <= i < |rest| ==> rest[i] == svcs[i + 1];
      GroupsDistinct(rest);
      PortsDistinct(s);
      forall g, h | g in ServiceGroups(s) && h in Groups(rest) ensures g.vip != h.vip {
        ServiceGroupShape(s, g);
        GroupIsServices(rest, h);
        var r :| r in rest && Programmed(r) && h in ServiceGroups(r);
        ServiceGroupShape(r, h);
      }
      DistinctConcat(ServiceGroups(s), Groups(rest));
    }
  }

  lemma PairsDiffer(g: Group, h: Group)
    requires g.namespace != h.namespace || g.name != h.name || g.proto != h.proto || g.port != h.port
    ensures [g.namespace, g.name, g.proto, g.port] != [h.namespace, h.name, h.proto, h.port]
  {
    var x, y := [g.namespace, g.name, g.proto, g.port], [h.namespace, h.name, h.proto, h.port];
    assert x[0] == g.namespace && x[1] == g.name && x[2] == g.proto && x[3] == g.port;
    assert y[0] == h.namespace && y[1] == h.name && y[2] == h.proto && y[3] == h.port;
  }

  lemma OneVipPairs(gs: seq<Group>, vip: string)
    requires DistinctAddresses(gs) && forall g :: g in gs ==> g.vip == vip
    ensures DistinctPairs(gs)
  {
    forall i, j | 0 <= i < j < |gs|
      ensures [gs[i].namespace, gs[i].name, gs[i].proto, gs[i].port] != [gs[j].namespace, gs[j].name, gs[j].proto, gs[j].port]
    {
      assert gs[i] in gs && gs[j] in gs;
      PairsDiffer(gs[i], gs[j]);
    }
  }

  lemma ServicePairs(s: ServiceDNAT)
    ensures DistinctPairs(ServiceGroups(s)) && forall g :: g in ServiceGroups(s) ==> g.namespace == s.namespace && g.name == s.name
  {
    PortsDistinct(s);
    OneVipPairs(ServiceGroups(s), s.vip);
  }

  lemma PairsConcat(a: seq<Group>, b: seq<Group>)
    requires DistinctPairs(a) && DistinctPairs(b)
    requires forall g, h :: g in a && h in b ==> g.namespace != h.namespace || g.name != h.name
    ensures DistinctPairs(a + b)
  {
    var c := a + b;
    forall i, j | 0 <= i < j < |c|
      ensures [c[i].namespace, c[i].name, c[i].proto, c[i].port] != [c[j].namespace, c[j].name, c[j].proto, c[j].port]
    {
      if i < |a| <= j {
        assert c[i] in a && c[j] in b;
        PairsDiffer(c[i], c[j]);
      }
    }
  }

  /** Services of distinct names have distinct (service, port) pairs. */
  lemma {:induction false} NamesMakePairs(svcs: seq<ServiceDNAT>)
    requires DistinctNames(svcs)
    ensures DistinctPairs(Groups(svcs))
  {
    if svcs != [] {
      var s, rest := svcs[0], svcs[1..];
      assert forall i :: 0 <= i < |rest| ==> rest[i] == svcs[i + 1];
      NamesMakePairs(rest);
      ServicePairs(s);
      forall g, h | g in ServiceGroups(s) && h in Groups(rest) ensures g.namespace != h.namespace || g.name != h.name {
        GroupIsServices(rest, h);
        var r :| r in rest && Programmed(r) && h in ServiceGroups(r);
        ServicePairs(r);
      }
      PairsConcat(ServiceGroups(s), Groups(rest));
    }
  }

  // ---- The end-to-end statements ------------------------------------------------------------------------------

  /** `sorted` is the order in which the planner laid the services out. */
  ghost predicate LaidOut(sorted: seq<ServiceDNAT>, imports: seq<ServiceImport>, exports: seq<EndpointExport>, down: set<string>) {
    multiset(sorted) == multiset(ServicesFor(imports, exports, down))
  }

  predicate ServedBy(si: ServiceImport, e: EndpointExport, down: set<string>, vip: string, ip: string) {
    && si.kind == ClusterSetIP && si.ips != [] && si.ips[0] == vip
    && Live(e, down) && Key(e.namespace, e.name) == Key(si.namespace, si.name) && ip in e.ips
  }

  /** An export of the import's service by a cluster that is not marked down. */
  ghost predicate ExportedLive(imports: seq<ServiceImport>, exports: seq<EndpointExport>, down: set<string>, vip: string, ip: string) {
    exists si, e :: si in imports && e in exports && ServedBy(si, e, down, vip, ip)
  }

  /** A packet is rewritten with positive probability only to an address that a live cluster exported for
      the service owning the packet's destination, and the port is preserved. */
  lemma RewritesAreExported(t: NatTable, hash: Hash, sorted: seq<ServiceDNAT>,
      imports: seq<ServiceImport>, exports: seq<EndpointExport>, down: set<string>, pkt: NatPacket, dest: Dest, depth: nat)
    requires LaidOut(sorted, imports, exports, down) && DistinctVIPs(sorted)
    requires Realizes(t, hash, Groups(sorted)) && DistinctNames(sorted) && HashApart(hash, HashedKeys(Groups(sorted)))
    requires depth >= 2 && Walk(t, t[ROOT_CHAIN], pkt, dest, depth).rewritten > 0.0
    ensures dest.port == pkt.dport && ExportedLive(imports, exports, down, pkt.dst, dest.ip)
  {
    var groups := Groups(sorted);
    NamesMakePairs(sorted);
    ApartIsCollisionFree(hash, groups);
    if i :| 0 <= i < |groups| && ForGroup(groups[i], pkt) {
      var g := groups[i];
      GroupIsServices(sorted, g);
      var s :| s in sorted && Programmed(s) && g in ServiceGroups(s);
      ServiceGroupShape(s, g);
      GroupsDistinct(sorted);
      UniformAndConfined(t, hash, groups, i, pkt, dest, depth);
      assert g.backends[0..] == g.backends && dest.ip in Elements(g.backends);
      PermutationElements(sorted, ServicesFor(imports, exports, down));
      assert s in Elements(sorted);
      ServiceIsImported(imports, exports, down, s);
      var si :| si in imports && Imports(si, s, exports, down);
      BackendIsExported(exports, down, Key(si.namespace, si.name), dest.ip);
      var e :| e in exports && Live(e, down) && Key(e.namespace, e.name) == Key(si.namespace, si.name) && dest.ip in e.ips;
      assert ServedBy(si, e, down, pkt.dst, dest.ip);
    } else {
      OtherAddressesUntouched(t, hash, groups, pkt, dest, depth);
    }
  }

  /** Kubernetes names carry no slash, so equal keys are equal services. */
  lemma KeyInjective(ns1: string, n1: string, ns2: string, n2: string)
    requires Key(ns1, n1) == Key(ns2, n2) && '/' !in ns1 && '/' !in ns2
    ensures ns1 == ns2 && n1 == n2
  {
    SplitAtFirst(ns1, n1, ns2, n2, '/');
  }

  /** With slash-free namespaces the export is of the very service that owns the packet's destination. */
  lemma RewritesStayInService(t: NatTable, hash: Hash, sorted: seq<ServiceDNAT>,
      imports: seq<ServiceImport>, exports: seq<EndpointExport>, down: set<string>, pkt: NatPacket, dest: Dest, depth: nat)
    requires LaidOut(sorted, imports, exports, down) && DistinctVIPs(sorted)
    requires Realizes(t, hash, Groups(sorted)) && DistinctNames(sorted) && HashApart(hash, HashedKeys(Groups(sorted)))
    requires depth >= 2 && Walk(t, t[ROOT_CHAIN], pkt, dest, depth).rewritten > 0.0
    requires (forall si :: si in imports ==> '/' !in si.namespace) && (forall e :: e in exports ==> '/' !in e.namespace)
    ensures (exists si, e :: si in imports && e in exports && ServedBy(si, e, down, pkt.dst, dest.ip)
               && e.namespace == si.namespace && e.name == si.name)
  {
    RewritesAreExported(t, hash, sorted, imports, exports, down, pkt, dest, depth);
    var si, e :| si in imports && e in exports && ServedBy(si, e, down, pkt.dst, dest.ip);
    KeyInjective(e.namespace, e.name, si.namespace, si.name);
  }

  lemma SortedCount(texts: set<string>)
    ensures |SortedStrings(texts)| == |texts|
  {
    StringLessTotal();
    var s := SortedStrings(texts);
    StrictIsDistinct(StringLess, s);
    DistinctCount(s);
  }

  /** Each of the n distinct backends of a service receives exactly 1/n of the connections to each of its ports. */
  lemma ServiceIsBalanced(t: NatTable, hash: Hash, sorted: seq<ServiceDNAT>, s: ServiceDNAT, pt: PortDNAT, pkt: NatPacket, dest: Dest, depth: nat)
    requires depth >= 2 && s in sorted && Programmed(s) && pt in s.ports && DistinctVIPs(sorted)
    requires Realizes(t, hash, Groups(sorted)) && DistinctNames(sorted) && HashApart(hash, HashedKeys(Groups(sorted)))
    requires pkt.dst == s.vip && Names(pt.protocol, pkt.proto) && pkt.dport == Itoa(pt.port) && NonBlank(Elements(s.backends)) != {}
    ensures Walk(t, t[ROOT_CHAIN], pkt, dest, depth)
         == Outcome(if dest.port == pkt.dport && dest.ip in NonBlank(Elements(s.backends)) then 1.0 / |NonBlank(Elements(s.backends))| as real else 0.0, 0.0)
  {
    var groups, backends := Groups(sorted), NonBlank(Elements(s.backends));
    var g := PortGroupOf(s, pt, pkt.proto);
    CollectMember(ServiceGroups, sorted, g);
    var i :| 0 <= i < |groups| && groups[i] == g;
    ServiceGroupShape(s, g);
    SortedCount(backends);
    GroupsDistinct(sorted);
    NamesMakePairs(sorted);
    ApartIsCollisionFree(hash, groups);
    assert g.backends[0..] == g.backends && (dest.ip in g.backends <==> dest.ip in Elements(g.backends));
    UniformAndConfined(t, hash, groups, i, pkt, dest, depth);
    EvenIsOneOver(|backends|);
  }

  /** The group of one of a service's ports. */
  lemma PortGroupOf(s: ServiceDNAT, pt: PortDNAT, proto: string) returns (g: Group)
    requires Programmed(s) && pt in s.ports && Names(pt.protocol, proto)
    ensures g in ServiceGroups(s) && g.vip == s.vip && g.proto == proto && g.port == Itoa(pt.port)
    ensures g.backends == SortedStrings(NonBlank(Elements(s.backends)))
  {
    NormalizeExactly(pt.protocol, proto);
    var p := PortDNAT(proto, pt.port);
    var ports := SortedPorts(NormalizedPorts(s.ports));
    assert p in Elements(ports);
    var k :| 0 <= k < |ports| && ports[k] == p;
    NormalizedPort(s, p);
    g := ServiceGroups(s)[k];
  }

  // ---- From an import to its backends -----------------------------------------------------------------------------

  /** The addresses the live clusters export for the import's service. */
  function LiveIPs(exports: seq<EndpointExport>, down: set<string>, si: ServiceImport): set<string> {
    set e, ip | e in exports && e.kind == ClusterSetIP && e.cluster !in down && e.namespace + "/" + e.name == si.namespace + "/" + si.name
      && ip in e.ips && ip != "" :: ip
  }

  lemma BackendsAreLive(exports: seq<EndpointExport>, down: set<string>, si: ServiceImport)
    ensures NonBlank(Elements(BackendsFor(exports, down, Key(si.namespace, si.name)))) == LiveIPs(exports, down, si)
  {
    var key := Key(si.namespace, si.name);
    forall ip ensures ip in BackendsFor(exports, down, key) <==> exists e :: e in exports && Live(e, down) && Key(e.namespace, e.name) == key && ip in e.ips {
      CollectMember((e: EndpointExport) => if Live(e, down) && Key(e.namespace, e.name) == key then e.ips else [], exports, ip);
    }
    forall ip ensures ip in NonBlank(Elements(BackendsFor(exports, down, key))) <==> ip in LiveIPs(exports, down, si) {
      assert ip in Elements(BackendsFor(exports, down, key)) <==> ip in BackendsFor(exports, down, key);
    }
  }

  /** Every port of every ClusterSetIP import with an address is served by the live exports of its service: each of their
      n distinct addresses gets exactly 1/n of the connections, on the same port. */
  lemma ImportIsServed(t: NatTable, hash: Hash, sorted: seq<ServiceDNAT>, imports: seq<ServiceImport>, exports: seq<EndpointExport>,
      down: set<string>, si: ServiceImport, pt: PortDNAT, pkt: NatPacket, dest: Dest, depth: nat)
    requires depth >= 2 && LaidOut(sorted, imports, exports, down) && DistinctVIPs(sorted)
    requires Realizes(t, hash, Groups(sorted)) && DistinctNames(sorted) && HashApart(hash, HashedKeys(Groups(sorted)))
    requires si in imports && si.kind == ClusterSetIP && si.ips != [] && si.ips[0] != "" && pt in si.ports
    requires pkt.dst == si.ips[0] && Names(pt.protocol, pkt.proto) && pkt.dport == Itoa(pt.port) && LiveIPs(exports, down, si) != {}
    ensures var live := LiveIPs(exports, down, si);
      Walk(t, t[ROOT_CHAIN], pkt, dest, depth) == Outcome(if dest.port == pkt.dport && dest.ip in live then 1.0 / |live| as real else 0.0, 0.0)
  {
    BackendsAreLive(exports, down, si);
    var s := ServiceDNAT(si.namespace, si.name, si.ips[0], LowerPorts(si.ports), BackendsFor(exports, down, Key(si.namespace, si.name)));
    assert NonBlank(Elements(s.backends)) == LiveIPs(exports, down, si);
    CollectMember((x: ServiceImport) => ImportedService(exports, down, x), imports, s);
    PermutationElements(sorted, ServicesFor(imports, exports, down));
    assert s in Elements(sorted);
    var k :| 0 <= k < |si.ports| && si.ports[k] == pt;
    var low := LowerPorts(si.ports)[k];
    NormalizeExactly(pt.protocol, pkt.proto);
    LowerNamesSame(pt.protocol);
    NormalizeExactly(low.protocol, pkt.proto);
    ServiceIsBalanced(t, hash, sorted, s, low, pkt, dest, depth);
  }
}
