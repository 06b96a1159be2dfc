/** pkg/dns/naming.go: one ServiceImport out of every cluster's export, oldest export first (section "Constraints and
    Conflict Resolution" of KEP-1645). */
module Import {
  import opened Order
  import opened Text

  datatype ServicePort = ServicePort(name: string, port: int, protocol: string)

  datatype ImportType = ClusterSetIP | Headless

  datatype Export = Export(cluster: string, kind: ImportType, ports: seq<ServicePort>, ips: seq<string>, time: int)

  datatype Conflict =
    | TypeConflict(cluster: string, got: ImportType, resolved: ImportType)
    | PortConflict(cluster: string, key: PortKey, name: string, existing: string)

  datatype PortKey = PortKey(port: int, protocol: string)

  datatype ImportPlan = ImportPlan(exists_: bool, kind: ImportType, ports: seq<ServicePort>, ips: seq<string>,
    clusters: seq<string>, conflicts: seq<Conflict>)

  function ProtocolOf(p: ServicePort): string {
    if TrimSpace(p.protocol) == "" then "TCP" else p.protocol
  }

  function KeyOf(p: ServicePort): PortKey {
    PortKey(p.port, ProtocolOf(p))
  }

  function Normalize(p: ServicePort): ServicePort {
    p.(protocol := ProtocolOf(p))
  }

  lemma NormalizeKeepsKey(p: ServicePort)
    ensures KeyOf(Normalize(p)) == KeyOf(p)
  {
    assert !IsSpace("TCP"[0]);
  }

  predicate Older(a: Export, b: Export) {
    if a.time != b.time then a.time < b.time else StringLess(a.cluster, b.cluster)
  }

  predicate LessKey(a: PortKey, b: PortKey) {
    if a.port != b.port then a.port < b.port else StringLess(a.protocol, b.protocol)
  }

  predicate LessPort(a: ServicePort, b: ServicePort) {
    LessKey(KeyOf(a), KeyOf(b))
  }

  lemma OlderWeak()
    ensures WeakOrder(Older)
  {
    StringLessTotal();
    TotalIsWeak(StringLess);
  }

  lemma LessKeyTotal()
    ensures StrictTotal(LessKey)
  {
    StringLessTotal();
  }

  lemma LessPortWeak()
    ensures WeakOrder(LessPort)
  {
    LessKeyTotal();
    TotalIsWeak(LessKey);
  }

  // ---- What the plan should be ---------------------------------------------------------------------------------------------

  function Contributing(kind: ImportType, sorted: seq<Export>): seq<Export> {
    Collect((e: Export) => if e.kind == kind then [e] else [], sorted)
  }

  function AllPorts(kind: ImportType, sorted: seq<Export>): seq<ServicePort> {
    Collect((e: Export) => if e.kind == kind then e.ports else [], sorted)
  }

  function ContributingClusters(kind: ImportType, sorted: seq<Export>): seq<string> {
    Collect((e: Export) => if e.kind == kind then [e.cluster] else [], sorted)
  }

  function AllIPs(kind: ImportType, sorted: seq<Export>): seq<string> {
    Collect((e: Export) => if e.kind == kind then e.ips else [], sorted)
  }

  type PortTable = map<PortKey, ServicePort>

  /** The first port of each number and protocol. */
  function Resolved(ports: seq<ServicePort>): PortTable {
    if ports == [] then map[]
    else
      var n := |ports| - 1;
      var before := Resolved(ports[..n]);
      if KeyOf(ports[n]) in before then before else before[KeyOf(ports[n]) := Normalize(ports[n])]
  }

  predicate Disagrees(table: PortTable, p: ServicePort) {
    KeyOf(p) in table && table[KeyOf(p)].name != p.name
  }

  function PortConflicts(table: PortTable, cluster: string, ports: seq<ServicePort>): seq<Conflict> {
    Collect((p: ServicePort) => if Disagrees(table, p) then [PortConflict(cluster, KeyOf(p), p.name, table[KeyOf(p)].name)] else [], ports)
  }

  function ConflictsOf(table: PortTable, kind: ImportType, e: Export): seq<Conflict> {
    if e.kind != kind then [TypeConflict(e.cluster, e.kind, kind)] else PortConflicts(table, e.cluster, e.ports)
  }

  function AllConflicts(table: PortTable, kind: ImportType, sorted: seq<Export>): seq<Conflict> {
    Collect((e: Export) => ConflictsOf(table, kind, e), sorted)
  }

  /** The plan of exports listed oldest first, field by field. */
  ghost predicate PlanFor(sorted: seq<Export>, plan: ImportPlan) {
    if sorted == [] then plan == ImportPlan(false, ClusterSetIP, [], [], [], [])
    else
      var kind := sorted[0].kind;
      var table := Resolved(AllPorts(kind, sorted));
      && plan.exists_ && plan.kind == kind
      && plan.clusters == ContributingClusters(kind, sorted)
      && plan.conflicts == AllConflicts(table, kind, sorted)
      && StrictlySorted(LessPort, plan.ports) && Elements(plan.ports) == table.Values
      && StrictlySorted(StringLess, plan.ips) && Elements(plan.ips) == Elements(AllIPs(kind, sorted))
  }

  // ---- The port table ---------------------------------------------------------------------------------------------------------

  lemma {:induction false} ResolvedKeys(ports: seq<ServicePort>)
    ensures forall k :: k in Resolved(ports) <==> exists p :: p in ports && KeyOf(p) == k
    ensures forall k :: k in Resolved(ports) ==> KeyOf(Resolved(ports)[k]) == k
  {
    if ports != [] {
      var n := |ports| - 1;
      ResolvedKeys(ports[..n]);
      NormalizeKeepsKey(ports[n]);
      assert ports == ports[..n] + [ports[n]];
    }
  }

  /** Later ports never change an entry. */
  lemma {:induction false} ResolvedGrows(ports: seq<ServicePort>, more: seq<ServicePort>)
    ensures forall k :: k in Resolved(ports) ==> k in Resolved(ports + more) && Resolved(ports + more)[k] == Resolved(ports)[k]
    decreases |more|
  {
    if more == [] {
      assert ports + more == ports;
    } else {
      var n := |more| - 1;
      ResolvedGrows(ports, more[..n]);
      assert (ports + more)[..|ports + more| - 1] == ports + more[..n];
    }
  }

  lemma NotYet(ports: seq<ServicePort>, k: PortKey)
    requires forall j :: 0 <= j < |ports| ==> KeyOf(ports[j]) != k
    ensures k !in Resolved(ports)
  {
    ResolvedKeys(ports);
  }

  /** The entry of a key is the first port listed with it, with its name. */
  lemma FirstStays(before: seq<ServicePort>, p: ServicePort, after: seq<ServicePort>)
    requires forall j :: 0 <= j < |before| ==> KeyOf(before[j]) != KeyOf(p)
    ensures KeyOf(p) in Resolved(before + [p] + after) && Resolved(before + [p] + after)[KeyOf(p)] == Normalize(p)
  {
    NotYet(before, KeyOf(p));
    assert (before + [p])[..|before|] == before;
    assert KeyOf(p) in Resolved(before + [p]);
    ResolvedGrows(before + [p], after);
  }

  // ---- Merging ------------------------------------------------------------------------------------------------------------------

  lemma ResolvedStep(before: seq<ServicePort>, ports: seq<ServicePort>, i: nat)
    requires i < |ports|
    ensures var now, p := Resolved(before + ports[..i]), ports[i];
      Resolved(before + ports[..i + 1]) == if KeyOf(p) in now then now else now[KeyOf(p) := Normalize(p)]
  {
    assert (before + ports[..i + 1])[..|before| + i] == before + ports[..i];
  }

  /** Conflicts found against a table stay what they are as the table grows, because its entries stay. */
  lemma {:induction false} ConflictsStay(cluster: string, table: PortTable, larger: PortTable, ports: seq<ServicePort>)
    requires forall k :: k in table ==> k in larger && larger[k] == table[k]
    requires forall p :: p in ports ==> KeyOf(p) in table
    ensures PortConflicts(larger, cluster, ports) == PortConflicts(table, cluster, ports)
  {
    if ports != [] {
      ConflictsStay(cluster, table, larger, ports[1..]);
    }
  }

  lemma KnownPorts(before: seq<ServicePort>, ports: seq<ServicePort>)
    ensures forall p :: p in ports ==> KeyOf(p) in Resolved(before + ports)
  {
    ResolvedKeys(before + ports);
    forall p | p in ports ensures KeyOf(p) in Resolved(before + ports) {
      assert p in before + ports;
    }
  }

  /** One more port: its conflict is judged against the table before it, which is as good as the table after it. */
  lemma PortStep(cluster: string, before: seq<ServicePort>, ports: seq<ServicePort>, i: nat)
    requires i < |ports|
    ensures var now, next, p := Resolved(before + ports[..i]), Resolved(before + ports[..i + 1]), ports[i];
      && (PortConflicts(next, cluster, ports[..i + 1]) ==
            PortConflicts(now, cluster, ports[..i]) + if Disagrees(now, p) then [PortConflict(cluster, KeyOf(p), p.name, now[KeyOf(p)].name)] else [])
  {
    var now, next, p := Resolved(before + ports[..i]), Resolved(before + ports[..i + 1]), ports[i];
    ResolvedStep(before, ports, i);
    KnownPorts(before, ports[..i]);
    ConflictsStay(cluster, now, next, ports[..i]);
    CollectStep((p: ServicePort) => if Disagrees(next, p) then [PortConflict(cluster, KeyOf(p), p.name, next[KeyOf(p)].name)] else [], ports, i);
    assert Disagrees(next, p) <==> Disagrees(now, p);
  }

  /** The table lists its keys in order of arrival. */
  ghost predicate Listed(table: PortTable, keys: seq<PortKey>) {
    NoDup(keys) && Elements(keys) == table.Keys
  }

  lemma ListedStep(table: PortTable, keys: seq<PortKey>, key: PortKey, port: ServicePort)
    requires Listed(table, keys) && key !in table
    ensures Listed(table[key := port], keys + [key])
  {
    assert key !in Elements(keys);
    ElementsAppend(keys, [key]);
  }

  /** What merging has made of the ports so far. */
  ghost predicate Merged(cluster: string, before: seq<ServicePort>, ports: seq<ServicePort>, table: PortTable, keys: seq<PortKey>,
      found: seq<Conflict>, conflicts: seq<Conflict>) {
    && table == Resolved(before + ports) && Listed(table, keys)
    && conflicts == found + PortConflicts(table, cluster, ports)
  }

  lemma MergedOld(cluster: string, before: seq<ServicePort>, ports: seq<ServicePort>, i: nat, table: PortTable, keys: seq<PortKey>,
      found: seq<Conflict>, conflicts: seq<Conflict>)
    requires i < |ports| && Merged(cluster, before, ports[..i], table, keys, found, conflicts) && KeyOf(ports[i]) in table
    ensures !Disagrees(table, ports[i]) ==> Merged(cluster, before, ports[..i + 1], table, keys, found, conflicts)
    ensures (Disagrees(table, ports[i]) ==> Merged(cluster, before, ports[..i + 1], table, keys, found,
               conflicts + [PortConflict(cluster, KeyOf(ports[i]), ports[i].name, table[KeyOf(ports[i])].name)]))
  {
    ResolvedStep(before, ports, i);
    PortStep(cluster, before, ports, i);
  }

  lemma MergedNew(cluster: string, before: seq<ServicePort>, ports: seq<ServicePort>, i: nat, table: PortTable, keys: seq<PortKey>,
      found: seq<Conflict>, conflicts: seq<Conflict>)
    requires i < |ports| && Merged(cluster, before, ports[..i], table, keys, found, conflicts) && KeyOf(ports[i]) !in table
    ensures (Merged(cluster, before, ports[..i + 1], table[KeyOf(ports[i]) := Normalize(ports[i])], keys + [KeyOf(ports[i])], found, conflicts))
  {
    ResolvedStep(before, ports, i);
    PortStep(cluster, before, ports, i);
    ListedStep(table, keys, KeyOf(ports[i]), Normalize(ports[i]));
  }

  method MergePorts(e: Export, table: PortTable, keys: seq<PortKey>, conflicts: seq<Conflict>, ghost before: seq<ServicePort>)
      returns (table': PortTable, keys': seq<PortKey>, conflicts': seq<Conflict>)
    requires table == Resolved(before) && Listed(table, keys)
    ensures Merged(e.cluster, before, e.ports, table', keys', conflicts, conflicts')
  {
    table', keys', conflicts' := table, keys, conflicts;
    assert before + e.ports[..0] == before;
    for i := 0 to |e.ports|
      invariant Merged(e.cluster, before, e.ports[..i], table', keys', conflicts, conflicts')
    {
      var port := e.ports[i];
      var key := KeyOf(port);
      if key in table' {
        MergedOld(e.cluster, before, e.ports, i, table', keys', conflicts, conflicts');
        if table'[key].name != port.name {
          conflicts' := conflicts' + [PortConflict(e.cluster, key, port.name, table'[key].name)];
        }
        continue;
      }
      MergedNew(e.cluster, before, e.ports, i, table', keys', conflicts, conflicts');
      table' := table'[key := Normalize(port)];
      keys' := keys' + [key];
    }
    assert e.ports[..|e.ports|] == e.ports;
  }

  // ---- The planner ----------------------------------------------------------------------------------------------------------------

  /** What the main loop has built from the exports seen so far. */
  ghost predicate Built(kind: ImportType, seen: seq<Export>, table: PortTable, clusters: seq<string>, conflicts: seq<Conflict>, ips: set<string>) {
    && table == Resolved(AllPorts(kind, seen)) && clusters == ContributingClusters(kind, seen)
    && conflicts == AllConflicts(table, kind, seen) && ips == Elements(AllIPs(kind, seen))
  }

  lemma {:induction false} EarlierConflictsStay(kind: ImportType, table: PortTable, larger: PortTable, seen: seq<Export>)
    requires forall k :: k in table ==> k in larger && larger[k] == table[k]
    requires forall e, p :: e in seen && e.kind == kind && p in e.ports ==> KeyOf(p) in table
    ensures AllConflicts(larger, kind, seen) == AllConflicts(table, kind, seen)
  {
    if seen != [] {
      EarlierConflictsStay(kind, table, larger, seen[1..]);
      assert seen[0] in seen;
      if seen[0].kind == kind {
        ConflictsStay(seen[0].cluster, table, larger, seen[0].ports);
      }
    }
  }

  lemma SeenPortsKnown(kind: ImportType, seen: seq<Export>)
    ensures forall e, p :: e in seen && e.kind == kind && p in e.ports ==> KeyOf(p) in Resolved(AllPorts(kind, seen))
  {
    ResolvedKeys(AllPorts(kind, seen));
    forall e, p | e in seen && e.kind == kind && p in e.ports ensures KeyOf(p) in Resolved(AllPorts(kind, seen)) {
      CollectMember((e: Export) => if e.kind == kind then e.ports else [], seen, p);
    }
  }

  lemma StepDropped(kind: ImportType, sorted: seq<Export>, i: nat, table: PortTable)
    requires i < |sorted| && sorted[i].kind != kind
    ensures AllPorts(kind, sorted[..i + 1]) == AllPorts(kind, sorted[..i])
    ensures ContributingClusters(kind, sorted[..i + 1]) == ContributingClusters(kind, sorted[..i])
    ensures AllIPs(kind, sorted[..i + 1]) == AllIPs(kind, sorted[..i])
    ensures AllConflicts(table, kind, sorted[..i + 1]) == AllConflicts(table, kind, sorted[..i]) + [TypeConflict(sorted[i].cluster, sorted[i].kind, kind)]
  {
    CollectStep((e: Export) => if e.kind == kind then e.ports else [], sorted, i);
    CollectStep((e: Export) => if e.kind == kind then [e.cluster] else [], sorted, i);
    CollectStep((e: Export) => if e.kind == kind then e.ips else [], sorted, i);
    CollectStep((e: Export) => ConflictsOf(table, kind, e), sorted, i);
  }

  lemma StepMerged(kind: ImportType, sorted: seq<Export>, i: nat, table: PortTable)
    requires i < |sorted| && sorted[i].kind == kind
    ensures AllPorts(kind, sorted[..i + 1]) == AllPorts(kind, sorted[..i]) + sorted[i].ports
    ensures ContributingClusters(kind, sorted[..i + 1]) == ContributingClusters(kind, sorted[..i]) + [sorted[i].cluster]
    ensures AllIPs(kind, sorted[..i + 1]) == AllIPs(kind, sorted[..i]) + sorted[i].ips
    ensures AllConflicts(table, kind, sorted[..i + 1]) == AllConflicts(table, kind, sorted[..i]) + PortConflicts(table, sorted[i].cluster, sorted[i].ports)
  {
    CollectStep((e: Export) => if e.kind == kind then e.ports else [], sorted, i);
    CollectStep((e: Export) => if e.kind == kind then [e.cluster] else [], sorted, i);
    CollectStep((e: Export) => if e.kind == kind then e.ips else [], sorted, i);
    CollectStep((e: Export) => ConflictsOf(table, kind, e), sorted, i);
  }

  lemma BuiltDropped(kind: ImportType, sorted: seq<Export>, i: nat, table: PortTable, clusters: seq<string>, conflicts: seq<Conflict>, ips: set<string>)
    requires i < |sorted| && sorted[i].kind != kind && Built(kind, sorted[..i], table, clusters, conflicts, ips)
    ensures Built(kind, sorted[..i + 1], table, clusters, conflicts + [TypeConflict(sorted[i].cluster, sorted[i].kind, kind)], ips)
  {
    StepDropped(kind, sorted, i, table);
  }

  lemma BuiltMerged(kind: ImportType, sorted: seq<Export>, i: nat, table: PortTable, clusters: seq<string>, conflicts: seq<Conflict>, ips: set<string>,
      table': PortTable)
    requires i < |sorted| && sorted[i].kind == kind && Built(kind, sorted[..i], table, clusters, conflicts, ips)
    requires table' == Resolved(AllPorts(kind, sorted[..i]) + sorted[i].ports)
    ensures Built(kind, sorted[..i + 1], table', clusters + [sorted[i].cluster],
      conflicts + PortConflicts(table', sorted[i].cluster, sorted[i].ports), ips + Elements(sorted[i].ips))
  {
    StepMerged(kind, sorted, i, table');
    ResolvedGrows(AllPorts(kind, sorted[..i]), sorted[i].ports);
    SeenPortsKnown(kind, sorted[..i]);
    EarlierConflictsStay(kind, table, table', sorted[..i]);
    ElementsAppend(AllIPs(kind, sorted[..i]), sorted[i].ips);
  }

  /** `sorted` lists the exports oldest first. */
  ghost predicate OldestFirst(exports: seq<Export>, sorted: seq<Export>) {
    Sorted(Older, sorted) && multiset(sorted) == multiset(exports)
  }

  /** The plan of the exports, listed oldest first in some way. */
  ghost predicate PlanOf(exports: seq<Export>, plan: ImportPlan) {
    exists sorted :: OldestFirst(exports, sorted) && PlanFor(sorted, plan)
  }

  method PlanServiceImport(exports: seq<Export>) returns (plan: ImportPlan)
    ensures PlanOf(exports, plan)
  {
    if exports == [] {
      assert OldestFirst(exports, []);
      return ImportPlan(false, ClusterSetIP, [], [], [], []);
    }
    OlderWeak();
    var ordered := SortSlice(Older, exports);
    assert OldestFirst(exports, ordered);
    assert |ordered| > 0 by {
      assert exports[0] in multiset(exports);
    }
    var kind := ordered[0].kind;
    var table: PortTable := map[];
    var keys: seq<PortKey> := [];
    var clusters: seq<string> := [];
    var conflicts: seq<Conflict> := [];
    var ips: set<string> := {};
    for i := 0 to |ordered|
      invariant Built(kind, ordered[..i], table, clusters, conflicts, ips) && Listed(table, keys)
    {
      var e := ordered[i];
      if e.kind != kind {
        BuiltDropped(kind, ordered, i, table, clusters, conflicts, ips);
        conflicts := conflicts + [TypeConflict(e.cluster, e.kind, kind)];
        continue;
      }
      ghost var had := table;
      ghost var found := conflicts;
      table, keys, conflicts := MergePorts(e, table, keys, conflicts, AllPorts(kind, ordered[..i]));
      BuiltMerged(kind, ordered, i, had, clusters, found, ips, table);
      clusters := clusters + [e.cluster];
      ips := ips + Elements(e.ips);
    }
    assert ordered[..|ordered|] == ordered;
    var ports := SortedPorts(table, keys, AllPorts(kind, ordered));
    StringLessTotal();
    TotalIsWeak(StringLess);
    var sortedIPs := SortedKeys(StringLess, ips);
    plan := ImportPlan(true, kind, ports, sortedIPs, clusters, conflicts);
    assert PlanFor(ordered, plan);
  }

  method SortedPorts(table: PortTable, keys: seq<PortKey>, ghost all: seq<ServicePort>) returns (ports: seq<ServicePort>)
    requires table == Resolved(all) && Listed(table, keys)
    ensures StrictlySorted(LessPort, ports) && Elements(ports) == table.Values
    ensures forall i, j :: 0 <= i < j < |ports| ==>
      ports[i].port < ports[j].port || (ports[i].port == ports[j].port && StringLess(ProtocolOf(ports[i]), ProtocolOf(ports[j])))
  {
    ResolvedKeys(all);
    var listed: seq<ServicePort> := [];
    for i := 0 to |keys|
      invariant |listed| == i && forall j :: 0 <= j < i ==> keys[j] in table && listed[j] == table[keys[j]]
    {
      assert keys[i] in Elements(keys);
      listed := listed + [table[keys[i]]];
    }
    LessPortWeak();
    ports := SortSlice(LessPort, listed);
    PermutationElements(listed, ports);
    ListedValues(table, keys, listed);
    PermutationNoDup(listed, ports);
    PortsTotal(table);
    SortedDistinctIsStrict(LessPort, ports);
  }

  lemma ListedValues(table: PortTable, keys: seq<PortKey>, listed: seq<ServicePort>)
    requires Listed(table, keys) && |listed| == |keys| && forall k :: k in table ==> KeyOf(table[k]) == k
    requires forall j :: 0 <= j < |keys| ==> keys[j] in table && listed[j] == table[keys[j]]
    ensures Elements(listed) == table.Values && NoDup(listed)
  {
    forall p ensures p in Elements(listed) <==> p in table.Values {
      if p in listed {
        var j :| 0 <= j < |listed| && listed[j] == p;
        assert keys[j] in table;
      }
      if p in table.Values {
        var k :| k in table && table[k] == p;
        assert k in Elements(keys);
        var j :| 0 <= j < |keys| && keys[j] == k;
        assert listed[j] in listed;
      }
    }
    forall i, j | 0 <= i < j < |listed| ensures listed[i] != listed[j] {
      assert KeyOf(listed[i]) == keys[i] && KeyOf(listed[j]) == keys[j];
    }
  }

  lemma PortsTotal(table: PortTable)
    requires forall k :: k in table ==> KeyOf(table[k]) == k
    ensures TotalOn(LessPort, table.Values)
  {
    LessKeyTotal();
    forall a, b | a in table.Values && b in table.Values && a != b ensures LessPort(a, b) || LessPort(b, a) {
      assert KeyOf(a) != KeyOf(b);
    }
  }

  // ---- What follows -------------------------------------------------------------------------------------------------------------------

  ghost predicate DistinctAges(exports: seq<Export>) {
    NoDup(exports) && forall e, f :: e in exports && f in exports && e.time == f.time && e.cluster == f.cluster ==> e == f
  }

  lemma SortedOnce(exports: seq<Export>, sorted: seq<Export>)
    requires DistinctAges(exports) && Sorted(Older, sorted) && multiset(sorted) == multiset(exports)
    ensures StrictlySorted(Older, sorted) && Elements(sorted) == Elements(exports)
  {
    OlderWeak();
    PermutationElements(exports, sorted);
    PermutationNoDup(exports, sorted);
    StringLessTotal();
    forall e, f | e in Elements(sorted) && f in Elements(sorted) && e != f ensures Older(e, f) || Older(f, e) {
      assert e in Elements(exports) && f in Elements(exports);
    }
    SortedDistinctIsStrict(Older, sorted);
  }

  lemma PlanUnique(sorted: seq<Export>, p: ImportPlan, q: ImportPlan)
    requires PlanFor(sorted, p) && PlanFor(sorted, q)
    ensures p == q
  {
    if sorted != [] {
      LessPortWeak();
      StrictlySortedUnique(LessPort, p.ports, q.ports);
      StringLessTotal();
      TotalIsWeak(StringLess);
      StrictlySortedUnique(StringLess, p.ips, q.ips);
    }
  }

  /** When no two exports share time and cluster, every order of the input gives the same plan. */
  lemma OrderIndependent(exports: seq<Export>, p: ImportPlan, exports': seq<Export>, q: ImportPlan)
    requires DistinctAges(exports) && DistinctAges(exports') && Elements(exports) == Elements(exports')
    requires PlanOf(exports, p) && PlanOf(exports', q)
    ensures p == q
  {
    var sorted: seq<Export> :| OldestFirst(exports, sorted) && PlanFor(sorted, p);
    var sorted': seq<Export> :| OldestFirst(exports', sorted') && PlanFor(sorted', q);
    SortedOnce(exports, sorted);
    SortedOnce(exports', sorted');
    OlderWeak();
    StrictlySortedUnique(Older, sorted, sorted');
    PlanUnique(sorted, p, q);
  }

  /** The resolved type is that of an export no other is older than; without exports there is no import. */
  lemma OldestWins(exports: seq<Export>, plan: ImportPlan)
    requires PlanOf(exports, plan)
    ensures plan.exists_ <==> exports != []
    ensures exports != [] ==> exists w :: w in exports && plan.kind == w.kind && forall e :: e in exports ==>
      w.time <= e.time && (w.time == e.time ==> w.cluster == e.cluster || StringLess(w.cluster, e.cluster))
  {
    var sorted: seq<Export> :| OldestFirst(exports, sorted) && PlanFor(sorted, plan);
    SameLength(exports, sorted);
    if exports != [] {
      PermutationElements(exports, sorted);
      assert sorted[0] in Elements(sorted);
      assert sorted[0] in Elements(exports);
      forall e | e in exports
        ensures sorted[0].time <= e.time && (sorted[0].time == e.time ==> sorted[0].cluster == e.cluster || StringLess(sorted[0].cluster, e.cluster))
      {
        NoneOlder(exports, sorted, e);
        StringLessTotal();
      }
    }
  }

  lemma SameLength(exports: seq<Export>, sorted: seq<Export>)
    requires OldestFirst(exports, sorted)
    ensures |exports| == |sorted|
  {
    assert |multiset(exports)| == |multiset(sorted)|;
  }

  lemma NoneOlder(exports: seq<Export>, sorted: seq<Export>, e: Export)
    requires OldestFirst(exports, sorted) && e in exports
    ensures sorted != [] && !Older(e, sorted[0])
  {
    PermutationElements(exports, sorted);
    assert e in Elements(sorted);
    var i :| 0 <= i < |sorted| && sorted[i] == e;
    OlderWeak();
  }

  function TypeConflicts(conflicts: seq<Conflict>): nat {
    if conflicts == [] then 0 else (if conflicts[0].TypeConflict? then 1 else 0) + TypeConflicts(conflicts[1..])
  }

  lemma {:induction false} TypeConflictsConcat(a: seq<Conflict>, b: seq<Conflict>)
    ensures TypeConflicts(a + b) == TypeConflicts(a) + TypeConflicts(b)
  {
    if a == [] {
      assert a + b == b;
    } else {
      assert (a + b)[1..] == a[1..] + b;
      TypeConflictsConcat(a[1..], b);
    }
  }

  lemma {:induction false} PortConflictsAreNotType(table: PortTable, cluster: string, ports: seq<ServicePort>)
    ensures TypeConflicts(PortConflicts(table, cluster, ports)) == 0
  {
    if ports != [] {
      PortConflictsAreNotType(table, cluster, ports[1..]);
      var first := if Disagrees(table, ports[0]) then [PortConflict(cluster, KeyOf(ports[0]), ports[0].name, table[KeyOf(ports[0])].name)] else [];
      TypeConflictsConcat(first, PortConflicts(table, cluster, ports[1..]));
    }
  }

  lemma {:induction false} Accounted(table: PortTable, kind: ImportType, sorted: seq<Export>)
    ensures |ContributingClusters(kind, sorted)| + TypeConflicts(AllConflicts(table, kind, sorted)) == |sorted|
  {
    if sorted != [] {
      Accounted(table, kind, sorted[1..]);
      var e := sorted[0];
      TypeConflictsConcat(ConflictsOf(table, kind, e), AllConflicts(table, kind, sorted[1..]));
      if e.kind == kind {
        PortConflictsAreNotType(table, e.cluster, e.ports);
      } else {
        assert ConflictsOf(table, kind, e)[1..] == [];
      }
    }
  }

  /** The type conflict of each export of another type. */
  function TypeConflictList(kind: ImportType, exports: seq<Export>): seq<Conflict> {
    Collect((e: Export) => if e.kind != kind then [TypeConflict(e.cluster, e.kind, kind)] else [], exports)
  }

  lemma {:induction false} OnlyPortConflicts(table: PortTable, cluster: string, ports: seq<ServicePort>, c: Conflict)
    requires c.TypeConflict?
    ensures c !in PortConflicts(table, cluster, ports)
  {
    if ports != [] {
      OnlyPortConflicts(table, cluster, ports[1..], c);
    }
  }

  /** Among the conflicts of the sorted exports, the type conflicts are those of the exports of another type. */
  lemma {:induction false} TypeConflictsListed(table: PortTable, kind: ImportType, sorted: seq<Export>, c: Conflict)
    requires c.TypeConflict?
    ensures multiset(AllConflicts(table, kind, sorted))[c] == multiset(TypeConflictList(kind, sorted))[c]
  {
    if sorted != [] {
      var e := sorted[0];
      TypeConflictsListed(table, kind, sorted[1..], c);
      OnlyPortConflicts(table, e.cluster, e.ports, c);
      assert AllConflicts(table, kind, sorted) == ConflictsOf(table, kind, e) + AllConflicts(table, kind, sorted[1..]);
      var own := if e.kind != kind then [TypeConflict(e.cluster, e.kind, kind)] else [];
      assert TypeConflictList(kind, sorted) == own + TypeConflictList(kind, sorted[1..]);
      assert multiset(ConflictsOf(table, kind, e))[c] == multiset(own)[c];
    }
  }

  /** Every export is accounted for once: the listed clusters are those of the exports of the winning type, the type
      conflicts those of the others, each as often as it was exported, and together they are as many as the exports. */
  lemma EveryExportAccounted(exports: seq<Export>, plan: ImportPlan)
    requires PlanOf(exports, plan)
    ensures |plan.clusters| + TypeConflicts(plan.conflicts) == |exports|
    ensures multiset(plan.clusters) == multiset(ContributingClusters(plan.kind, exports))
    ensures (forall c: Conflict :: c.TypeConflict? ==> multiset(plan.conflicts)[c] == multiset(TypeConflictList(plan.kind, exports))[c])
    ensures (forall e :: e in exports ==>
               if e.kind == plan.kind then e.cluster in plan.clusters else TypeConflict(e.cluster, e.kind, plan.kind) in plan.conflicts)
  {
    var sorted: seq<Export> :| OldestFirst(exports, sorted) && PlanFor(sorted, plan);
    SameLength(exports, sorted);
    var kind := plan.kind;
    CollectPermutation((e: Export) => if e.kind == kind then [e.cluster] else [], sorted, exports);
    CollectPermutation((e: Export) => if e.kind != kind then [TypeConflict(e.cluster, e.kind, kind)] else [], sorted, exports);
    if sorted != [] {
      var table := Resolved(AllPorts(kind, sorted));
      Accounted(table, kind, sorted);
      forall c: Conflict | c.TypeConflict? ensures multiset(plan.conflicts)[c] == multiset(TypeConflictList(kind, exports))[c] {
        TypeConflictsListed(table, kind, sorted, c);
      }
      forall e | e in exports
        ensures if e.kind == kind then e.cluster in plan.clusters else TypeConflict(e.cluster, e.kind, kind) in plan.conflicts
      {
        OneExportAccounted(exports, plan, e);
      }
    }
  }

  lemma OneExportAccounted(exports: seq<Export>, plan: ImportPlan, e: Export)
    requires multiset(plan.clusters) == multiset(ContributingClusters(plan.kind, exports)) && e in exports
    requires forall c: Conflict :: c.TypeConflict? ==> multiset(plan.conflicts)[c] == multiset(TypeConflictList(plan.kind, exports))[c]
    ensures if e.kind == plan.kind then e.cluster in plan.clusters else TypeConflict(e.cluster, e.kind, plan.kind) in plan.conflicts
  {
    var kind := plan.kind;
    if e.kind == kind {
      CollectMember((e: Export) => if e.kind == kind then [e.cluster] else [], exports, e.cluster);
      assert e.cluster in multiset(plan.clusters);
    } else {
      var c := TypeConflict(e.cluster, e.kind, kind);
      CollectMember((e: Export) => if e.kind != kind then [TypeConflict(e.cluster, e.kind, kind)] else [], exports, c);
      assert c in multiset(plan.conflicts);
    }
  }

  /** The plan has a port for a number and protocol exactly when a contributing export has one. */
  lemma PortsExactly(exports: seq<Export>, plan: ImportPlan, k: PortKey)
    requires PlanOf(exports, plan) && exports != []
    ensures (exists p :: p in plan.ports && KeyOf(p) == k) <==> exists e, p :: e in exports && e.kind == plan.kind && p in e.ports && KeyOf(p) == k
  {
    var sorted: seq<Export> :| OldestFirst(exports, sorted) && PlanFor(sorted, plan);
    SameLength(exports, sorted);
    PermutationElements(exports, sorted);
    PortsOfSorted(sorted, plan, k);
    forall e ensures e in sorted <==> e in exports {
      assert e in Elements(sorted) <==> e in Elements(exports);
    }
  }

  lemma PortsOfSorted(sorted: seq<Export>, plan: ImportPlan, k: PortKey)
    requires PlanFor(sorted, plan) && sorted != []
    ensures (exists p :: p in plan.ports && KeyOf(p) == k) <==> exists e, p :: e in sorted && e.kind == plan.kind && p in e.ports && KeyOf(p) == k
  {
    var all := AllPorts(plan.kind, sorted);
    ResolvedKeys(all);
    PlannedPort(sorted, plan, k);
    if p :| p in all && KeyOf(p) == k {
      CollectMember((e: Export) => if e.kind == plan.kind then e.ports else [], sorted, p);
    }
    forall e, p | e in sorted && e.kind == plan.kind && p in e.ports && KeyOf(p) == k ensures k in Resolved(all) {
      CollectMember((e: Export) => if e.kind == plan.kind then e.ports else [], sorted, p);
    }
  }

  /** A planned port is the first one with its number and protocol among the contributing exports, oldest first: the
      oldest export's name wins. */
  lemma FirstNameWins(sorted: seq<Export>, plan: ImportPlan, before: seq<ServicePort>, p: ServicePort, after: seq<ServicePort>, q: ServicePort)
    requires PlanFor(sorted, plan) && sorted != [] && AllPorts(plan.kind, sorted) == before + [p] + after
    requires forall j :: 0 <= j < |before| ==> KeyOf(before[j]) != KeyOf(p)
    requires q in plan.ports && KeyOf(q) == KeyOf(p)
    ensures q == Normalize(p)
  {
    FirstStays(before, p, after);
    PlannedPort(sorted, plan, KeyOf(p));
  }

  /** A port conflict is listed if and only if a contributing export of that cluster names the port differently from the
      planned one, which is the first. */
  lemma PortConflictsExactly(sorted: seq<Export>, plan: ImportPlan, cluster: string, k: PortKey, name: string, existing: string)
    requires PlanFor(sorted, plan) && sorted != []
    ensures PortConflict(cluster, k, name, existing) in plan.conflicts <==>
      && name != existing && (exists q :: q in plan.ports && KeyOf(q) == k && q.name == existing)
      && exists e, p :: e in sorted && e.kind == plan.kind && e.cluster == cluster && p in e.ports && KeyOf(p) == k && p.name == name
  {
    var table, c := Resolved(AllPorts(plan.kind, sorted)), PortConflict(cluster, k, name, existing);
    PlannedPort(sorted, plan, k);
    CollectMember((e: Export) => ConflictsOf(table, plan.kind, e), sorted, c);
    forall e ensures c in ConflictsOf(table, plan.kind, e) <==>
      e.kind == plan.kind && e.cluster == cluster && exists p :: p in e.ports && Disagrees(table, p) && c == PortConflict(cluster, KeyOf(p), p.name, table[KeyOf(p)].name)
    {
      if e.kind == plan.kind {
        CollectMember((p: ServicePort) => if Disagrees(table, p) then [PortConflict(e.cluster, KeyOf(p), p.name, table[KeyOf(p)].name)] else [], e.ports, c);
      }
    }
  }

  /** A blank protocol stands for TCP; any other is taken as written. */
  lemma ProtocolExactly(p: ServicePort)
    ensures KeyOf(p) == PortKey(p.port, if Spaces(p.protocol) then "TCP" else p.protocol)
  {
    var pre, post := TrimSplits(p.protocol);
    if Spaces(p.protocol) {
      assert p.protocol + "" + "" == p.protocol;
      TrimExactly(p.protocol, "", "");
    } else {
      assert TrimSpace(p.protocol) == "" ==> p.protocol == pre + post && Spaces(pre + post);
    }
  }

  lemma PlannedPort(sorted: seq<Export>, plan: ImportPlan, k: PortKey)
    requires PlanFor(sorted, plan) && sorted != []
    ensures var table := Resolved(AllPorts(plan.kind, sorted));
      && ((exists p :: p in plan.ports && KeyOf(p) == k) <==> k in table)
      && (forall p :: p in plan.ports && KeyOf(p) == k ==> k in table && p == table[k])
  {
    var table := Resolved(AllPorts(plan.kind, sorted));
    ResolvedKeys(AllPorts(plan.kind, sorted));
    forall p | p in plan.ports && KeyOf(p) == k ensures k in table && p == table[k] {
      assert p in Elements(plan.ports);
      var k' :| k' in table && table[k'] == p;
    }
    if k in table {
      assert table[k] in table.Values;
      assert table[k] in Elements(plan.ports);
    }
  }

  // ---- The order of the clusters ------------------------------------------------------------------------------------------------------

  lemma ClustersAre(kind: ImportType, sorted: seq<Export>)
    ensures |ContributingClusters(kind, sorted)| == |Contributing(kind, sorted)|
    ensures forall i :: 0 <= i < |Contributing(kind, sorted)| ==> ContributingClusters(kind, sorted)[i] == Contributing(kind, sorted)[i].cluster
  {
    if sorted != [] {
      ClustersAre(kind, sorted[1..]);
    }
  }

  lemma SortedPrepend(x: Export, rest: seq<Export>)
    requires Sorted(Older, rest) && forall e :: e in rest ==> !Older(e, x)
    ensures Sorted(Older, [x] + rest)
  {
  }

  lemma ContributingMember(kind: ImportType, sorted: seq<Export>, e: Export)
    ensures e in Contributing(kind, sorted) <==> e in sorted && e.kind == kind
  {
    CollectMember((e: Export) => if e.kind == kind then [e] else [], sorted, e);
  }

  lemma {:induction false} ContributingSorted(kind: ImportType, sorted: seq<Export>)
    requires Sorted(Older, sorted)
    ensures Sorted(Older, Contributing(kind, sorted))
  {
    if sorted != [] {
      var rest := Contributing(kind, sorted[1..]);
      ContributingSorted(kind, sorted[1..]);
      forall e | e in rest ensures !Older(e, sorted[0]) {
        ContributingMember(kind, sorted[1..], e);
        var j :| 0 <= j < |sorted[1..]| && sorted[1..][j] == e;
        assert sorted[j + 1] == e;
      }
      SortedPrepend(sorted[0], rest);
      assert Contributing(kind, sorted) == if sorted[0].kind == kind then [sorted[0]] + rest else rest;
    }
  }

  ghost predicate AgesFollowNames(kind: ImportType, exports: seq<Export>) {
    forall e, f :: e in exports && f in exports && e.kind == f.kind == kind && e.time < f.time ==> !StringLess(f.cluster, e.cluster)
  }

  lemma NameOrderNeeded(c: seq<Export>, clusters: seq<string>, e: Export, f: Export)
    requires Sorted(Older, c) && |clusters| == |c| && (forall i :: 0 <= i < |c| ==> clusters[i] == c[i].cluster)
    requires Sorted(StringLess, clusters) && e in c && f in c && e.time < f.time
    ensures !StringLess(f.cluster, e.cluster)
  {
    var i :| 0 <= i < |c| && c[i] == e;
    var j :| 0 <= j < |c| && c[j] == f;
    assert i < j by {
      assert Older(e, f);
    }
    assert clusters[i] == e.cluster && clusters[j] == f.cluster;
  }

  lemma NameOrderSuffices(c: seq<Export>, clusters: seq<string>, i: nat, j: nat)
    requires Sorted(Older, c) && |clusters| == |c| && (forall i :: 0 <= i < |c| ==> clusters[i] == c[i].cluster)
    requires i < j < |c| && (c[i].time < c[j].time ==> !StringLess(c[j].cluster, c[i].cluster))
    ensures !StringLess(clusters[j], clusters[i])
  {
    assert !Older(c[j], c[i]);
  }

  /** The cluster list is in name order if and only if no contributing export is older than one of an earlier name. */
  lemma ClustersInNameOrderExactly(sorted: seq<Export>, plan: ImportPlan)
    requires PlanFor(sorted, plan) && sorted != [] && Sorted(Older, sorted)
    ensures Sorted(StringLess, plan.clusters) <==> AgesFollowNames(plan.kind, sorted)
  {
    var c := Contributing(plan.kind, sorted);
    ContributingSorted(plan.kind, sorted);
    forall e ensures e in c <==> e in sorted && e.kind == plan.kind {
      ContributingMember(plan.kind, sorted, e);
    }
    ClustersAre(plan.kind, sorted);
    if Sorted(StringLess, plan.clusters) {
      forall e, f | e in sorted && f in sorted && e.kind == f.kind == plan.kind && e.time < f.time ensures !StringLess(f.cluster, e.cluster) {
        NameOrderNeeded(c, plan.clusters, e, f);
      }
    }
    if AgesFollowNames(plan.kind, sorted) {
      forall i, j | 0 <= i < j < |plan.clusters| ensures !StringLess(plan.clusters[j], plan.clusters[i]) {
        assert c[i] in c && c[j] in c;
        NameOrderSuffices(c, plan.clusters, i, j);
      }
    }
  }

  /** An older export of a later name comes first. */
  lemma ClustersOutOfNameOrder() returns (sorted: seq<Export>)
    ensures Sorted(Older, sorted) && sorted != []
    ensures forall plan :: PlanFor(sorted, plan) ==> plan.clusters == ["b", "a"]
  {
    var b, a := Export("b", ClusterSetIP, [], [], 1), Export("a", ClusterSetIP, [], [], 2);
    sorted := [b, a];
    StepMerged(ClusterSetIP, sorted, 0, map[]);
    StepMerged(ClusterSetIP, sorted, 1, map[]);
    assert sorted[..0] == [] && sorted[..2] == sorted;
    assert ContributingClusters(ClusterSetIP, sorted) == ["b", "a"];
  }
}
