/** pkg/dns/naming.go: which exports have one plan whatever order they are listed in. */
module ImportOrder {
  import opened Order
  import opened Reorder
  import opened Import

  /** However the exports are listed, and whatever order the sort leaves, the plan is the same. */
  ghost predicate OnePlan(exports: seq<Export>) {
    forall p, q :: PlanOf(exports, p) && PlanOf(exports, q) ==> p == q
  }

  function Kind(s: seq<Export>): ImportType
    requires s != []
  {
    s[0].kind
  }

  /** The port table of exports listed oldest first. */
  function TableOf(kind: ImportType, s: seq<Export>): PortTable {
    Resolved(AllPorts(kind, s))
  }

  /** The export contributes a port with this number and protocol. */
  predicate Offers(kind: ImportType, e: Export, k: PortKey) {
    e.kind == kind && k in Resolved(e.ports)
  }

  /** Nobody older offers the port. */
  ghost predicate FirstToOffer(kind: ImportType, s: seq<Export>, e: Export, k: PortKey) {
    Offers(kind, e, k) && forall f :: f in s && Older(f, e) ==> !Offers(kind, f, k)
  }

  ghost predicate KindSettled(s: seq<Export>)
    requires s != []
  {
    forall e :: e in s && !Older(s[0], e) ==> e.kind == Kind(s)
  }

  ghost predicate PortsSettled(kind: ImportType, table: PortTable, s: seq<Export>) {
    forall e, k :: e in s && FirstToOffer(kind, s, e, k) ==> k in table && Resolved(e.ports)[k] == table[k]
  }

  function ConflictFn(table: PortTable, kind: ImportType): Export -> seq<Conflict> {
    (e: Export) => ConflictsOf(table, kind, e)
  }

  /** What a caller can check of exports sorted in any one way. Those tied for oldest are of one type. Those tied for being
      the first to offer a port offer it under one name. The conflicts of two tied exports may be listed either way. */
  ghost predicate TiesSettled(s: seq<Export>) {
    s != [] ==>
      && KindSettled(s)
      && PortsSettled(Kind(s), TableOf(Kind(s), s), s)
      && Commuting(Older, ConflictFn(TableOf(Kind(s), s), Kind(s)), s)
  }

  // ---- Where a table entry comes from ------------------------------------------------------------------------------------

  lemma OfferedByNeither(a: seq<ServicePort>, b: seq<ServicePort>, k: PortKey)
    requires k !in Resolved(a) && k !in Resolved(b)
    ensures k !in Resolved(a + b)
  {
    ResolvedKeys(a);
    ResolvedKeys(b);
    ResolvedKeys(a + b);
    assert forall p :: p in a + b ==> p in a || p in b;
  }

  lemma LastPort(before: seq<ServicePort>, more: seq<ServicePort>)
    requires more != []
    ensures var now, p := Resolved(before + more[..|more| - 1]), more[|more| - 1];
      Resolved(before + more) == if KeyOf(p) in now then now else now[KeyOf(p) := Normalize(p)]
  {
    assert more[..|more|] == more;
    ResolvedStep(before, more, |more| - 1);
  }

  /** What only the later ports offer is theirs. */
  lemma {:induction false} ResolvedOf(ports: seq<ServicePort>, more: seq<ServicePort>, k: PortKey)
    requires k !in Resolved(ports) && k in Resolved(more)
    ensures k in Resolved(ports + more) && Resolved(ports + more)[k] == Resolved(more)[k]
    decreases |more|
  {
    var init := more[..|more| - 1];
    LastPort(ports, more);
    if k in Resolved(init) {
      ResolvedOf(ports, init, k);
    } else {
      OfferedByNeither(ports, init, k);
    }
  }

  lemma PortsAround(kind: ImportType, s: seq<Export>, i: nat)
    requires i < |s| && s[i].kind == kind
    ensures AllPorts(kind, s) == AllPorts(kind, s[..i]) + (s[i].ports + AllPorts(kind, s[i + 1..]))
  {
    CollectAround((e: Export) => if e.kind == kind then e.ports else [], s, i);
    var a, b, c := AllPorts(kind, s[..i]), s[i].ports, AllPorts(kind, s[i + 1..]);
    assert a + b + c == a + (b + c);
  }

  lemma OfferedPort(kind: ImportType, s: seq<Export>, k: PortKey)
    ensures k in TableOf(kind, s) <==> exists e :: e in s && Offers(kind, e, k)
  {
    ResolvedKeys(AllPorts(kind, s));
    forall e: Export ensures k in Resolved(e.ports) <==> exists p :: p in e.ports && KeyOf(p) == k {
      ResolvedKeys(e.ports);
    }
    forall p ensures p in AllPorts(kind, s) <==> exists e :: e in s && p in (if e.kind == kind then e.ports else []) {
      CollectMember((e: Export) => if e.kind == kind then e.ports else [], s, p);
    }
  }

  /** If nobody listed before offers the port, the entry is this export's. */
  lemma FirstOfferWins(kind: ImportType, s: seq<Export>, i: nat, k: PortKey)
    requires i < |s| && Offers(kind, s[i], k) && forall j :: 0 <= j < i ==> !Offers(kind, s[j], k)
    ensures k in TableOf(kind, s) && TableOf(kind, s)[k] == Resolved(s[i].ports)[k]
  {
    OfferedPort(kind, s[..i], k);
    assert k !in Resolved(AllPorts(kind, s[..i]));
    PortsAround(kind, s, i);
    ResolvedGrows(s[i].ports, AllPorts(kind, s[i + 1..]));
    ResolvedOf(AllPorts(kind, s[..i]), s[i].ports + AllPorts(kind, s[i + 1..]), k);
  }

  lemma {:induction false} FirstOffer(kind: ImportType, s: seq<Export>, n: nat, k: PortKey) returns (i: nat)
    requires n < |s| && Offers(kind, s[n], k)
    ensures i <= n && Offers(kind, s[i], k) && forall j :: 0 <= j < i ==> !Offers(kind, s[j], k)
  {
    if j :| 0 <= j < n && Offers(kind, s[j], k) {
      i := FirstOffer(kind, s, j, k);
    } else {
      i := n;
    }
  }

  // ---- Settled ties: every order has the same plan --------------------------------------------------------------------------

  lemma SameMembers(s: seq<Export>, t: seq<Export>)
    requires multiset(s) == multiset(t)
    ensures |s| == |t| && forall e :: e in s <==> e in t
  {
    assert |multiset(s)| == |multiset(t)|;
    forall e ensures e in s <==> e in t {
      assert e in multiset(s) <==> e in multiset(t);
    }
  }

  lemma SameKind(s: seq<Export>, t: seq<Export>)
    requires s != [] && KindSettled(s) && Sorted(Older, s) && Sorted(Older, t) && multiset(s) == multiset(t)
    ensures t != [] && Kind(t) == Kind(s)
  {
    SameMembers(s, t);
    OlderWeak();
    assert s[0] in t && t[0] in s;
    var j :| 0 <= j < |t| && t[j] == s[0];
    assert !Older(s[0], t[0]);
  }

  lemma SameEntry(kind: ImportType, s: seq<Export>, t: seq<Export>, k: PortKey)
    requires PortsSettled(kind, TableOf(kind, s), s) && Sorted(Older, t) && multiset(s) == multiset(t) && k in TableOf(kind, t)
    ensures k in TableOf(kind, s) && TableOf(kind, s)[k] == TableOf(kind, t)[k]
  {
    SameMembers(s, t);
    OfferedPort(kind, t, k);
    var e :| e in t && Offers(kind, e, k);
    var n :| 0 <= n < |t| && t[n] == e;
    var i := FirstOffer(kind, t, n, k);
    FirstOfferWins(kind, t, i, k);
    OlderWeak();
    forall f | f in s && Older(f, t[i]) ensures !Offers(kind, f, k) {
      var j :| 0 <= j < |t| && t[j] == f;
      assert j < i;
    }
    assert t[i] in s && FirstToOffer(kind, s, t[i], k);
  }

  lemma SameTable(kind: ImportType, s: seq<Export>, t: seq<Export>)
    requires PortsSettled(kind, TableOf(kind, s), s) && Sorted(Older, t) && multiset(s) == multiset(t)
    ensures TableOf(kind, s) == TableOf(kind, t)
  {
    SameMembers(s, t);
    forall k ensures k in TableOf(kind, s) <==> k in TableOf(kind, t) {
      OfferedPort(kind, s, k);
      OfferedPort(kind, t, k);
    }
    forall k | k in TableOf(kind, t) ensures TableOf(kind, s)[k] == TableOf(kind, t)[k] {
      SameEntry(kind, s, t, k);
    }
  }

  lemma SameClusters(kind: ImportType, s: seq<Export>, t: seq<Export>)
    requires Sorted(Older, s) && Sorted(Older, t) && multiset(s) == multiset(t)
    ensures ContributingClusters(kind, s) == ContributingClusters(kind, t)
  {
    var f := (e: Export) => if e.kind == kind then [e.cluster] else [];
    forall a, b | a in s && b in s && Tied(Older, a, b) ensures f(a) + f(b) == f(b) + f(a) {
      TiedExports(a, b);
    }
    OlderWeak();
    CommutingCollect(Older, f, s, t);
  }

  lemma TiedExports(a: Export, b: Export)
    ensures Tied(Older, a, b) <==> a.time == b.time && a.cluster == b.cluster
  {
    StringLessTotal();
  }

  lemma SameIPs(kind: ImportType, s: seq<Export>, t: seq<Export>)
    requires multiset(s) == multiset(t)
    ensures Elements(AllIPs(kind, s)) == Elements(AllIPs(kind, t))
  {
    CollectPermutation((e: Export) => if e.kind == kind then e.ips else [], s, t);
    PermutationElements(AllIPs(kind, s), AllIPs(kind, t));
  }

  lemma SettledSamePlan(s: seq<Export>, t: seq<Export>, p: ImportPlan)
    requires TiesSettled(s) && Sorted(Older, s) && Sorted(Older, t) && multiset(s) == multiset(t) && PlanFor(t, p)
    ensures PlanFor(s, p)
  {
    SameMembers(s, t);
    if s != [] {
      SameKind(s, t);
      var kind := Kind(s);
      SameTable(kind, s, t);
      SameClusters(kind, s, t);
      SameIPs(kind, s, t);
      OlderWeak();
      CommutingCollect(Older, ConflictFn(TableOf(kind, s), kind), s, t);
    }
  }

  // ---- Unsettled ties: two plans ------------------------------------------------------------------------------------------------

  lemma PlanExists(s: seq<Export>) returns (p: ImportPlan)
    ensures PlanFor(s, p)
  {
    if s == [] {
      p := ImportPlan(false, ClusterSetIP, [], [], [], []);
    } else {
      var kind := Kind(s);
      var table := TableOf(kind, s);
      ResolvedKeys(AllPorts(kind, s));
      LessPortWeak();
      PortsTotal(table);
      StringLessTotal();
      TotalIsWeak(StringLess);
      p := ImportPlan(true, kind, SortSet(LessPort, table.Values), SortSet(StringLess, Elements(AllIPs(kind, s))),
        ContributingClusters(kind, s), AllConflicts(table, kind, s));
    }
  }

  /** Under one plan, all sorted orders have the same type, port table and conflicts. */
  lemma OnePlanShared(exports: seq<Export>, s: seq<Export>, t: seq<Export>)
    requires OnePlan(exports) && OldestFirst(exports, s) && OldestFirst(exports, t) && s != []
    ensures t != [] && Kind(t) == Kind(s) && TableOf(Kind(s), t) == TableOf(Kind(s), s)
    ensures AllConflicts(TableOf(Kind(s), s), Kind(s), t) == AllConflicts(TableOf(Kind(s), s), Kind(s), s)
  {
    SameMembers(s, t);
    var p := PlanExists(s);
    var q := PlanExists(t);
    assert PlanOf(exports, p) && PlanOf(exports, q);
    assert p == q;
    SameValues(AllPorts(Kind(s), s), AllPorts(Kind(s), t));
  }

  /** A table is determined by its ports. */
  lemma SameValues(a: seq<ServicePort>, b: seq<ServicePort>)
    requires Resolved(a).Values == Resolved(b).Values
    ensures Resolved(a) == Resolved(b)
  {
    ResolvedKeys(a);
    ResolvedKeys(b);
    forall k | k in Resolved(a) ensures k in Resolved(b) && Resolved(b)[k] == Resolved(a)[k] {
      assert Resolved(a)[k] in Resolved(b).Values;
    }
    forall k | k in Resolved(b) ensures k in Resolved(a) {
      assert Resolved(b)[k] in Resolved(a).Values;
    }
  }

  lemma PromotedOldestFirst(exports: seq<Export>, s: seq<Export>, i: nat, j: nat)
    requires OldestFirst(exports, s) && i <= j < |s| && !Older(s[i], s[j])
    ensures OldestFirst(exports, Promoted(s, i, j))
  {
    OlderWeak();
    PromotedSorted(Older, s, i, j);
    PromotedPermutes(s, i, j);
  }

  lemma OneKind(exports: seq<Export>, s: seq<Export>)
    requires OnePlan(exports) && OldestFirst(exports, s) && s != []
    ensures KindSettled(s)
  {
    forall e | e in s && !Older(s[0], e) ensures e.kind == Kind(s) {
      var j :| 0 <= j < |s| && s[j] == e;
      PromotedOldestFirst(exports, s, 0, j);
      PromotedAt(s, 0, j, 0);
      OnePlanShared(exports, s, Promoted(s, 0, j));
    }
  }

  lemma OnePort(exports: seq<Export>, s: seq<Export>, j: nat, k: PortKey)
    requires OnePlan(exports) && OldestFirst(exports, s) && j < |s| && FirstToOffer(Kind(s), s, s[j], k)
    ensures k in TableOf(Kind(s), s) && Resolved(s[j].ports)[k] == TableOf(Kind(s), s)[k]
  {
    var kind := Kind(s);
    OlderWeak();
    var i := TieStart(Older, s, j, j);
    var t := Promoted(s, i, j);
    PromotedOldestFirst(exports, s, i, j);
    OnePlanShared(exports, s, t);
    PromotedAt(s, i, j, i);
    forall h | 0 <= h < i ensures !Offers(kind, t[h], k) {
      PromotedAt(s, i, j, h);
      assert s[h] in s;
    }
    FirstOfferWins(kind, t, i, k);
  }

  /** Two tied exports brought to the front of those they are tied with. */
  lemma TiedInFront(exports: seq<Export>, s: seq<Export>, a: nat, b: nat) returns (t: seq<Export>, i: nat)
    requires OldestFirst(exports, s) && a < b < |s| && Tied(Older, s[a], s[b])
    ensures OldestFirst(exports, t) && i + 1 < |t| && t[i] == s[a] && t[i + 1] == s[b]
  {
    OlderWeak();
    i := a;
    t := Promoted(s, a + 1, b);
    assert !Older(s[a + 1], s[b]) by {
      BetweenTied(Older, s, a, b, a + 1);
    }
    PromotedOldestFirst(exports, s, a + 1, b);
    PromotedAt(s, a + 1, b, a);
    PromotedAt(s, a + 1, b, a + 1);
  }

  lemma CollectTwo<A, B>(f: A -> seq<B>, before: seq<A>, x: A, y: A, after: seq<A>)
    ensures Collect(f, before + [x, y] + after) == Collect(f, before) + (f(x) + f(y)) + Collect(f, after)
  {
    CollectConcat(f, before + [x, y], after);
    CollectConcat(f, before, [x, y]);
    assert [x, y][1..] == [y] && [y][1..] == [];
    assert Collect(f, [y]) == f(y) + [];
    assert Collect(f, [x, y]) == f(x) + Collect(f, [y]);
  }

  lemma SwappedConflicts<A, B>(f: A -> seq<B>, t: seq<A>, i: nat)
    requires i + 1 < |t| && Collect(f, t) == Collect(f, Promoted(t, i, i + 1))
    ensures f(t[i]) + f(t[i + 1]) == f(t[i + 1]) + f(t[i])
  {
    var before, x, y, after := t[..i], t[i], t[i + 1], t[i + 2..];
    assert t == before + [x, y] + after;
    assert Promoted(t, i, i + 1) == before + [y, x] + after;
    CollectTwo(f, before, x, y, after);
    CollectTwo(f, before, y, x, after);
    MiddleSame(Collect(f, before), f(x) + f(y), f(y) + f(x), Collect(f, after));
  }

  lemma OneConflictList(exports: seq<Export>, s: seq<Export>, a: nat, b: nat)
    requires OnePlan(exports) && OldestFirst(exports, s) && a < b < |s| && Tied(Older, s[a], s[b])
    ensures var f := ConflictFn(TableOf(Kind(s), s), Kind(s)); f(s[a]) + f(s[b]) == f(s[b]) + f(s[a])
  {
    var t, i := TiedInFront(exports, s, a, b);
    PromotedOldestFirst(exports, t, i, i + 1);
    OnePlanShared(exports, s, t);
    OnePlanShared(exports, s, Promoted(t, i, i + 1));
    SwappedConflicts(ConflictFn(TableOf(Kind(s), s), Kind(s)), t, i);
  }

  lemma OnePlanSettles(exports: seq<Export>, s: seq<Export>)
    requires OnePlan(exports) && OldestFirst(exports, s)
    ensures TiesSettled(s)
  {
    if s != [] {
      OneKind(exports, s);
      forall e, k | e in s && FirstToOffer(Kind(s), s, e, k) ensures k in TableOf(Kind(s), s) && Resolved(e.ports)[k] == TableOf(Kind(s), s)[k] {
        var j :| 0 <= j < |s| && s[j] == e;
        OnePort(exports, s, j, k);
      }
      var f := ConflictFn(TableOf(Kind(s), s), Kind(s));
      forall x, y | x in s && y in s && Tied(Older, x, y) ensures f(x) + f(y) == f(y) + f(x) {
        var a :| 0 <= a < |s| && s[a] == x;
        var b :| 0 <= b < |s| && s[b] == y;
        if a < b {
          OneConflictList(exports, s, a, b);
        } else if b < a {
          OneConflictList(exports, s, b, a);
        }
      }
    }
  }

  // ---- Exactly when the plan is determined ---------------------------------------------------------------------------------------

  /** The plan does not depend on the order of the input if and only if the ties are settled, checked on any one sorted
      order. */
  lemma OnePlanExactly(exports: seq<Export>, s: seq<Export>)
    requires OldestFirst(exports, s)
    ensures OnePlan(exports) <==> TiesSettled(s)
  {
    if TiesSettled(s) {
      forall p, q | PlanOf(exports, p) && PlanOf(exports, q) ensures p == q {
        var t: seq<Export> :| OldestFirst(exports, t) && PlanFor(t, p);
        var u: seq<Export> :| OldestFirst(exports, u) && PlanFor(u, q);
        SettledSamePlan(s, t, p);
        SettledSamePlan(s, u, q);
        PlanUnique(s, p, q);
      }
    }
    if OnePlan(exports) {
      OnePlanSettles(exports, s);
    }
  }

  /** Two exports of one cluster and time but of two types have two plans. */
  lemma TiedTypesHaveTwoPlans(cluster: string, time: int, ports: seq<ServicePort>, ips: seq<string>)
    ensures !OnePlan([Export(cluster, ClusterSetIP, ports, ips, time), Export(cluster, Headless, ports, ips, time)])
  {
    var e, f := Export(cluster, ClusterSetIP, ports, ips, time), Export(cluster, Headless, ports, ips, time);
    var s := [e, f];
    TiedExports(e, f);
    assert f in s && !Older(s[0], f) && f.kind != Kind(s);
    OnePlanExactly(s, s);
  }
}
