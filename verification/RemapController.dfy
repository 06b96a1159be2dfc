/** pkg/controllers/remap_controller.go: one table of virtual ranges for all peers, or none. */
module RemapController {
  import opened Cidr
  import opened Order
  import opened RemapText
  import opened Remap

  /** The fields of a MeshPeer the reconciler reads. */
  datatype PeerSpec = PeerSpec(name: string, clusterID: string, publicKey: string, cidrs: seq<CidrText>)

  /** This cluster, as every plan sees it. */
  datatype Site = Site(hash: Hash, pool: CidrText, clusterID: string, ranges: seq<CidrText>)

  datatype Owner = Route(cluster: string) | LocalRange(actual: CidrText)

  datatype Claim = Claim(virtual: CidrText, owner: Owner)

  datatype EntriesResult = Built(entries: seq<Entry>) | Refused

  function Remapped(site: Site, p: PeerSpec): set<CidrText> {
    if p.publicKey == "" then {} else Elements(ExcludeDangerous(Conflicts(p.cidrs, site.ranges)))
  }

  /** The sources one peer's plan gives virtual ranges to. */
  function SourcesFor(site: Site, p: PeerSpec): set<Source> {
    PlanSources(site.clusterID, Elements(ParseList(site.ranges)), p.clusterID, Remapped(site, p))
  }

  ghost predicate PlanSucceeds(site: Site, p: PeerSpec) {
    CollisionFree(VirtualOf(site.hash, site.pool), SourcesFor(site, p))
  }

  /** The virtual ranges routed towards the peer. */
  function RoutesOf(site: Site, p: PeerSpec): set<CidrText> {
    VirtualSet(site.hash, site.pool, p.clusterID, Parsed(Remapped(site, p)))
  }

  function PairUp(site: Site, texts: set<CidrText>): set<Entry> {
    set c | c in texts && VirtualCIDR(site.hash, site.pool, site.clusterID, c).Some?
      :: Entry(c, VirtualCIDR(site.hash, site.pool, site.clusterID, c).value)
  }

  /** The local pairs the peer's overlap asks for. */
  function EntriesOf(site: Site, p: PeerSpec): set<Entry> {
    PairUp(site, Overlapped(Remapped(site, p), Elements(ParseList(site.ranges))))
  }

  function RouteClaims(cluster: string, routes: set<CidrText>): set<Claim> {
    set v | v in routes :: Claim(v, Route(cluster))
  }

  function EntryClaims(entries: set<Entry>): set<Claim> {
    set e | e in entries :: Claim(e.virtual, LocalRange(e.actual))
  }

  function ClaimsOf(site: Site, p: PeerSpec): set<Claim> {
    RouteClaims(p.clusterID, RoutesOf(site, p)) + EntryClaims(EntriesOf(site, p))
  }

  function AllClaims(site: Site, peers: seq<PeerSpec>): set<Claim> {
    if peers == [] then {} else AllClaims(site, peers[..|peers| - 1]) + ClaimsOf(site, peers[|peers| - 1])
  }

  function AllEntries(site: Site, peers: seq<PeerSpec>): set<Entry> {
    if peers == [] then {} else AllEntries(site, peers[..|peers| - 1]) + EntriesOf(site, peers[|peers| - 1])
  }

  ghost predicate AllSucceed(site: Site, peers: seq<PeerSpec>) {
    forall p :: p in peers ==> PlanSucceeds(site, p)
  }

  /** No virtual range is claimed by two owners. */
  ghost predicate Functional(claims: set<Claim>) {
    forall a, b :: a in claims && b in claims && a.virtual == b.virtual ==> a == b
  }

  ghost predicate Consistent(site: Site, peers: seq<PeerSpec>) {
    AllSucceed(site, peers) && Functional(AllClaims(site, peers))
  }

  // ---- The claim table --------------------------------------------------------------------------------------

  ghost predicate Tabled(owner: map<CidrText, Owner>, claims: set<Claim>) {
    && (forall c :: c in claims ==> c.virtual in owner && owner[c.virtual] == c.owner)
    && (forall v :: v in owner ==> Claim(v, owner[v]) in claims)
  }

  method ClaimOne(owner: map<CidrText, Owner>, c: Claim, ghost claims: set<Claim>) returns (ok: bool, owner': map<CidrText, Owner>)
    requires Tabled(owner, claims)
    ensures ok ==> Tabled(owner', claims + {c})
    ensures !ok ==> !Functional(claims + {c})
  {
    if c.virtual in owner && owner[c.virtual] != c.owner {
      assert Claim(c.virtual, owner[c.virtual]) in claims + {c} && c in claims + {c};
      return false, owner;
    }
    return true, owner[c.virtual := c.owner];
  }

  lemma FunctionalSubset(small: set<Claim>, large: set<Claim>)
    requires small <= large && !Functional(small)
    ensures !Functional(large)
  {
  }

  lemma TabledIsFunctional(owner: map<CidrText, Owner>, claims: set<Claim>)
    requires Tabled(owner, claims)
    ensures Functional(claims)
  {
  }

  lemma RouteClaimsStep(cluster: string, routes: seq<CidrText>, i: nat)
    requires i < |routes|
    ensures RouteClaims(cluster, Elements(routes[..i + 1])) == RouteClaims(cluster, Elements(routes[..i])) + {Claim(routes[i], Route(cluster))}
    ensures RouteClaims(cluster, Elements(routes[..i + 1])) <= RouteClaims(cluster, Elements(routes))
  {
    PrefixElements(routes, i);
  }

  lemma EntryClaimsStep(entries: seq<Entry>, i: nat)
    requires i < |entries|
    ensures (EntryClaims(Elements(entries[..i + 1])) ==
              EntryClaims(Elements(entries[..i])) + {Claim(entries[i].virtual, LocalRange(entries[i].actual))})
    ensures EntryClaims(Elements(entries[..i + 1])) <= EntryClaims(Elements(entries))
    ensures Elements(entries[..i + 1]) == Elements(entries[..i]) + {entries[i]}
  {
    PrefixElements(entries, i);
  }

  method ClaimRoutes(owner: map<CidrText, Owner>, cluster: string, routes: seq<CidrText>, ghost claims: set<Claim>)
      returns (ok: bool, owner': map<CidrText, Owner>)
    requires Tabled(owner, claims)
    ensures ok ==> Tabled(owner', claims + RouteClaims(cluster, Elements(routes)))
    ensures !ok ==> !Functional(claims + RouteClaims(cluster, Elements(routes)))
  {
    owner' := owner;
    ghost var now := claims;
    for i := 0 to |routes|
      invariant now == claims + RouteClaims(cluster, Elements(routes[..i])) && Tabled(owner', now)
    {
      RouteClaimsStep(cluster, routes, i);
      var c := Claim(routes[i], Route(cluster));
      ok, owner' := ClaimOne(owner', c, now);
      if !ok {
        FunctionalSubset(now + {c}, claims + RouteClaims(cluster, Elements(routes)));
        return;
      }
      now := now + {c};
    }
    assert routes[..|routes|] == routes;
    return true, owner';
  }

  method ClaimEntries(owner: map<CidrText, Owner>, locals: seq<Entry>, seen: set<Entry>, out: seq<Entry>, ghost claims: set<Claim>)
      returns (ok: bool, owner': map<CidrText, Owner>, seen': set<Entry>, out': seq<Entry>)
    requires Tabled(owner, claims) && seen == Elements(out) && NoDup(out)
    ensures ok ==> Tabled(owner', claims + EntryClaims(Elements(locals)))
    ensures ok ==> seen' == Elements(out') == seen + Elements(locals) && NoDup(out')
    ensures !ok ==> !Functional(claims + EntryClaims(Elements(locals)))
  {
    owner', seen', out' := owner, seen, out;
    ghost var now := claims;
    for i := 0 to |locals|
      invariant now == claims + EntryClaims(Elements(locals[..i])) && Tabled(owner', now)
      invariant seen' == Elements(out') == seen + Elements(locals[..i]) && NoDup(out')
    {
      EntryClaimsStep(locals, i);
      var e := locals[i];
      var c := Claim(e.virtual, LocalRange(e.actual));
      ok, owner' := ClaimOne(owner', c, now);
      if !ok {
        FunctionalSubset(now + {c}, claims + EntryClaims(Elements(locals)));
        return;
      }
      now := now + {c};
      if e in seen' {
        continue;
      }
      seen' := seen' + {e};
      ElementsAppend(out', [e]);
      out' := out' + [e];
    }
    assert locals[..|locals|] == locals;
    return true, owner', seen', out';
  }

  // ---- From a plan to claims --------------------------------------------------------------------------------

  lemma EntriesAt(entries: seq<Entry>, e: Entry)
    requires e.actual in Elements(Reals(entries))
    requires forall x :: x in entries && x.actual == e.actual ==> x == e
    ensures e in entries
  {
    var reals := Reals(entries);
    var i :| 0 <= i < |reals| && reals[i] == e.actual;
    assert entries[i] in entries;
  }

  lemma PlanEntries(site: Site, texts: set<CidrText>, entries: seq<Entry>)
    requires Elements(Reals(entries)) == texts
    requires forall e :: e in entries ==> VirtualCIDR(site.hash, site.pool, site.clusterID, e.actual) == Some(e.virtual)
    ensures Elements(entries) == PairUp(site, texts)
  {
    forall e ensures e in Elements(entries) <==> e in PairUp(site, texts) {
      if e in entries {
        var i :| 0 <= i < |entries| && entries[i] == e;
        assert Reals(entries)[i] in Elements(Reals(entries));
      }
      if e in PairUp(site, texts) {
        EntriesAt(entries, e);
      }
    }
  }

  lemma NothingToPlan(site: Site, p: PeerSpec)
    requires Remapped(site, p) == {}
    ensures PlanSucceeds(site, p) && ClaimsOf(site, p) == {} && EntriesOf(site, p) == {}
  {
  }

  lemma AllStep(site: Site, peers: seq<PeerSpec>, i: nat)
    requires i < |peers|
    ensures AllClaims(site, peers[..i + 1]) == AllClaims(site, peers[..i]) + ClaimsOf(site, peers[i])
    ensures AllEntries(site, peers[..i + 1]) == AllEntries(site, peers[..i]) + EntriesOf(site, peers[i])
  {
    assert peers[..i + 1][..i] == peers[..i];
  }

  lemma {:induction false} AllClaimsMonotone(site: Site, peers: seq<PeerSpec>, i: nat)
    requires i <= |peers|
    ensures AllClaims(site, peers[..i]) <= AllClaims(site, peers)
    decreases |peers| - i
  {
    if i == |peers| {
      assert peers[..i] == peers;
    } else {
      AllStep(site, peers, i);
      AllClaimsMonotone(site, peers, i + 1);
    }
  }

  lemma {:induction false} AllEntriesMonotone(site: Site, peers: seq<PeerSpec>, i: nat)
    requires i <= |peers|
    ensures AllEntries(site, peers[..i]) <= AllEntries(site, peers)
    decreases |peers| - i
  {
    if i == |peers| {
      assert peers[..i] == peers;
    } else {
      AllStep(site, peers, i);
      AllEntriesMonotone(site, peers, i + 1);
    }
  }

  /** `buildEntries`. It succeeds exactly when every peer's plan does and no virtual range has two owners
      anywhere; then it returns each local pair some peer needs, once. */
  method BuildEntries(site: Site, peers: seq<PeerSpec>) returns (r: EntriesResult)
    ensures r.Built? <==> Consistent(site, peers)
    ensures r.Built? ==> NoDup(r.entries) && Elements(r.entries) == AllEntries(site, peers)
  {
    var owner: map<CidrText, Owner> := map[];
    var seen: set<Entry> := {};
    var out: seq<Entry> := [];
    ghost var claims: set<Claim> := {};
    for i := 0 to |peers|
      invariant AllSucceed(site, peers[..i])
      invariant claims == AllClaims(site, peers[..i]) && Tabled(owner, claims)
      invariant seen == Elements(out) == AllEntries(site, peers[..i]) && NoDup(out)
    {
      var p := peers[i];
      AllStep(site, peers, i);
      AllClaimsMonotone(site, peers, i + 1);
      if p.publicKey == "" {
        NothingToPlan(site, p);
        continue;
      }
      var _, conflicts := Partition(p.cidrs, site.ranges);
      conflicts := ExcludeDangerous(conflicts);
      if conflicts == [] {
        NothingToPlan(site, p);
        continue;
      }
      var rp := PlanRemap(site.hash, site.pool, site.clusterID, site.ranges, p.clusterID, conflicts);
      if rp.Err? {
        assert p in peers && !PlanSucceeds(site, p);
        return Refused;
      }
      PlanEntries(site, Overlapped(Remapped(site, p), Elements(ParseList(site.ranges))), rp.plan.locals);
      ghost var withRoutes := claims + RouteClaims(p.clusterID, RoutesOf(site, p));
      var ok;
      ok, owner := ClaimRoutes(owner, p.clusterID, rp.plan.routeVirtual, claims);
      if !ok {
        FunctionalSubset(withRoutes, AllClaims(site, peers));
        return Refused;
      }
      ok, owner, seen, out := ClaimEntries(owner, rp.plan.locals, seen, out, withRoutes);
      claims := withRoutes + EntryClaims(EntriesOf(site, p));
      if !ok {
        FunctionalSubset(claims, AllClaims(site, peers));
        return Refused;
      }
    }
    assert peers[..|peers|] == peers;
    TabledIsFunctional(owner, claims);
    r := Built(out);
  }

  // ---- What a successful build guarantees --------------------------------------------------------------------

  lemma {:induction false} EntryShape(site: Site, peers: seq<PeerSpec>, e: Entry)
    requires e in AllEntries(site, peers)
    ensures VirtualCIDR(site.hash, site.pool, site.clusterID, e.actual) == Some(e.virtual)
    ensures exists b :: b in ParseList(site.ranges) && e.actual == CanonText(b)
    ensures Claim(e.virtual, LocalRange(e.actual)) in AllClaims(site, peers)
  {
    var n := |peers| - 1;
    if e in AllEntries(site, peers[..n]) {
      EntryShape(site, peers[..n], e);
    } else {
      assert e in EntriesOf(site, peers[n]);
      assert Claim(e.virtual, LocalRange(e.actual)) in ClaimsOf(site, peers[n]);
    }
  }

  lemma RouteClaimed(site: Site, peers: seq<PeerSpec>, i: nat, v: CidrText)
    requires i < |peers| && v in RoutesOf(site, peers[i])
    ensures Claim(v, Route(peers[i].clusterID)) in AllClaims(site, peers)
  {
    AllStep(site, peers, i);
    AllClaimsMonotone(site, peers, i + 1);
    assert Claim(v, Route(peers[i].clusterID)) in ClaimsOf(site, peers[i]);
  }

  /** Real and virtual ranges determine each other. */
  lemma OneToOne(site: Site, peers: seq<PeerSpec>, e: Entry, f: Entry)
    requires Consistent(site, peers) && e in AllEntries(site, peers) && f in AllEntries(site, peers)
    ensures e.actual == f.actual <==> e.virtual == f.virtual
  {
    EntryShape(site, peers, e);
    EntryShape(site, peers, f);
  }

  /** No range presented locally is also routed towards a peer. */
  lemma LocalNeverRouted(site: Site, peers: seq<PeerSpec>, e: Entry, i: nat)
    requires Consistent(site, peers) && e in AllEntries(site, peers) && i < |peers|
    ensures e.virtual !in RoutesOf(site, peers[i])
  {
    EntryShape(site, peers, e);
    if e.virtual in RoutesOf(site, peers[i]) {
      RouteClaimed(site, peers, i, e.virtual);
      assert false;
    }
  }

  /** Peers with distinct cluster IDs are routed under different virtual ranges. */
  lemma RoutesDisjoint(site: Site, peers: seq<PeerSpec>, i: nat, j: nat)
    requires Consistent(site, peers) && i < |peers| && j < |peers| && peers[i].clusterID != peers[j].clusterID
    ensures RoutesOf(site, peers[i]) !! RoutesOf(site, peers[j])
  {
    forall v | v in RoutesOf(site, peers[i]) ensures v !in RoutesOf(site, peers[j]) {
      if v in RoutesOf(site, peers[j]) {
        RouteClaimed(site, peers, i, v);
        RouteClaimed(site, peers, j, v);
        assert false;
      }
    }
  }

  lemma RenamedPeer(site: Site, p: PeerSpec, name: string)
    ensures var q := p.(name := name);
      && SourcesFor(site, q) == SourcesFor(site, p)
      && RoutesOf(site, q) == RoutesOf(site, p) && EntriesOf(site, q) == EntriesOf(site, p)
  {
    assert Remapped(site, p.(name := name)) == Remapped(site, p);
  }

  lemma TwoPeers(site: Site, p: PeerSpec, q: PeerSpec)
    ensures AllClaims(site, [p]) == ClaimsOf(site, p)
    ensures AllClaims(site, [p, q]) == ClaimsOf(site, p) + ClaimsOf(site, q)
  {
    AllStep(site, [p], 0);
    AllStep(site, [p, q], 1);
    assert [p][..1] == [p] && [p][..0] == [];
    assert [p, q][..1] == [p] && [p, q][..2] == [p, q];
  }

  /** Claims name the cluster and not the peer, so a second peer of the same cluster passes unnoticed
      although every one of its routes is already taken. */
  lemma SameClusterPasses(site: Site, p: PeerSpec, name: string)
    requires Consistent(site, [p])
    ensures Consistent(site, [p, p.(name := name)]) && RoutesOf(site, p.(name := name)) == RoutesOf(site, p)
  {
    var q := p.(name := name);
    RenamedPeer(site, p, name);
    TwoPeers(site, p, q);
    assert ClaimsOf(site, q) == ClaimsOf(site, p);
    assert p in [p];
  }

  /** Pairs of one prefix length are presented under aligned blocks of the pool, disjoint unless equal. */
  lemma EqualLengthsDisjoint(site: Site, peers: seq<PeerSpec>, e: Entry, f: Entry)
    requires Consistent(site, peers) && e in AllEntries(site, peers) && f in AllEntries(site, peers)
    requires e.actual.V4? && f.actual.V4? && e.actual.ones == f.actual.ones
    ensures Net(e.virtual).Some? && Net(f.virtual).Some?
    ensures Overlap(Net(e.virtual).value, Net(f.virtual).value) <==> e == f
  {
    EntryShape(site, peers, e);
    EntryShape(site, peers, f);
    VirtualInPool(site.hash, site.pool, site.clusterID, e.actual);
    VirtualInPool(site.hash, site.pool, site.clusterID, f.actual);
    CanonicalIsCanonText(e.virtual);
    CanonicalIsCanonText(f.virtual);
    SameLengthDisjoint(Net(e.virtual).value, Net(f.virtual).value);
    OneToOne(site, peers, e, f);
  }

  /** Every claimed range is the virtual range of some source. */
  lemma {:induction false} ClaimShape(site: Site, peers: seq<PeerSpec>, c: Claim)
    requires c in AllClaims(site, peers)
    ensures exists cluster, actual :: VirtualCIDR(site.hash, site.pool, cluster, actual) == Some(c.virtual)
  {
    var n := |peers| - 1;
    if c in AllClaims(site, peers[..n]) {
      ClaimShape(site, peers[..n], c);
    } else {
      assert c in ClaimsOf(site, peers[n]);
    }
  }

  /** The range is a canonical block inside the pool. */
  ghost predicate InPool(pool: CidrText, v: CidrText) {
    && Canonical(v) && Net(pool).Some?
    && Net(pool).value.base <= v.ip && v.ip + Size(v.ones) <= Net(pool).value.base + Size(Net(pool).value.ones)
  }

  lemma ClaimInPool(site: Site, peers: seq<PeerSpec>, c: Claim)
    requires c in AllClaims(site, peers)
    ensures InPool(site.pool, c.virtual)
  {
    ClaimShape(site, peers, c);
    var cluster, actual :| VirtualCIDR(site.hash, site.pool, cluster, actual) == Some(c.virtual);
    VirtualInPool(site.hash, site.pool, cluster, actual);
  }

  /** All virtual ranges, routed ones included, lie inside the pool, and two of one prefix length share an address only
      when one owner claims them as one range. */
  lemma ClaimsApart(site: Site, peers: seq<PeerSpec>, c: Claim, d: Claim)
    requires Consistent(site, peers) && c in AllClaims(site, peers) && d in AllClaims(site, peers)
    ensures InPool(site.pool, c.virtual) && InPool(site.pool, d.virtual)
    ensures c.virtual.ones == d.virtual.ones ==> (Overlap(Net(c.virtual).value, Net(d.virtual).value) <==> c == d)
  {
    ClaimInPool(site, peers, c);
    ClaimInPool(site, peers, d);
    CanonicalIsCanonText(c.virtual);
    CanonicalIsCanonText(d.virtual);
    if c.virtual.ones == d.virtual.ones {
      SameLengthDisjoint(Net(c.virtual).value, Net(d.virtual).value);
    }
  }

  /** A presented and a routed range of one length share no address. */
  lemma PresentedApartFromRouted(site: Site, peers: seq<PeerSpec>, e: Entry, i: nat, v: CidrText)
    requires Consistent(site, peers) && e in AllEntries(site, peers) && i < |peers| && v in RoutesOf(site, peers[i])
    ensures InPool(site.pool, e.virtual) && InPool(site.pool, v)
    ensures e.virtual.ones == v.ones ==> !Overlap(Net(e.virtual).value, Net(v).value)
  {
    EntryShape(site, peers, e);
    RouteClaimed(site, peers, i, v);
    ClaimsApart(site, peers, Claim(e.virtual, LocalRange(e.actual)), Claim(v, Route(peers[i].clusterID)));
  }

  /** Two routed ranges of one length share an address only when they are one range of one cluster. */
  lemma RoutedApart(site: Site, peers: seq<PeerSpec>, i: nat, v: CidrText, j: nat, w: CidrText)
    requires Consistent(site, peers) && i < |peers| && v in RoutesOf(site, peers[i]) && j < |peers| && w in RoutesOf(site, peers[j])
    ensures InPool(site.pool, v) && InPool(site.pool, w)
    ensures v.ones == w.ones ==> (Overlap(Net(v).value, Net(w).value) <==> v == w && peers[i].clusterID == peers[j].clusterID)
  {
    RouteClaimed(site, peers, i, v);
    RouteClaimed(site, peers, j, w);
    ClaimsApart(site, peers, Claim(v, Route(peers[i].clusterID)), Claim(w, Route(peers[j].clusterID)));
  }

  /** One IPv6 range of one peer that overlaps an IPv6 range of ours refuses the table for all peers. */
  lemma Overlap6Refuses(site: Site, peers: seq<PeerSpec>, p: PeerSpec, c: CidrText)
    requires p in peers && p.publicKey != "" && c in p.cidrs && c.V6? && !Dangerous6(c.net) && OverlapsAny6(c.net, ParseList6(site.ranges))
    ensures !Consistent(site, peers)
  {
    CollectMember((c: CidrText) => if Withheld(c, site.ranges) then [c] else [], p.cidrs, c);
    CollectMember((c: CidrText) => if IsDangerousText(c) then [] else [c], Conflicts(p.cidrs, site.ranges), c);
    assert c in Parsed(Remapped(site, p));
    assert Peer(p.clusterID, c) in SourcesFor(site, p);
    assert VirtualOf(site.hash, site.pool)(Peer(p.clusterID, c)).None?;
  }
}
