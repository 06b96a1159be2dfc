/** From planning to packets: what the NETMAP rules of two overlapping clusters do to their traffic. */
module RemapDelivery {
  import opened Cidr
  import opened Order
  import opened RemapText
  import opened Remap
  import opened RemapAgreement
  import opened RemapController
  import opened Netmap

  /** No two local ranges share an address. */
  ghost predicate RangesDisjoint(ranges: seq<CidrText>) {
    forall a, b :: a in ParseList(ranges) && b in ParseList(ranges) && Overlap(a, b) ==> a == b
  }

  ghost predicate OneLength(entries: set<Entry>, ones: Ones) {
    forall e :: e in entries ==> e.actual.V4? && e.actual.ones == ones
  }

  /** The entries `BuildEntries` returns, in any order. */
  ghost predicate Programmed(site: Site, peers: seq<PeerSpec>, es: seq<Entry>) {
    Consistent(site, peers) && Elements(es) == AllEntries(site, peers) && NoDup(es)
  }

  /** No two remapped local ranges share an address. */
  ghost predicate RealsApart(entries: set<Entry>) {
    forall e, f :: e in entries && f in entries && Net(e.actual).Some? && Net(f.actual).Some? && Overlap(Net(e.actual).value, Net(f.actual).value) ==> e == f
  }

  lemma EntryIsV4(site: Site, peers: seq<PeerSpec>, e: Entry)
    requires e in AllEntries(site, peers)
    ensures EntryV4(e) && e.actual.ones == e.virtual.ones
  {
    EntryShape(site, peers, e);
  }

  lemma ProgrammedV4(site: Site, peers: seq<PeerSpec>, es: seq<Entry>)
    requires Programmed(site, peers, es)
    ensures AllEntryV4(es)
  {
    forall i | 0 <= i < |es| ensures EntryV4(es[i]) {
      assert es[i] in Elements(es);
      EntryIsV4(site, peers, es[i]);
    }
  }

  lemma RealsDisjoint(site: Site, peers: seq<PeerSpec>, e: Entry, f: Entry)
    requires Consistent(site, peers) && RangesDisjoint(site.ranges) && e in AllEntries(site, peers) && f in AllEntries(site, peers)
    requires Net(e.actual).Some? && Net(f.actual).Some? && Overlap(Net(e.actual).value, Net(f.actual).value)
    ensures e == f
  {
    EntryShape(site, peers, e);
    EntryShape(site, peers, f);
    var a :| a in ParseList(site.ranges) && e.actual == CanonText(a);
    var b :| b in ParseList(site.ranges) && f.actual == CanonText(b);
    BlockIsCanonical(a);
    BlockIsCanonical(b);
    OneToOne(site, peers, e, f);
  }

  /** Disjoint local ranges are enough for that. */
  lemma DisjointRangesApart(site: Site, peers: seq<PeerSpec>)
    requires Consistent(site, peers) && RangesDisjoint(site.ranges)
    ensures RealsApart(AllEntries(site, peers))
  {
    forall e, f | e in AllEntries(site, peers) && f in AllEntries(site, peers)
        && Net(e.actual).Some? && Net(f.actual).Some? && Overlap(Net(e.actual).value, Net(f.actual).value)
      ensures e == f
    {
      RealsDisjoint(site, peers, e, f);
    }
  }

  lemma ProgrammedSized(site: Site, peers: seq<PeerSpec>, es: seq<Entry>)
    requires Programmed(site, peers, es)
    ensures AllEntryV4(es) && Sized(Table(es))
  {
    ProgrammedV4(site, peers, es);
    forall i | 0 <= i < |es| ensures Table(es)[i].from.ones == Table(es)[i].to.ones {
      assert es[i] in Elements(es);
      EntryIsV4(site, peers, es[i]);
    }
  }

  /** An entry translates the whole of its range when no other entry's range meets it. */
  lemma EntryTranslates(site: Site, peers: seq<PeerSpec>, es: seq<Entry>, k: nat, addr: nat)
    requires Programmed(site, peers, es) && RealsApart(AllEntries(site, peers)) && AllEntryV4(es)
    requires k < |es| && Contains(Net(es[k].actual).value, addr)
    ensures Translates(Table(es), k, addr)
  {
    forall j | 0 <= j < k ensures !Contains(Table(es)[j].from, addr) {
      assert es[k] in Elements(es) && es[j] in Elements(es) && es[k] != es[j];
      OverlapExact(Table(es)[j].from, Table(es)[k].from);
    }
  }

  /** Equal lengths and disjoint local ranges make the translation bijective. */
  lemma ProgrammedBijective(site: Site, peers: seq<PeerSpec>, es: seq<Entry>, ones: Ones)
    requires Programmed(site, peers, es) && RangesDisjoint(site.ranges) && OneLength(AllEntries(site, peers), ones)
    ensures AllEntryV4(es) && Bijective(Table(es))
  {
    ProgrammedSized(site, peers, es);
    var ms := Table(es);
    forall m | m in ms ensures m.from.ones == m.to.ones {
      var i :| 0 <= i < |ms| && ms[i] == m;
    }
    forall m, o | m in ms && o in ms
      ensures Overlap(m.from, o.from) ==> m == o
      ensures Overlap(m.to, o.to) ==> m == o
    {
      var i :| 0 <= i < |ms| && ms[i] == m;
      var j :| 0 <= j < |ms| && ms[j] == o;
      assert es[i] in Elements(es) && es[j] in Elements(es);
      if Overlap(m.from, o.from) {
        RealsDisjoint(site, peers, es[i], es[j]);
      }
      EqualLengthsDisjoint(site, peers, es[i], es[j]);
    }
  }

  /** Built entries print differently, so the rule builder may take them. */
  lemma ProgrammedPrintApart(site: Site, peers: seq<PeerSpec>, es: seq<Entry>)
    requires Programmed(site, peers, es)
    ensures KeptOf(es) == Elements(es) && PrintApart(KeptOf(es))
  {
    ProgrammedV4(site, peers, es);
    forall e | e in es ensures EntryV4(e) {
      var i :| 0 <= i < |es| && es[i] == e;
    }
    EntriesPrintApart(KeptOf(es));
  }

  /** Inbound NETMAP undoes outbound NETMAP on an address exactly when no earlier rule's virtual range holds the address it
      is presented under, or it is neither presented nor somebody's presented address. */
  lemma InboundUndoesOutbound(site: Site, peers: seq<PeerSpec>, es: seq<Entry>, addr: nat)
    requires Programmed(site, peers, es)
    ensures AllEntryV4(es)
    ensures Inbound(Printed(es), Outbound(Printed(es), addr)) == addr <==> Undone(Table(es), addr)
  {
    ProgrammedSized(site, peers, es);
    RulesRoundTripExactly(es, addr);
  }

  /** All remapped hosts are restored, whatever the order of the rules, if and only if no two virtual ranges share an
      address. */
  lemma AllHostsRestoredExactly(site: Site, peers: seq<PeerSpec>, es: seq<Entry>)
    requires Programmed(site, peers, es) && RealsApart(AllEntries(site, peers))
    ensures AllEntryV4(es)
    ensures HostsRestored(es) <==> TargetsApart(Table(es))
  {
    ProgrammedSized(site, peers, es);
    var ms := Table(es);
    forall i, j | 0 <= i < j < |ms| ensures !Overlap(ms[i].from, ms[j].from) {
      assert es[i] in Elements(es) && es[j] in Elements(es) && es[i] != es[j];
    }
    RulesRestoreExactly(es);
  }

  /** With one prefix length the virtual ranges are disjoint, and only the second way to fail remains. */
  lemma EqualLengthsUndo(site: Site, peers: seq<PeerSpec>, es: seq<Entry>, ones: Ones, addr: nat)
    requires Programmed(site, peers, es) && RealsApart(AllEntries(site, peers)) && OneLength(AllEntries(site, peers), ones)
    ensures AllEntryV4(es)
    ensures Inbound(Printed(es), Outbound(Printed(es), addr)) == addr <==> Hits(Table(es), addr) || !Hits(Flip(Table(es)), addr)
  {
    InboundUndoesOutbound(site, peers, es, addr);
    var ms := Table(es);
    if m :| m in ms && Contains(m.from, addr) {
      var i :| 0 <= i < |ms| && ms[i] == m;
      EntryTranslates(site, peers, es, i, addr);
      NoEarlierTarget(site, peers, es, ones, i, addr);
    }
  }

  /** Equal lengths: nobody else's virtual range holds the presented address. */
  lemma NoEarlierTarget(site: Site, peers: seq<PeerSpec>, es: seq<Entry>, ones: Ones, i: nat, addr: nat)
    requires Programmed(site, peers, es) && OneLength(AllEntries(site, peers), ones)
    requires AllEntryV4(es) && Translates(Table(es), i, addr)
    ensures forall j :: 0 <= j < i ==> !Contains(Table(es)[j].to, Apply(Table(es), addr))
  {
    ProgrammedSized(site, peers, es);
    var ms := Table(es);
    RestoredExactly(ms, i, addr);
    forall j | 0 <= j < i ensures !Contains(ms[j].to, Apply(ms, addr)) {
      assert es[i] in Elements(es) && es[j] in Elements(es) && es[j] != es[i];
      EqualLengthsDisjoint(site, peers, es[j], es[i]);
      OverlapExact(ms[j].to, ms[i].to);
    }
  }

  // ---- Two clusters ------------------------------------------------------------------------------------------------------

  /** Site `a` lists site `b` as a peer that advertises exactly its own ranges. */
  predicate Peered(p: PeerSpec, b: Site) {
    p.publicKey != "" && p.clusterID == b.clusterID && p.cidrs == b.ranges
  }

  lemma PresentedEntry(site: Site, p: PeerSpec, c: CidrText)
    requires PlanSucceeds(site, p) && c in Overlapped(Remapped(site, p), Elements(ParseList(site.ranges)))
    ensures VirtualCIDR(site.hash, site.pool, site.clusterID, c).Some?
    ensures Entry(c, VirtualCIDR(site.hash, site.pool, site.clusterID, c).value) in EntriesOf(site, p)
  {
    assert Local(site.clusterID, c) in SourcesFor(site, p);
    assert VirtualOf(site.hash, site.pool)(Local(site.clusterID, c)).Some?;
  }

  lemma RoutedVirtual(site: Site, p: PeerSpec, c: CidrText)
    requires p.publicKey != "" && AllCanonical(p.cidrs) && NoneDangerous(p.cidrs)
    requires c in p.cidrs && OverlapsOne(c, site.ranges) && VirtualCIDR(site.hash, site.pool, p.clusterID, c).Some?
    ensures VirtualCIDR(site.hash, site.pool, p.clusterID, c).value in RoutesOf(site, p)
  {
    WithheldMeaning(c, site.ranges);
    ConflictsMember(p.cidrs, site.ranges, c);
    ExcludeMember(Conflicts(p.cidrs, site.ranges), c);
    assert c in Parsed(Remapped(site, p));
  }

  lemma EntryOfPeer(site: Site, peers: seq<PeerSpec>, j: nat, e: Entry)
    requires j < |peers| && e in EntriesOf(site, peers[j])
    ensures e in AllEntries(site, peers)
  {
    AllStep(site, peers, j);
    AllEntriesMonotone(site, peers, j + 1);
  }

  /** The overlapped range of `b` containing the host is presented by `b` and routed by `a` under one virtual range. */
  lemma SharedVirtual(a: Site, p: PeerSpec, b: Site, q: PeerSpec, c: CidrText) returns (v: CidrText)
    requires a.hash == b.hash && a.pool == b.pool && Peered(p, b) && Peered(q, a)
    requires AllCanonical(a.ranges) && AllCanonical(b.ranges) && NoneDangerous(a.ranges) && NoneDangerous(b.ranges)
    requires PlanSucceeds(b, q) && c in b.ranges && OverlapsOne(c, a.ranges)
    ensures Entry(c, v) in EntriesOf(b, q) && v in RoutesOf(a, p) && VirtualCIDR(b.hash, b.pool, b.clusterID, c) == Some(v)
  {
    assert OverlapsSafe(c, a.ranges) by {
      var x :| x in a.ranges && Net(x).Some? && Net(c).Some? && Overlap(Net(x).value, Net(c).value);
      assert !IsDangerousText(x);
    }
    PresentedTexts(a.ranges, b.ranges, c);
    PresentedEntry(b, q, c);
    v := VirtualCIDR(b.hash, b.pool, b.clusterID, c).value;
    RoutedVirtual(a, p, c);
  }

  lemma EntryInRanges(site: Site, peers: seq<PeerSpec>, e: Entry)
    requires e in AllEntries(site, peers) && AllCanonical(site.ranges)
    ensures e.actual in site.ranges && VirtualCIDR(site.hash, site.pool, site.clusterID, e.actual) == Some(e.virtual)
  {
    EntryShape(site, peers, e);
    var n :| n in ParseList(site.ranges) && e.actual == CanonText(n);
    ParseListMember(site.ranges, n);
    var t :| t in site.ranges && Net(t) == Some(n);
    CanonicalIsCanonText(t);
  }

  /** What `a` routes towards a peer are virtual ranges of the peer's ranges that overlap its own. */
  lemma RouteIsOverlapped(a: Site, p: PeerSpec, v: CidrText) returns (c: CidrText)
    requires AllCanonical(p.cidrs) && v in RoutesOf(a, p)
    ensures c in p.cidrs && OverlapsOne(c, a.ranges) && VirtualCIDR(a.hash, a.pool, p.clusterID, c) == Some(v)
  {
    c :| c in Parsed(Remapped(a, p)) && VirtualCIDR(a.hash, a.pool, p.clusterID, c) == Some(v);
    ExcludeMember(Conflicts(p.cidrs, a.ranges), c);
    ConflictsMember(p.cidrs, a.ranges, c);
    WithheldMeaning(c, a.ranges);
  }

  /** `a` routes the range `b` presents exactly the overlapped ones of its ranges under. */
  lemma PresentedIsRoutedExactly(a: Site, p: PeerSpec, b: Site, peersB: seq<PeerSpec>, j: nat, e: Entry)
    requires a.hash == b.hash && a.pool == b.pool && j < |peersB| && Peered(p, b) && Peered(peersB[j], a)
    requires AllCanonical(a.ranges) && AllCanonical(b.ranges) && NoneDangerous(a.ranges) && NoneDangerous(b.ranges)
    requires Consistent(b, peersB) && e in AllEntries(b, peersB)
    ensures e.virtual in RoutesOf(a, p) <==> OverlapsOne(e.actual, a.ranges)
  {
    EntryInRanges(b, peersB, e);
    if OverlapsOne(e.actual, a.ranges) {
      RoutedVirtual(a, p, e.actual);
    }
    if e.virtual in RoutesOf(a, p) {
      var c := RouteIsOverlapped(a, p, e.virtual);
      var v := SharedVirtual(a, p, b, peersB[j], c);
      EntryOfPeer(b, peersB, j, Entry(c, v));
      OneToOne(b, peersB, e, Entry(c, v));
    }
  }

  /** Delivery, for every host of `b` in a range that overlaps one of `a`'s: `b` presents it under the virtual range of
      the first entry that holds it. `a` routes that range towards `b` if and only if that entry's real range overlaps one
      of `a`'s. `b`'s inbound rules turn the presented address back into the host if and only if no earlier rule's virtual
      range holds it. With the roles exchanged the same holds of the reply. */
  lemma Delivery(a: Site, peersA: seq<PeerSpec>, i: nat, b: Site, peersB: seq<PeerSpec>, j: nat, es: seq<Entry>,
      c: CidrText, host: nat) returns (k: nat)
    requires a.hash == b.hash && a.pool == b.pool && i < |peersA| && j < |peersB| && Peered(peersA[i], b) && Peered(peersB[j], a)
    requires AllCanonical(a.ranges) && AllCanonical(b.ranges) && NoneDangerous(a.ranges) && NoneDangerous(b.ranges)
    requires Programmed(b, peersB, es)
    requires c in b.ranges && OverlapsOne(c, a.ranges) && Net(c).Some? && Contains(Net(c).value, host)
    ensures AllEntryV4(es) && Translates(Table(es), k, host)
    ensures Contains(Net(es[k].virtual).value, Outbound(Printed(es), host))
    ensures es[k].virtual in RoutesOf(a, peersA[i]) <==> OverlapsOne(es[k].actual, a.ranges)
    ensures Inbound(Printed(es), Outbound(Printed(es), host)) == host
       <==> forall j :: 0 <= j < k ==> !Contains(Net(es[j].virtual).value, Outbound(Printed(es), host))
  {
    var n := PresentedAt(a, peersA[i], b, peersB, j, es, c);
    ProgrammedSized(b, peersB, es);
    k := FirstHit(Table(es), n, host);
    assert es[k] in Elements(es);
    PresentedIsRoutedExactly(a, peersA[i], b, peersB, j, es[k]);
    RestoredInOrder(es, k, host);
  }

  /** An overlapped range has an entry, and its virtual range is routed. */
  lemma PresentedAt(a: Site, p: PeerSpec, b: Site, peersB: seq<PeerSpec>, j: nat, es: seq<Entry>, c: CidrText) returns (n: nat)
    requires a.hash == b.hash && a.pool == b.pool && j < |peersB| && Peered(p, b) && Peered(peersB[j], a)
    requires AllCanonical(a.ranges) && AllCanonical(b.ranges) && NoneDangerous(a.ranges) && NoneDangerous(b.ranges)
    requires Programmed(b, peersB, es) && c in b.ranges && OverlapsOne(c, a.ranges)
    ensures n < |es| && es[n].actual == c && es[n].virtual in RoutesOf(a, p)
  {
    var v := SharedVirtual(a, p, b, peersB[j], c);
    EntryOfPeer(b, peersB, j, Entry(c, v));
    assert Entry(c, v) in Elements(es);
    n :| n < |es| && es[n] == Entry(c, v);
  }

  /** Where no two of `b`'s remapped ranges share an address, the entry is the range's own and `a` routes it. */
  lemma DeliveredThroughOwnRange(a: Site, peersA: seq<PeerSpec>, i: nat, b: Site, peersB: seq<PeerSpec>, j: nat, es: seq<Entry>,
      c: CidrText, host: nat) returns (k: nat)
    requires a.hash == b.hash && a.pool == b.pool && i < |peersA| && j < |peersB| && Peered(peersA[i], b) && Peered(peersB[j], a)
    requires AllCanonical(a.ranges) && AllCanonical(b.ranges) && NoneDangerous(a.ranges) && NoneDangerous(b.ranges)
    requires Programmed(b, peersB, es) && RealsApart(AllEntries(b, peersB))
    requires c in b.ranges && OverlapsOne(c, a.ranges) && Net(c).Some? && Contains(Net(c).value, host)
    ensures k < |es| && AllEntryV4(es) && es[k].actual == c && es[k].virtual in RoutesOf(a, peersA[i])
    ensures Contains(Net(es[k].virtual).value, Outbound(Printed(es), host))
    ensures Inbound(Printed(es), Outbound(Printed(es), host)) == host
       <==> forall j :: 0 <= j < k ==> !Contains(Net(es[j].virtual).value, Outbound(Printed(es), host))
  {
    k := PresentedAt(a, peersA[i], b, peersB, j, es, c);
    ProgrammedSized(b, peersB, es);
    EntryTranslates(b, peersB, es, k, host);
    RestoredInOrder(es, k, host);
  }

  lemma RestoredInOrder(es: seq<Entry>, k: nat, host: nat)
    requires AllEntryV4(es) && Sized(Table(es)) && Translates(Table(es), k, host)
    ensures Contains(Net(es[k].virtual).value, Outbound(Printed(es), host))
    ensures Inbound(Printed(es), Outbound(Printed(es), host)) == host
       <==> forall j :: 0 <= j < k ==> !Contains(Net(es[j].virtual).value, Outbound(Printed(es), host))
  {
    TablesOfRules(es);
    RestoredExactly(Table(es), k, host);
    assert forall j :: 0 <= j < k ==> Table(es)[j].to == Net(es[j].virtual).value;
  }

  /** Where no two of `b`'s virtual ranges share an address, every such host is reached. */
  lemma DeliveredWhenDisjoint(a: Site, peersA: seq<PeerSpec>, i: nat, b: Site, peersB: seq<PeerSpec>, j: nat, es: seq<Entry>,
      c: CidrText, host: nat)
    requires a.hash == b.hash && a.pool == b.pool && i < |peersA| && j < |peersB| && Peered(peersA[i], b) && Peered(peersB[j], a)
    requires AllCanonical(a.ranges) && AllCanonical(b.ranges) && NoneDangerous(a.ranges) && NoneDangerous(b.ranges)
    requires Programmed(b, peersB, es) && AllEntryV4(es) && Bijective(Table(es))
    requires c in b.ranges && OverlapsOne(c, a.ranges) && Net(c).Some? && Contains(Net(c).value, host)
    ensures Inbound(Printed(es), Outbound(Printed(es), host)) == host
  {
    BijectiveApart(b, peersB, es);
    var k := DeliveredThroughOwnRange(a, peersA, i, b, peersB, j, es, c, host);
    TablesOfRules(es);
    MappedAndBack(Table(es), Table(es)[k], host);
  }

  lemma BijectiveApart(site: Site, peers: seq<PeerSpec>, es: seq<Entry>)
    requires Programmed(site, peers, es) && AllEntryV4(es) && Bijective(Table(es))
    ensures RealsApart(AllEntries(site, peers))
  {
    forall e, f | e in AllEntries(site, peers) && f in AllEntries(site, peers)
        && Net(e.actual).Some? && Net(f.actual).Some? && Overlap(Net(e.actual).value, Net(f.actual).value)
      ensures e == f
    {
      assert e in Elements(es) && f in Elements(es);
      var p :| 0 <= p < |es| && es[p] == e;
      var q :| 0 <= q < |es| && es[q] == f;
      assert Table(es)[p] in Table(es) && Table(es)[q] in Table(es);
      assert Table(es)[p] == Table(es)[q];
      EntryShape(site, peers, e);
      EntryShape(site, peers, f);
      CanonicalEntries(site, e, f);
    }
  }

  lemma CanonicalEntries(site: Site, e: Entry, f: Entry)
    requires (exists b :: b in ParseList(site.ranges) && e.actual == CanonText(b)) && (exists b :: b in ParseList(site.ranges) && f.actual == CanonText(b))
    requires VirtualCIDR(site.hash, site.pool, site.clusterID, e.actual) == Some(e.virtual)
    requires VirtualCIDR(site.hash, site.pool, site.clusterID, f.actual) == Some(f.virtual)
    requires Net(e.actual) == Net(f.actual)
    ensures e == f
  {
    var a :| a in ParseList(site.ranges) && e.actual == CanonText(a);
    var b :| b in ParseList(site.ranges) && f.actual == CanonText(b);
    BlockIsCanonical(a);
    BlockIsCanonical(b);
  }

  /** In particular where all of them have one prefix length. */
  lemma DeliveredWithOneLength(a: Site, peersA: seq<PeerSpec>, i: nat, b: Site, peersB: seq<PeerSpec>, j: nat, es: seq<Entry>, ones: Ones,
      c: CidrText, host: nat)
    requires a.hash == b.hash && a.pool == b.pool && i < |peersA| && j < |peersB| && Peered(peersA[i], b) && Peered(peersB[j], a)
    requires AllCanonical(a.ranges) && AllCanonical(b.ranges) && NoneDangerous(a.ranges) && NoneDangerous(b.ranges)
    requires Programmed(b, peersB, es) && RangesDisjoint(b.ranges) && OneLength(AllEntries(b, peersB), ones)
    requires c in b.ranges && OverlapsOne(c, a.ranges) && Net(c).Some? && Contains(Net(c).value, host)
    ensures Inbound(Printed(es), Outbound(Printed(es), host)) == host
  {
    DisjointRangesApart(b, peersB);
    var k := DeliveredThroughOwnRange(a, peersA, i, b, peersB, j, es, c, host);
    EqualLengthsUndo(b, peersB, es, ones, host);
    assert Table(es)[k] in Table(es);
  }

  // ---- Nested ranges pass the claim check -------------------------------------------------------------------------------

  /** A hash that sends the keys of cluster "b" to 1 and the others to 0. */
  function NestingHash(key: string): Word {
    if key != "" && key[0] == 'b' then 1 else 0
  }

  ghost predicate Nestable(pool: CidrText, a: CidrText, b: CidrText) {
    && Net(pool).Some? && Canonical(a) && Canonical(b) && !IsDangerousText(a) && !IsDangerousText(b)
    && Net(pool).value.ones < a.ones < b.ones
  }

  /** The k-th range of the pool, for the two slots used here. */
  lemma NestingSlot(pool: CidrText, cluster: string, c: CidrText, k: nat)
    requires Net(pool).Some? && Canonical(c) && Net(pool).value.ones < c.ones && k < 2
    requires cluster == if k == 1 then "b" else "a"
    ensures (var base := Net(pool).value.base + k * Size(c.ones);
      base < WORD && VirtualCIDR(NestingHash, pool, cluster, c) == Some(V4(base, c.ones)) && Canonical(V4(base, c.ones)))
  {
    NestingKey(cluster, Show(c));
    SmallIndex(k, c.ones - Net(pool).value.ones);
    SlotInPool(Net(pool).value, c.ones, k);
  }

  lemma NestingKey(cluster: string, text: string)
    requires cluster == "a" || cluster == "b"
    ensures NestingHash(cluster + "|" + text) == if cluster == "b" then 1 else 0
  {
    assert (cluster + "|" + text)[0] == cluster[0];
  }

  lemma SmallIndex(k: nat, n: nat)
    requires k < 2 && n > 0
    ensures k % Pow2(n) == k && k < Pow2(n)
  {
    assert Pow2(n) == 2 * Pow2(n - 1);
    BelowModulus(k, Pow2(n));
  }

  /** `a` and `b` are what the site remaps of the peer and what it presents. */
  ghost predicate Shared(site: Site, p: PeerSpec, a: CidrText, b: CidrText) {
    Remapped(site, p) == {a, b} && Overlapped({a, b}, Elements(ParseList(site.ranges))) == {a, b}
  }

  lemma NestingSite(pool: CidrText, a: CidrText, b: CidrText) returns (site: Site, p: PeerSpec)
    requires Nestable(pool, a, b)
    ensures site.hash == NestingHash && site.pool == pool && site.clusterID == "a" && p.clusterID == "b" && Shared(site, p, a, b)
  {
    var ranges := [a, b];
    site, p := Site(NestingHash, pool, "a", ranges), PeerSpec("peer", "b", "key", ranges);
    var remapped := Remapped(site, p);
    forall c ensures c in remapped <==> c in {a, b} {
      ConflictsMember(ranges, ranges, c);
      ExcludeMember(Conflicts(ranges, ranges), c);
      if c in ranges {
        WithheldMeaning(c, ranges);
        assert Overlap(Net(c).value, Net(c).value);
      }
    }
    forall c ensures c in Overlapped({a, b}, Elements(ParseList(ranges))) <==> c in {a, b} {
      if c in Overlapped({a, b}, Elements(ParseList(ranges))) {
        var n, d :| n in Elements(ParseList(ranges)) && d in {a, b} && OverlapsText(n, d) && c == CanonText(n);
        ParseListMember(ranges, n);
      }
      if c in ranges {
        ParseListMember(ranges, Net(c).value);
        assert OverlapsText(Net(c).value, c) && CanonText(Net(c).value) == c;
      }
    }
  }

  /** Both clusters have the ranges `a` and `b`, which get four different virtual ranges. */
  ghost predicate Pairing(site: Site, p: PeerSpec, a: CidrText, b: CidrText, la: CidrText, lb: CidrText, ra: CidrText, rb: CidrText) {
    && a.V4? && b.V4? && a != b && Shared(site, p, a, b)
    && VirtualCIDR(site.hash, site.pool, site.clusterID, a) == Some(la) && VirtualCIDR(site.hash, site.pool, site.clusterID, b) == Some(lb)
    && VirtualCIDR(site.hash, site.pool, p.clusterID, a) == Some(ra) && VirtualCIDR(site.hash, site.pool, p.clusterID, b) == Some(rb)
    && la != lb && la != ra && la != rb && lb != ra && lb != rb && ra != rb
  }

  lemma PairSources(localID: string, locals: set<Block>, peerID: string, a: CidrText, b: CidrText)
    requires a.V4? && b.V4? && Overlapped({a, b}, locals) == {a, b}
    ensures PlanSources(localID, locals, peerID, {a, b}) == {Peer(peerID, a), Peer(peerID, b), Local(localID, a), Local(localID, b)}
  {
    assert Parsed({a, b}) == {a, b};
    SourcePairs(localID, peerID, a, b);
  }

  lemma SourcePairs(localID: string, peerID: string, a: CidrText, b: CidrText)
    ensures (PeerSources(peerID, {a, b}) + LocalSources(localID, {a, b}) ==
               {Peer(peerID, a), Peer(peerID, b), Local(localID, a), Local(localID, b)})
  {
    assert PeerSources(peerID, {a, b}) == {Peer(peerID, a), Peer(peerID, b)};
    assert LocalSources(localID, {a, b}) == {Local(localID, a), Local(localID, b)};
  }

  lemma FourApart(f: Allocation, s0: Source, s1: Source, s2: Source, s3: Source)
    requires f(s0).Some? && f(s1).Some? && f(s2).Some? && f(s3).Some?
    requires f(s0) != f(s1) && f(s0) != f(s2) && f(s0) != f(s3) && f(s1) != f(s2) && f(s1) != f(s3) && f(s2) != f(s3)
    ensures CollisionFree(f, {s0, s1, s2, s3})
  {
  }

  lemma PairPlanSucceeds(site: Site, p: PeerSpec, a: CidrText, b: CidrText, la: CidrText, lb: CidrText, ra: CidrText, rb: CidrText)
    requires Pairing(site, p, a, b, la, lb, ra, rb)
    ensures PlanSucceeds(site, p)
  {
    PairSources(site.clusterID, Elements(ParseList(site.ranges)), p.clusterID, a, b);
    FourApart(VirtualOf(site.hash, site.pool), Peer(p.clusterID, a), Peer(p.clusterID, b), Local(site.clusterID, a), Local(site.clusterID, b));
  }

  lemma PairRoutes(hash: Hash, pool: CidrText, cluster: string, a: CidrText, b: CidrText, va: CidrText, vb: CidrText)
    requires a.V4? && b.V4? && VirtualCIDR(hash, pool, cluster, a) == Some(va) && VirtualCIDR(hash, pool, cluster, b) == Some(vb)
    ensures VirtualSet(hash, pool, cluster, Parsed({a, b})) == {va, vb}
  {
    assert Parsed({a, b}) == {a, b};
  }

  lemma PairEntries(site: Site, a: CidrText, b: CidrText, va: CidrText, vb: CidrText)
    requires VirtualCIDR(site.hash, site.pool, site.clusterID, a) == Some(va) && VirtualCIDR(site.hash, site.pool, site.clusterID, b) == Some(vb)
    ensures PairUp(site, {a, b}) == {Entry(a, va), Entry(b, vb)}
  {
  }

  lemma PairFunctional(cluster: string, a: CidrText, b: CidrText, la: CidrText, lb: CidrText, ra: CidrText, rb: CidrText)
    requires la != lb && la != ra && la != rb && lb != ra && lb != rb && ra != rb
    ensures Functional(RouteClaims(cluster, {ra, rb}) + EntryClaims({Entry(a, la), Entry(b, lb)}))
  {
  }

  lemma PairClaims(site: Site, p: PeerSpec, a: CidrText, b: CidrText, la: CidrText, lb: CidrText, ra: CidrText, rb: CidrText)
    requires Pairing(site, p, a, b, la, lb, ra, rb)
    ensures EntriesOf(site, p) == {Entry(a, la), Entry(b, lb)} && Functional(ClaimsOf(site, p))
  {
    PairRoutes(site.hash, site.pool, p.clusterID, a, b, ra, rb);
    PairEntries(site, a, b, la, lb);
    PairFunctional(p.clusterID, a, b, la, lb, ra, rb);
  }

  lemma OnePeer(site: Site, p: PeerSpec)
    requires PlanSucceeds(site, p) && Functional(ClaimsOf(site, p))
    ensures Consistent(site, [p]) && AllEntries(site, [p]) == EntriesOf(site, p)
  {
    AllStep(site, [p], 0);
    assert [p][..1] == [p] && [p][..0] == [];
  }

  /** The two lengths get two ranges each: here the first of the pool, there the second. */
  lemma NestingSlots(pool: CidrText, a: CidrText, b: CidrText, cluster: string, k: nat) returns (va: CidrText, vb: CidrText)
    requires Nestable(pool, a, b) && k < 2 && cluster == if k == 1 then "b" else "a"
    ensures VirtualCIDR(NestingHash, pool, cluster, a) == Some(va) && VirtualCIDR(NestingHash, pool, cluster, b) == Some(vb)
    ensures va.V4? && va.ones == a.ones && va.ip == Net(pool).value.base + k * Size(a.ones)
    ensures vb.V4? && vb.ones == b.ones && vb.ip == Net(pool).value.base + k * Size(b.ones)
  {
    NestingSlot(pool, cluster, a, k);
    NestingSlot(pool, cluster, b, k);
    va, vb := VirtualCIDR(NestingHash, pool, cluster, a).value, VirtualCIDR(NestingHash, pool, cluster, b).value;
  }

  lemma NestingIsPairing(site: Site, p: PeerSpec, a: CidrText, b: CidrText) returns (la: CidrText, lb: CidrText, ra: CidrText, rb: CidrText)
    requires Nestable(site.pool, a, b) && site.hash == NestingHash && site.clusterID == "a" && p.clusterID == "b" && Shared(site, p, a, b)
    ensures Pairing(site, p, a, b, la, lb, ra, rb)
    ensures la.V4? && la.ones == a.ones && lb.V4? && lb.ones == b.ones && la.ip == lb.ip == Net(site.pool).value.base
  {
    la, lb := NestingSlots(site.pool, a, b, site.clusterID, 0);
    ra, rb := NestingSlots(site.pool, a, b, p.clusterID, 1);
    assert la != ra && lb != rb;
  }

  lemma PairingConsistent(site: Site, p: PeerSpec, a: CidrText, b: CidrText, la: CidrText, lb: CidrText, ra: CidrText, rb: CidrText)
    requires Pairing(site, p, a, b, la, lb, ra, rb)
    ensures Consistent(site, [p]) && AllEntries(site, [p]) == {Entry(a, la), Entry(b, lb)}
  {
    PairPlanSucceeds(site, p, a, b, la, lb, ra, rb);
    PairClaims(site, p, a, b, la, lb, ra, rb);
    OnePeer(site, p);
  }

  /** Claims compare texts, so ranges of unequal length nest unnoticed: for any pool and any two safe ranges of unequal
      length there are a site and a peer that have both and pass every check, with the longer range presented inside the
      shorter one's. Whichever order the rule builder prints, the first host of one of the two is then not restored. */
  lemma NestedEntriesPass(pool: CidrText, a: CidrText, b: CidrText) returns (site: Site, p: PeerSpec, e: Entry, f: Entry)
    requires Nestable(pool, a, b) && !Overlap(Net(a).value, Net(b).value)
    ensures site.pool == pool && Consistent(site, [p]) && AllEntries(site, [p]) == {e, f} && e.actual == a && f.actual == b
    ensures Canonical(e.virtual) && e.virtual.ones == a.ones && Canonical(f.virtual) && f.virtual.ones == b.ones && e.virtual.ip == f.virtual.ip
    ensures Net(e.virtual).Some? && Net(f.virtual).Some? && Overlap(Net(e.virtual).value, Net(f.virtual).value)
    ensures forall rules :: RulesOf({e, f}, rules) ==> Inbound(rules, Outbound(rules, a.ip)) != a.ip || Inbound(rules, Outbound(rules, b.ip)) != b.ip
  {
    site, p := NestingSite(pool, a, b);
    var la, lb, ra, rb := NestingIsPairing(site, p, a, b);
    PairingConsistent(site, p, a, b, la, lb, ra, rb);
    e, f := Entry(a, la), Entry(b, lb);
    NestedPair(Net(pool).value, e, f);
    forall rules | RulesOf({e, f}, rules) ensures Inbound(rules, Outbound(rules, a.ip)) != a.ip || Inbound(rules, Outbound(rules, b.ip)) != b.ip {
      PairOrders(e, f, rules);
    }
  }

  /** The builder prints two entries in one of the two orders. */
  lemma PairOrders(e: Entry, f: Entry, rules: seq<NetmapRule>)
    requires e != f && RulesOf({e, f}, rules)
    ensures rules == Printed([e, f]) || rules == Printed([f, e])
  {
    var es :| RulesFor({e, f}, es, rules);
    LessEntryWeak();
    StrictIsDistinct(LessEntry, es);
    DistinctCount(es);
    assert es[0] in Elements(es) && es[1] in Elements(es);
    assert es == [e, f] || es == [f, e];
  }

  lemma NestedPair(pool: Block, e: Entry, f: Entry)
    requires Canonical(e.actual) && Canonical(f.actual) && pool.ones < e.actual.ones < f.actual.ones
    requires !Overlap(Net(e.actual).value, Net(f.actual).value)
    requires pool.base < WORD && e.virtual == V4(pool.base, e.actual.ones) && f.virtual == V4(pool.base, f.actual.ones)
    ensures Canonical(e.virtual) && Canonical(f.virtual) && Overlap(Net(e.virtual).value, Net(f.virtual).value)
    ensures Inbound(Printed([e, f]), Outbound(Printed([e, f]), f.actual.ip)) != f.actual.ip
    ensures Inbound(Printed([f, e]), Outbound(Printed([f, e]), e.actual.ip)) != e.actual.ip
  {
    SlotInPool(pool, e.actual.ones, 0);
    SlotInPool(pool, f.actual.ones, 0);
    CanonicalIsCanonText(e.virtual);
    CanonicalIsCanonText(f.virtual);
    ContainsIsRange(Net(e.virtual).value, pool.base);
    NestedPairMisroutes(e, f);
    NestedPairMisroutes(f, e);
  }

  lemma NestedPairMisroutes(e: Entry, f: Entry)
    requires EntryV4(e) && EntryV4(f) && Canonical(f.actual) && e.actual.ones == e.virtual.ones && f.actual.ones == f.virtual.ones
    requires !Overlap(Net(e.actual).value, Net(f.actual).value)
    requires Canonical(e.virtual) && Canonical(f.virtual) && e.virtual.ip == f.virtual.ip
    ensures Inbound(Printed([e, f]), Outbound(Printed([e, f]), f.actual.ip)) != f.actual.ip
  {
    var es, host := [e, f], f.actual.ip;
    var ms := Table(es);
    assert Sized(ms) && Contains(ms[1].from, host);
    OverlapExact(ms[0].from, ms[1].from);
    assert Translates(ms, 1, host);
    TablesOfRules(es);
    RestoredExactly(ms, 1, host);
    ApplyAt(ms, 1, host);
    assert Apply(ms, host) == f.virtual.ip;
  }
}
