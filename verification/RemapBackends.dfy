/** Whether the kernel maps and the NETMAP rules built from one set of entries do the same. */
module RemapBackends {
  import opened Cidr
  import opened Order
  import opened Text
  import opened RemapText
  import opened Remap
  import opened RemapController
  import opened Netmap
  import opened RemapDelivery
  import opened LiveMap
  import opened Ebpf

  lemma BuiltTable(site: Site, peers: seq<PeerSpec>, es: seq<Entry>)
    requires Programmed(site, peers, es) && RealsApart(AllEntries(site, peers))
    ensures AllEntryV4(es) && RealsApartOnly(Table(es))
  {
    ProgrammedSized(site, peers, es);
    var ms := Table(es);
    forall r, o | r in ms && o in ms
      ensures Overlap(r.from, o.from) ==> r == o
      ensures r.to == o.to ==> r == o
    {
      var i :| 0 <= i < |ms| && ms[i] == r;
      var j :| 0 <= j < |ms| && ms[j] == o;
      assert es[i] in Elements(es) && es[j] in Elements(es);
      if r.to == o.to {
        SameVirtualNet(site, peers, es[i], es[j]);
      }
    }
    FlipKeyed(ms);
  }

  lemma SameVirtualNet(site: Site, peers: seq<PeerSpec>, e: Entry, f: Entry)
    requires Consistent(site, peers) && e in AllEntries(site, peers) && f in AllEntries(site, peers) && Net(e.virtual) == Net(f.virtual)
    ensures e == f
  {
    EntryShape(site, peers, e);
    EntryShape(site, peers, f);
    ClaimInPool(site, peers, RemapController.Claim(e.virtual, LocalRange(e.actual)));
    ClaimInPool(site, peers, RemapController.Claim(f.virtual, LocalRange(f.actual)));
    CanonicalIsCanonText(e.virtual);
    CanonicalIsCanonText(f.virtual);
    OneToOne(site, peers, e, f);
  }

  /** For every built table the two data planes present hosts alike. They read an incoming address alike if and only if the
      first rule whose virtual range holds it has a longest one. */
  lemma BuiltBackendsAgreeExactly(site: Site, peers: seq<PeerSpec>, es: seq<Entry>, maps: RemapMaps,
      ingress: map<Block, Block>, egress: map<Block, Block>, addr: nat)
    requires Programmed(site, peers, es) && RealsApart(AllEntries(site, peers)) && MapsFor(AllEntries(site, peers), maps)
    ensures AllEntryV4(es) && Rewrite(Reconciled(egress, maps.egress), addr) == Outbound(Printed(es), addr)
    ensures Rewrite(Reconciled(ingress, maps.ingress), addr) == Inbound(Printed(es), addr) <==> LongestFirst(Flip(Table(es)), addr)
  {
    BuiltTable(site, peers, es);
    BackendsAgreeExactly(AllEntries(site, peers), es, maps, ingress, egress, addr);
  }

  // ---- Nested ranges ----------------------------------------------------------------------------------------------------------

  /** Two disjoint ranges of unequal length presented from one address on. */
  ghost predicate NestedPairOf(e: Entry, f: Entry) {
    && Rewritable(e) && Rewritable(f) && Canonical(e.virtual) && Canonical(f.virtual)
    && e.virtual.ip == f.virtual.ip && e.virtual.ones < f.virtual.ones
    && !Overlap(Net(e.actual).value, Net(f.actual).value)
  }

  lemma PairRealsApartOnly(e: Entry, f: Entry)
    requires NestedPairOf(e, f) || NestedPairOf(f, e)
    ensures AllEntryV4([e, f]) && RealsApartOnly(Table([e, f]))
  {
    var ms := Table([e, f]);
    assert ms[0] == PairOf(e) && ms[1] == PairOf(f);
    forall r | r in ms ensures r == PairOf(e) || r == PairOf(f) {
    }
    CanonicalIsCanonText(e.virtual);
    CanonicalIsCanonText(f.virtual);
    FlipKeyed(ms);
  }

  /** The first of two nested ranges holds the shared address, and is a longest one only if it is the longer of the two. */
  lemma PairLongestFirst(e: Entry, f: Entry, wide: Entry)
    requires (NestedPairOf(e, f) && wide == e) || (NestedPairOf(f, e) && wide == f)
    ensures AllEntryV4([e, f]) && (LongestFirst(Flip(Table([e, f])), wide.virtual.ip) <==> wide == f)
  {
    var ms, base := Flip(Table([e, f])), wide.virtual.ip;
    assert ms[0].from == Net(e.virtual).value && ms[1].from == Net(f.virtual).value;
    assert Contains(ms[0].from, base) && Contains(ms[1].from, base);
    assert ms[0] in ms && ms[1] in ms;
    assert Translates(ms, 0, base);
    forall i: nat | Translates(ms, i, base) ensures i == 0 {
      TranslatesOnce(ms, 0, i, base);
    }
    assert LongestFirst(ms, base) <==> NoLonger(ms, 0, base);
    assert forall r :: r in ms ==> r == ms[0] || r == ms[1];
  }

  /** On the address both virtual ranges start with, the kernel map and the rules the builder prints agree if and only if the
      builder prints the longer range first. */
  lemma NestedBackendsExactly(e: Entry, f: Entry, rules: seq<NetmapRule>, maps: RemapMaps, ingress: map<Block, Block>)
    requires NestedPairOf(e, f) && RulesOf({e, f}, rules) && MapsFor({e, f}, maps)
    ensures Rewrite(Reconciled(ingress, maps.ingress), e.virtual.ip) == Inbound(rules, e.virtual.ip) <==> LessEntry(f, e)
  {
    var es :| RulesFor({e, f}, es, rules);
    LessEntryTriple(e, f, e);
    PairInOrder(e, f, es);
    if LessEntry(f, e) {
      PairRealsApartOnly(f, e);
      PairLongestFirst(f, e, e);
    } else {
      PairRealsApartOnly(e, f);
      PairLongestFirst(e, f, e);
    }
    assert Elements(es) == {e, f};
    BackendsAgreeExactly({e, f}, es, maps, ingress, map[], e.virtual.ip);
  }

  lemma PairInOrder(e: Entry, f: Entry, es: seq<Entry>)
    requires e != f && StrictlySorted(LessEntry, es) && Elements(es) == {e, f}
    ensures es == if LessEntry(f, e) then [f, e] else [e, f]
  {
    LessEntryWeak();
    StrictIsDistinct(LessEntry, es);
    DistinctCount(es);
    assert es[0] in Elements(es) && es[1] in Elements(es);
    assert es == [e, f] || es == [f, e];
    LessEntryTriple(e, f, e);
  }

  lemma {:induction false} StringLessSuffix(p: string, a: string, b: string)
    ensures StringLess(p + a, p + b) == StringLess(a, b)
  {
    if p == "" {
      assert p + a == a && p + b == b;
    } else {
      assert (p + a)[1..] == p[1..] + a && (p + b)[1..] == p[1..] + b;
      StringLessSuffix(p[1..], a, b);
    }
  }

  lemma TwoDigits(m: nat, n: nat)
    requires 10 <= m < n < 100
    ensures StringLess(Digits(m), Digits(n))
  {
    var a, b := Digits(m), Digits(n);
    assert Digits(m / 10) == [(48 + m / 10 % 10) as char] && Digits(n / 10) == [(48 + n / 10 % 10) as char];
    assert a == [(48 + m / 10) as char, (48 + m % 10) as char];
    assert b == [(48 + n / 10) as char, (48 + n % 10) as char];
    if m / 10 == n / 10 {
      assert m % 10 < n % 10;
      assert a[1..] == [(48 + m % 10) as char] && b[1..] == [(48 + n % 10) as char];
    }
  }

  /** From /10 on the shorter range is printed first, so the two data planes part on every such nested pair. */
  lemma NestedBackendsPart(e: Entry, f: Entry, rules: seq<NetmapRule>, maps: RemapMaps, ingress: map<Block, Block>)
    requires NestedPairOf(e, f) && e.virtual.ones >= 10 && RulesOf({e, f}, rules) && MapsFor({e, f}, maps)
    ensures Rewrite(Reconciled(ingress, maps.ingress), e.virtual.ip) != Inbound(rules, e.virtual.ip)
  {
    TextsInOrder(e.virtual.ip, e.virtual.ones, f.virtual.ones);
    LessEntryTriple(e, f, e);
    NestedBackendsExactly(e, f, rules, maps, ingress);
  }

  lemma TextsInOrder(ip: Word, m: Ones, n: Ones)
    requires 10 <= m < n
    ensures StringLess(Show(V4(ip, m)), Show(V4(ip, n))) && Show(V4(ip, m)) != Show(V4(ip, n))
  {
    TwoDigits(m, n);
    StringLessSuffix(Dotted(ip) + "/", Digits(m), Digits(n));
    StringLessIrreflexive(Show(V4(ip, m)));
  }

  /** And such pairs are built: for any pool of /9 or longer and any two safe, disjoint ranges of unequal length there are a
      site and a peer that pass every check, and an address on which the rules and the kernel map built from its entries
      part. */
  lemma NestedSiteParts(pool: CidrText, a: CidrText, b: CidrText) returns (site: Site, p: PeerSpec, addr: nat)
    requires Nestable(pool, a, b) && Net(pool).value.ones >= 9 && !Overlap(Net(a).value, Net(b).value)
    ensures site.pool == pool && Consistent(site, [p])
    ensures forall rules, maps, ingress :: RulesOf(AllEntries(site, [p]), rules) && MapsFor(AllEntries(site, [p]), maps) ==>
              Rewrite(Reconciled(ingress, maps.ingress), addr) != Inbound(rules, addr)
  {
    var e, f;
    site, p, e, f := NestedEntriesPass(pool, a, b);
    addr := e.virtual.ip;
    forall rules, maps, ingress | RulesOf({e, f}, rules) && MapsFor({e, f}, maps)
      ensures Rewrite(Reconciled(ingress, maps.ingress), addr) != Inbound(rules, addr)
    {
      NestedBackendsPart(e, f, rules, maps, ingress);
    }
  }
}
