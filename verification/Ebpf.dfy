/** pkg/dataplane/ebpf: the longest-prefix maps that must translate like the NETMAP rules. */
module Ebpf {
  import opened Cidr
  import opened Order
  import opened RemapText
  import opened Remap
  import opened Netmap
  import opened LiveMap

  /** A trie key and the block it is rewritten onto. */
  type TrieItem = Item<Block, Block>

  datatype RemapMaps = RemapMaps(ingress: seq<TrieItem>, egress: seq<TrieItem>)

  datatype MapsResult = Maps(maps: RemapMaps) | Rejected

  /** Both sides parse as IPv4 and have one size: what a 1:1 rewrite needs. */
  predicate Rewritable(e: Entry) {
    EntryV4(e) && e.actual.ones == e.virtual.ones
  }

  function IngressItem(e: Entry): TrieItem
    requires EntryV4(e)
  {
    Item(Net(e.virtual).value, Net(e.actual).value)
  }

  function EgressItem(e: Entry): TrieItem
    requires EntryV4(e)
  {
    Item(Net(e.actual).value, Net(e.virtual).value)
  }

  predicate LessKey(a: TrieItem, b: TrieItem) {
    LessText(CanonText(a.key), CanonText(b.key))
  }

  lemma LessKeyWeak()
    ensures WeakOrder(LessKey)
  {
    LessTextWeak();
  }

  function IngressSet(entries: set<Entry>): set<TrieItem>
    requires forall e :: e in entries ==> EntryV4(e)
  {
    set e | e in entries :: IngressItem(e)
  }

  function EgressSet(entries: set<Entry>): set<TrieItem>
    requires forall e :: e in entries ==> EntryV4(e)
  {
    set e | e in entries :: EgressItem(e)
  }

  ghost predicate AllRewritable(entries: set<Entry>) {
    forall e :: e in entries ==> Rewritable(e)
  }

  /** Every kept entry appears once per direction, and nothing else does. */
  ghost predicate MapsFor(entries: set<Entry>, maps: RemapMaps) {
    && AllRewritable(entries)
    && Elements(maps.ingress) == IngressSet(entries) && Sorted(LessKey, maps.ingress)
    && Elements(maps.egress) == EgressSet(entries) && Sorted(LessKey, maps.egress)
  }

  lemma ItemsStep(seen: set<Entry>, e: Entry, ingress: seq<TrieItem>, egress: seq<TrieItem>)
    requires Compiled(seen, ingress, egress) && Rewritable(e)
    ensures Compiled(seen + {e}, ingress + [IngressItem(e)], egress + [EgressItem(e)])
  {
    ElementsAppend(ingress, [IngressItem(e)]);
    ElementsAppend(egress, [EgressItem(e)]);
    assert IngressSet(seen + {e}) == IngressSet(seen) + {IngressItem(e)};
    assert EgressSet(seen + {e}) == EgressSet(seen) + {EgressItem(e)};
  }

  method AppendItems(ghost seen: set<Entry>, e: Entry, ingress: seq<TrieItem>, egress: seq<TrieItem>)
      returns (ingress': seq<TrieItem>, egress': seq<TrieItem>)
    requires Compiled(seen, ingress, egress) && Rewritable(e)
    ensures Compiled(seen + {e}, ingress', egress')
  {
    ItemsStep(seen, e, ingress, egress);
    ingress', egress' := ingress + [IngressItem(e)], egress + [EgressItem(e)];
  }

  lemma RejectedEntry(entries: seq<Entry>, i: nat)
    requires i < |entries| && Kept(entries[i]) && !Rewritable(entries[i])
    ensures !AllRewritable(KeptOf(entries))
  {
    assert entries[i] in KeptOf(entries);
  }

  /** What has been compiled so far. */
  ghost predicate Compiled(seen: set<Entry>, ingress: seq<TrieItem>, egress: seq<TrieItem>) {
    AllRewritable(seen) && Elements(ingress) == IngressSet(seen) && Elements(egress) == EgressSet(seen)
  }

  method CompileEntries(entries: seq<Entry>) returns (ok: bool, ingress: seq<TrieItem>, egress: seq<TrieItem>)
    ensures ok <==> AllRewritable(KeptOf(entries))
    ensures ok ==> Compiled(KeptOf(entries), ingress, egress)
  {
    var seen: set<Entry> := {};
    ingress, egress := [], [];
    for i := 0 to |entries|
      invariant seen == KeptOf(entries[..i]) && Compiled(seen, ingress, egress)
    {
      var e := entries[i];
      KeptStep(entries, i);
      if !Kept(e) || e in seen {
        continue;
      }
      if !e.actual.V4? || !e.virtual.V4? || e.actual.ones != e.virtual.ones {
        RejectedEntry(entries, i);
        return false, ingress, egress;
      }
      ingress, egress := AppendItems(seen, e, ingress, egress);
      seen := seen + {e};
    }
    assert entries[..|entries|] == entries;
    ok := true;
  }

  /** `BuildRemapMaps` fails exactly when a kept entry is not a pair of equal-sized IPv4 prefixes. */
  method BuildRemapMaps(entries: seq<Entry>) returns (r: MapsResult)
    ensures r.Maps? <==> AllRewritable(KeptOf(entries))
    ensures r.Maps? ==> MapsFor(KeptOf(entries), r.maps)
    ensures r.Maps? ==> forall i, j :: 0 <= i < j < |r.maps.ingress| ==> !StringLess(Show(CanonText(r.maps.ingress[j].key)), Show(CanonText(r.maps.ingress[i].key)))
    ensures r.Maps? ==> forall i, j :: 0 <= i < j < |r.maps.egress| ==> !StringLess(Show(CanonText(r.maps.egress[j].key)), Show(CanonText(r.maps.egress[i].key)))
  {
    var ok, ingress, egress := CompileEntries(entries);
    if !ok {
      return Rejected;
    }
    LessKeyWeak();
    var sortedIn := SortSlice(LessKey, ingress);
    var sortedEg := SortSlice(LessKey, egress);
    PermutationElements(ingress, sortedIn);
    PermutationElements(egress, sortedEg);
    r := Maps(RemapMaps(sortedIn, sortedEg));
  }

  lemma KeptStep(entries: seq<Entry>, i: nat)
    requires i < |entries|
    ensures KeptOf(entries[..i + 1]) == KeptOf(entries[..i]) + if Kept(entries[i]) then {entries[i]} else {}
  {
    PrefixElements(entries, i);
  }

  // ---- The manager --------------------------------------------------------------------------------------------------------

  ghost predicate Untouched(live: map<Block, Block>, history: seq<map<Block, Block>>, m: KernelMap<Block, Block>)
    reads m
  {
    m.live == live && m.history == history
  }

  class Manager {
    const ingress: KernelMap<Block, Block>
    const egress: KernelMap<Block, Block>

    constructor (ingress: KernelMap<Block, Block>, egress: KernelMap<Block, Block>)
      ensures this.ingress == ingress && this.egress == egress
    {
      this.ingress := ingress;
      this.egress := egress;
    }

    /** Bad entries are refused before anything is touched. A sync that fails half-way leaves each map without a
        gap; one that succeeds has run the diff on both. */
    method SyncRemap(entries: seq<Entry>) returns (ok: bool, ghost maps: RemapMaps)
      requires ingress != egress
      modifies ingress, egress
      ensures !AllRewritable(KeptOf(entries)) ==> !ok && Untouched(old(ingress.live), old(ingress.history), ingress) && Untouched(old(egress.live), old(egress.history), egress)
      ensures AllRewritable(KeptOf(entries)) ==> MapsFor(KeptOf(entries), maps)
      ensures Extends(old(ingress.live), maps.ingress, old(ingress.history), ingress.history)
      ensures Extends(old(egress.live), maps.egress, old(egress.history), egress.history)
      ensures (ok ==> (ingress.live == Reconciled(old(ingress.live), maps.ingress) &&
                        egress.live == Reconciled(old(egress.live), maps.egress)))
      ensures InSync(old(ingress.live), maps.ingress) ==> Untouched(old(ingress.live), old(ingress.history), ingress)
      ensures InSync(old(egress.live), maps.egress) ==> Untouched(old(egress.live), old(egress.history), egress)
    {
      maps := RemapMaps([], []);
      var r := BuildRemapMaps(entries);
      if r.Rejected? {
        return false, maps;
      }
      maps := r.maps;
      ok := Reconcile(ingress, r.maps.ingress);
      if !ok {
        return;
      }
      ok := Reconcile(egress, r.maps.egress);
    }
  }

  // ---- Longest-prefix lookup -----------------------------------------------------------------------------------------------

  lemma FloorNonNegative(x: nat, d: nat)
    requires d > 0
    ensures x / d * d >= 0
  {
    var q := x / d;
    assert q >= 0;
    MulMonotone(0, q, d);
  }

  function NetworkBits(addr: nat, ones: nat): (r: nat)
    requires ones <= 32
    ensures r == Masked(addr, ones)
  {
    FloorNonNegative(addr, Size(ones));
    Masked(addr, ones)
  }

  /** The longest key of at most `ones` bits that matches the address. */
  function Longest(m: map<Block, Block>, addr: nat, ones: int): Option<Prefix>
    requires ones <= 32
    decreases ones + 1
  {
    if ones < 0 then None
    else if Prefix(NetworkBits(addr, ones), ones) in m then Some(Prefix(NetworkBits(addr, ones), ones))
    else Longest(m, addr, ones - 1)
  }

  /** What the datapath does to an address: rewrite the network bits of the best match, or pass it. */
  function Rewrite(m: map<Block, Block>, addr: nat): nat {
    var k := Longest(m, addr, 32);
    if k.Some? && k.value in m then NetmapTo(m[k.value], addr) else addr
  }

  /** The walk finds a matching key at least as long as any other, or there is none. */
  lemma {:induction false} LongestMatch(m: map<Block, Block>, addr: nat, ones: int)
    requires ones <= 32
    ensures var k := Longest(m, addr, ones);
      && (k.Some? ==> k.value in m && Contains(k.value, addr))
      && (forall o :: o in m && o.ones <= ones && Contains(o, addr) ==> k.Some? && o.ones <= k.value.ones)
    decreases ones + 1
  {
    if ones >= 0 {
      LongestMatch(m, addr, ones - 1);
      forall o | o in m && o.ones == ones && Contains(o, addr) ensures o == Prefix(NetworkBits(addr, ones), ones) {
      }
    }
  }

  /** The map holds the table: one key per source range. */
  ghost predicate Holds(m: map<Block, Block>, ms: seq<Mapping>) {
    && (forall r :: r in ms ==> r.from in m && m[r.from] == r.to)
    && (forall k :: k in m ==> Mapping(k, m[k]) in ms)
  }

  /** No source range is listed with two targets. */
  ghost predicate Keyed(ms: seq<Mapping>) {
    forall r, o :: r in ms && o in ms && r.from == o.from ==> r == o
  }

  ghost predicate DistinctTargets(ms: seq<Mapping>) {
    forall r, o :: r in ms && o in ms && Overlap(r.to, o.to) ==> r == o
  }

  /** No range that holds the address is longer than the i-th. */
  ghost predicate NoLonger(ms: seq<Mapping>, i: nat, addr: nat)
    requires i < |ms|
  {
    forall r :: r in ms && Contains(r.from, addr) ==> r.from.ones <= ms[i].from.ones
  }

  /** The first listed range that holds the address is a longest one. */
  ghost predicate LongestFirst(ms: seq<Mapping>, addr: nat) {
    forall i: nat :: Translates(ms, i, addr) ==> NoLonger(ms, i, addr)
  }

  /** Blocks of one length that hold one address are one block. */
  lemma SameBlock(a: Block, b: Block, addr: nat)
    requires a.ones == b.ones && Contains(a, addr) && Contains(b, addr)
    ensures a == b
  {
  }

  /** Ranges that may nest: where an address is translated, longest-prefix lookup and first match agree on it if and only if
      the first listed range that holds it is a longest one. */
  lemma LookupAtExactly(m: map<Block, Block>, ms: seq<Mapping>, i: nat, addr: nat)
    requires Holds(m, ms) && Sized(ms) && DistinctTargets(ms) && Translates(ms, i, addr)
    ensures Rewrite(m, addr) == Apply(ms, addr) <==> NoLonger(ms, i, addr)
  {
    LongestMatch(m, addr, 32);
    ApplyAt(ms, i, addr);
    assert ms[i] in ms && ms[i].from in m;
    var k: Block := Longest(m, addr, 32).value;
    var best := Mapping(k, m[k]);
    assert best in ms && ms[i].from.ones <= k.ones;
    var n :| 0 <= n < |ms| && ms[n] == best;
    NetmapMoves(ms[i].from, ms[i].to, addr);
    NetmapMoves(best.from, best.to, addr);
    if k.ones == ms[i].from.ones {
      SameBlock(k, ms[i].from, addr);
    } else {
      OverlapExact(ms[i].to, best.to);
    }
  }

  lemma TranslatesOnce(ms: seq<Mapping>, i: nat, j: nat, addr: nat)
    requires Translates(ms, i, addr) && Translates(ms, j, addr)
    ensures i == j
  {
  }

  /** The same for every address. */
  lemma LookupExactly(m: map<Block, Block>, ms: seq<Mapping>, addr: nat)
    requires Holds(m, ms) && Sized(ms) && DistinctTargets(ms)
    ensures Rewrite(m, addr) == Apply(ms, addr) <==> LongestFirst(ms, addr)
  {
    if r :| r in ms && Contains(r.from, addr) {
      var n :| 0 <= n < |ms| && ms[n] == r;
      var i := FirstHit(ms, n, addr);
      LookupAtExactly(m, ms, i, addr);
      forall j: nat | Translates(ms, j, addr) ensures j == i {
        TranslatesOnce(ms, i, j, addr);
      }
    } else {
      LongestMatch(m, addr, 32);
      assert !Hits(ms, addr);
      ApplyMiss(ms, addr);
    }
  }

  /** For ranges that share no address, longest-prefix lookup and first match translate alike, whatever the
      order of the rules. */
  lemma LookupIsFirstMatch(m: map<Block, Block>, ms: seq<Mapping>, addr: nat)
    requires Holds(m, ms) && Bijective(ms)
    ensures Rewrite(m, addr) == Apply(ms, addr)
  {
    LongestMatch(m, addr, 32);
    var k := Longest(m, addr, 32);
    if k.Some? {
      OnlyHit(ms, Mapping(k.value, m[k.value]), addr);
    } else {
      forall r | r in ms ensures !Contains(r.from, addr) {
        assert r.from in m;
      }
      ApplyMiss(ms, addr);
    }
  }

  /** The converged map of the items holds their table. */
  lemma WantHolds(items: seq<TrieItem>, ms: seq<Mapping>)
    requires forall r :: r in ms <==> Item(r.from, r.to) in items
    requires Keyed(ms)
    ensures Holds(Want(items), ms)
  {
    forall r | r in ms ensures r.from in Want(items) && Want(items)[r.from] == r.to {
      WantMember(items, r.from);
      assert Item(r.from, r.to) in items;
      assert Mapping(r.from, Want(items)[r.from]) in ms;
    }
    forall k | k in Want(items) ensures Mapping(k, Want(items)[k]) in ms {
      WantMember(items, k);
    }
  }

  // ---- Both backends agree ----------------------------------------------------------------------------------------------------

  lemma EgressTable(entries: set<Entry>, es: seq<Entry>, maps: RemapMaps, r: Mapping)
    requires MapsFor(entries, maps) && Elements(es) == entries && AllEntryV4(es)
    ensures r in Table(es) <==> Item(r.from, r.to) in maps.egress
  {
    if r in Table(es) {
      var i :| 0 <= i < |es| && Table(es)[i] == r;
      assert es[i] in Elements(es);
      assert EgressItem(es[i]) in Elements(maps.egress);
    }
    if Item(r.from, r.to) in maps.egress {
      assert Item(r.from, r.to) in Elements(maps.egress);
      var e :| e in entries && EgressItem(e) == Item(r.from, r.to);
      assert e in Elements(es);
      var i :| 0 <= i < |es| && es[i] == e;
      assert Table(es)[i] in Table(es);
    }
  }

  lemma IngressTable(entries: set<Entry>, es: seq<Entry>, maps: RemapMaps, r: Mapping)
    requires MapsFor(entries, maps) && Elements(es) == entries && AllEntryV4(es)
    ensures r in Flip(Table(es)) <==> Item(r.from, r.to) in maps.ingress
  {
    FlipMember(Table(es), r);
    if r in Flip(Table(es)) {
      var i :| 0 <= i < |es| && Table(es)[i] == Mapping(r.to, r.from);
      assert es[i] in Elements(es);
      assert IngressItem(es[i]) in Elements(maps.ingress);
    }
    if Item(r.from, r.to) in maps.ingress {
      assert Item(r.from, r.to) in Elements(maps.ingress);
      var e :| e in entries && IngressItem(e) == Item(r.from, r.to);
      assert e in Elements(es);
      var i :| 0 <= i < |es| && es[i] == e;
      assert Table(es)[i] in Table(es);
    }
  }

  lemma TableUnambiguous(items: seq<TrieItem>, ms: seq<Mapping>)
    requires Keyed(ms) && forall r :: r in ms <==> Item(r.from, r.to) in items
    ensures Unambiguous(items)
  {
    forall e, f | e in items && f in items && e.key == f.key ensures e == f {
      assert Mapping(e.key, e.val) in ms && Mapping(f.key, f.val) in ms;
    }
  }

  /** A finished sync leaves exactly the table in the map. */
  lemma SyncedHolds(items: seq<TrieItem>, ms: seq<Mapping>, current: map<Block, Block>)
    requires Keyed(ms) && forall r :: r in ms <==> Item(r.from, r.to) in items
    ensures Holds(Reconciled(current, items), ms)
  {
    TableUnambiguous(items, ms);
    AlwaysConvergesExactly(items);
    WantHolds(items, ms);
  }

  lemma BijectiveKeyed(ms: seq<Mapping>)
    requires Bijective(ms)
    ensures Keyed(ms)
  {
    forall r, o | r in ms && o in ms && r.from == o.from ensures r == o {
      ContainsIsRange(r.from, r.from.base);
    }
  }

  /** Any finished sync leaves both kernel maps holding the tables of the iptables rules. */
  lemma SyncedMapsHold(entries: set<Entry>, es: seq<Entry>, maps: RemapMaps, ingress: map<Block, Block>, egress: map<Block, Block>)
    requires MapsFor(entries, maps) && Elements(es) == entries && AllEntryV4(es) && Keyed(Table(es)) && Keyed(Flip(Table(es)))
    ensures Holds(Reconciled(egress, maps.egress), Table(es)) && Holds(Reconciled(ingress, maps.ingress), Flip(Table(es)))
  {
    forall r: Mapping
      ensures r in Table(es) <==> Item(r.from, r.to) in maps.egress
      ensures r in Flip(Table(es)) <==> Item(r.from, r.to) in maps.ingress
    {
      EgressTable(entries, es, maps, r);
      IngressTable(entries, es, maps, r);
    }
    SyncedHolds(maps.egress, Table(es), egress);
    SyncedHolds(maps.ingress, Flip(Table(es)), ingress);
  }

  /** The two data planes are interchangeable: for a bijective table, any finished sync leaves kernel maps that
      rewrite every address exactly as the iptables rules built from the same entries do, in both directions. */
  lemma BackendsAgree(entries: set<Entry>, es: seq<Entry>, maps: RemapMaps, ingress: map<Block, Block>, egress: map<Block, Block>, addr: nat)
    requires MapsFor(entries, maps) && Elements(es) == entries && AllEntryV4(es) && Bijective(Table(es))
    ensures Rewrite(Reconciled(ingress, maps.ingress), addr) == Inbound(Printed(es), addr)
    ensures Rewrite(Reconciled(egress, maps.egress), addr) == Outbound(Printed(es), addr)
  {
    TablesOfRules(es);
    FlipBijective(Table(es));
    BijectiveKeyed(Table(es));
    BijectiveKeyed(Flip(Table(es)));
    SyncedMapsHold(entries, es, maps, ingress, egress);
    LookupIsFirstMatch(Reconciled(egress, maps.egress), Table(es), addr);
    LookupIsFirstMatch(Reconciled(ingress, maps.ingress), Flip(Table(es)), addr);
  }

  /** The real ranges share no address; the virtual ones are distinct but may nest. */
  ghost predicate RealsApartOnly(ms: seq<Mapping>) {
    Sized(ms) && Keyed(Flip(ms)) && forall r, o :: r in ms && o in ms && Overlap(r.from, o.from) ==> r == o
  }

  /** With virtual ranges that may nest, the two data planes translate every outgoing address alike, and an incoming one
      if and only if the first rule whose virtual range holds it has a longest one. */
  lemma BackendsAgreeExactly(entries: set<Entry>, es: seq<Entry>, maps: RemapMaps, ingress: map<Block, Block>, egress: map<Block, Block>, addr: nat)
    requires MapsFor(entries, maps) && Elements(es) == entries && AllEntryV4(es) && RealsApartOnly(Table(es))
    ensures Rewrite(Reconciled(egress, maps.egress), addr) == Outbound(Printed(es), addr)
    ensures Rewrite(Reconciled(ingress, maps.ingress), addr) == Inbound(Printed(es), addr) <==> LongestFirst(Flip(Table(es)), addr)
  {
    var ms := Table(es);
    TablesOfRules(es);
    SourcesKeyed(ms);
    SyncedMapsHold(entries, es, maps, ingress, egress);
    OneSourceLookup(Reconciled(egress, maps.egress), ms, addr);
    FlipTargets(ms);
    LookupExactly(Reconciled(ingress, maps.ingress), Flip(ms), addr);
  }

  lemma SourcesKeyed(ms: seq<Mapping>)
    requires RealsApartOnly(ms)
    ensures Keyed(ms)
  {
    forall r, o | r in ms && o in ms && r.from == o.from ensures r == o {
      ContainsIsRange(r.from, r.from.base);
    }
  }

  lemma FlipKeyed(ms: seq<Mapping>)
    requires forall r, o :: r in ms && o in ms && r.to == o.to ==> r == o
    ensures Keyed(Flip(ms))
  {
    forall r, o | r in Flip(ms) && o in Flip(ms) && r.from == o.from ensures r == o {
      FlipMember(ms, r);
      FlipMember(ms, o);
    }
  }

  lemma FlipTargets(ms: seq<Mapping>)
    requires RealsApartOnly(ms)
    ensures Sized(Flip(ms)) && DistinctTargets(Flip(ms))
  {
    forall r, o | r in Flip(ms) && o in Flip(ms) && Overlap(r.to, o.to) ensures r == o {
      FlipMember(ms, r);
      FlipMember(ms, o);
    }
  }

  lemma OneSourceLookup(m: map<Block, Block>, ms: seq<Mapping>, addr: nat)
    requires Holds(m, ms) && RealsApartOnly(ms)
    ensures Rewrite(m, addr) == Apply(ms, addr)
  {
    LongestMatch(m, addr, 32);
    var k := Longest(m, addr, 32);
    if k.Some? {
      var best := Mapping(k.value, m[k.value]);
      forall o | o in ms && Contains(o.from, addr) ensures o == best {
        OverlapExact(o.from, best.from);
      }
      ApplyHit(ms, best, addr);
    } else {
      assert !Hits(ms, addr);
      ApplyMiss(ms, addr);
    }
  }
}
