/** pkg/topology/plan.go and remap.go: overlap detection and virtual ranges agreed without a broker. */
module Remap {
  import opened Cidr
  import opened Order
  import opened RemapText
  import Text

  /** FNV-32a of a text. */
  type Hash = string -> Word

  // ---- Virtual ranges ---------------------------------------------------------------------------------

  /** The index-th /ones range of the pool; the shift and the sum wrap at 32 bits. */
  function Slot(p: Block, ones: Ones, index: nat): CidrText {
    V4((p.base + (index * Size(ones)) % WORD) % WORD, ones)
  }

  /** A range of the pool, keyed by cluster and real text; None when the pool or the range does not fit. */
  function VirtualCIDR(hash: Hash, pool: CidrText, cluster: string, actual: CidrText): (r: Option<CidrText>)
    ensures r.Some? <==> Net(pool).Some? && Net(actual).Some? && Net(pool).value.ones <= Net(actual).value.ones
    ensures r.Some? ==> r.value.V4? && r.value.ones == Net(actual).value.ones
  {
    if Net(pool).None? || Net(actual).None? || Net(actual).value.ones < Net(pool).value.ones then None
    else
      var p, ones := Net(pool).value, Net(actual).value.ones;
      Some(Slot(p, ones, hash(cluster + "|" + Show(actual)) % Pow2(ones - p.ones)))
  }

  /** The slot wanted for a hashed text, whoever's it is. */
  ghost function WantedSlot(want: (string, CidrText) -> Word, text: string): Word {
    if exists k, c: CidrText :: c.V4? && text == k + "|" + Show(c)
    then var k, c: CidrText :| c.V4? && text == k + "|" + Show(c); want(k, c)
    else 0
  }

  lemma WantedSlotExactly(want: (string, CidrText) -> Word, k: string, c: CidrText)
    requires c.V4?
    ensures WantedSlot(want, k + "|" + Show(c)) == want(k, c)
  {
    var text := k + "|" + Show(c);
    assert exists k', c': CidrText :: c'.V4? && text == k' + "|" + Show(c');
    forall l, d: CidrText | d.V4? && text == l + "|" + Show(d) ensures l == k && d == c {
      SlotTextsDiffer(l, d, k, c);
    }
  }

  /** Distinct (cluster, IPv4 range) pairs hash distinct texts. */
  lemma SlotTextsDiffer(k: string, c: CidrText, l: string, d: CidrText)
    requires c.V4? && d.V4? && k + "|" + Show(c) == l + "|" + Show(d)
    ensures k == l && c == d
  {
    if '|' in Show(c) {
      ShowCharacters(c, '|');
    }
    if '|' in Show(d) {
      ShowCharacters(d, '|');
    }
    Text.SplitAtLast(k, Show(c), l, Show(d), '|');
    ShowInjective(c, d);
  }

  /** Clusters and ranges draw independently: for any choice of a number for each cluster and IPv4 range there is a hash
      under which each range gets the slot of the pool with that number, reduced to the slots there are. */
  lemma AnySlotsArePossible(want: (string, CidrText) -> Word) returns (hash: Hash)
    ensures forall pool: Block, k: string, c: CidrText :: c.V4? && pool.ones <= c.ones ==>
      VirtualCIDR(hash, V4(pool.base, pool.ones), k, c) == Some(Slot(pool, c.ones, want(k, c) % Pow2(c.ones - pool.ones)))
  {
    hash := text => WantedSlot(want, text);
    forall pool: Block, k: string, c: CidrText | c.V4? && pool.ones <= c.ones
      ensures VirtualCIDR(hash, V4(pool.base, pool.ones), k, c) == Some(Slot(pool, c.ones, want(k, c) % Pow2(c.ones - pool.ones)))
    {
      WantedSlotExactly(want, k, c);
      VirtualAt(hash, pool, k, c, want(k, c));
    }
  }

  lemma VirtualAt(hash: Hash, pool: Block, k: string, c: CidrText, n: Word)
    requires c.V4? && pool.ones <= c.ones && hash(k + "|" + Show(c)) == n
    ensures VirtualCIDR(hash, V4(pool.base, pool.ones), k, c) == Some(Slot(pool, c.ones, n % Pow2(c.ones - pool.ones)))
  {
    PoolNet(pool);
  }

  lemma PoolNet(pool: Block)
    ensures Net(V4(pool.base, pool.ones)) == Some(pool)
  {
    assert Masked(pool.base, pool.ones) == pool.base;
  }

  /** A slot of the pool is an aligned block inside it, and computing it wraps nowhere. */
  lemma SlotInPool(p: Block, ones: Ones, index: nat)
    requires p.ones <= ones && index < Pow2(ones - p.ones)
    ensures var v := Slot(p, ones, index);
      v.ip == p.base + index * Size(ones) && Canonical(v) && p.base <= v.ip && v.ip + Size(ones) <= p.base + Size(p.ones)
  {
    Pow2Add(ones - p.ones, 32 - ones);
    SlotExact(p.base, Pow2(ones - p.ones), Size(ones), index);
  }

  /** The virtual range is an aligned block of the real range's size inside the pool; nothing wraps. */
  lemma VirtualInPool(hash: Hash, pool: CidrText, cluster: string, actual: CidrText)
    requires VirtualCIDR(hash, pool, cluster, actual).Some?
    ensures var v, p := VirtualCIDR(hash, pool, cluster, actual).value, Net(pool).value;
      && Canonical(v)
      && p.base <= v.ip && v.ip + Size(v.ones) <= p.base + Size(p.ones)
  {
    var p, ones := Net(pool).value, Net(actual).value.ones;
    var index := hash(cluster + "|" + Show(actual)) % Pow2(ones - p.ones);
    SlotInPool(p, ones, index);
  }

  // ---- Overlap and danger --------------------------------------------------------------------------------

  function ParseList(cidrs: seq<CidrText>): seq<Block> {
    Collect((c: CidrText) => if Net(c).Some? then [Net(c).value] else [], cidrs)
  }

  function ParseList6(cidrs: seq<CidrText>): seq<Block6> {
    Collect((c: CidrText) => if c.V6? then [c.net] else [], cidrs)
  }

  predicate OverlapsAny(b: Block, nets: seq<Block>) {
    exists n :: n in nets && Overlap(n, b)
  }

  predicate OverlapsAny6(b: Block6, nets: seq<Block6>) {
    exists n :: n in nets && Overlap6(n, b)
  }

  lemma DangerousAligned()
    ensures Aligned(Prefix(0x7F00_0000, 8)) && Aligned(Prefix(0xA9FE_0000, 16)) && Aligned(Prefix(0xE000_0000, 4))
  {
    DangerousSizes();
  }

  /** Loopback, link-local and multicast. */
  function DangerousNets(): seq<Block> {
    DangerousAligned();
    [Prefix(0x7F00_0000, 8), Prefix(0xA9FE_0000, 16), Prefix(0xE000_0000, 4)]
  }

  predicate Dangerous(b: Block) {
    b.ones == 0 || OverlapsAny(b, DangerousNets())
  }

  /** ::1/128, fe80::/10 and ff00::/8. */
  function DangerousNets6(): seq<Block6> {
    MultipleDiv(0x3FA, Pow2(118));
    MultipleDiv(0xFF, Pow2(120));
    [Prefix6(1, 128), Prefix6(0x3FA * Pow2(118), 10), Prefix6(0xFF * Pow2(120), 8)]
  }

  predicate Dangerous6(b: Block6) {
    b.ones == 0 || OverlapsAny6(b, DangerousNets6())
  }

  /** 127.0.0.0/8, 169.254.0.0/16 and 224.0.0.0/4, as addresses. */
  predicate DangerousAddress(ip: int) {
    0x7F00_0000 <= ip < 0x8000_0000 || 0xA9FE_0000 <= ip < 0xA9FF_0000 || 0xE000_0000 <= ip < 0xF000_0000
  }

  predicate HeldByOne(nets: seq<Block>, ip: int) {
    exists n :: n in nets && Contains(n, ip)
  }

  /** Overlapping one of the networks is sharing an address with one. */
  lemma OverlapsAnyExactly(b: Block, nets: seq<Block>)
    ensures OverlapsAny(b, nets) <==> exists ip: int :: Contains(b, ip) && HeldByOne(nets, ip)
  {
    if n :| n in nets && Overlap(n, b) {
      OverlapExact(n, b);
      var ip: int :| Contains(n, ip) && Contains(b, ip);
      assert HeldByOne(nets, ip);
    }
    if ip: int :| Contains(b, ip) && HeldByOne(nets, ip) {
      var n :| n in nets && Contains(n, ip);
      OverlapExact(n, b);
    }
  }

  lemma DangerousSizes()
    ensures Size(8) == 0x100_0000 && Size(16) == 0x1_0000 && Size(4) == 0x1000_0000
  {
    Pow2Word();
    Pow2Add(16, 16);
    Pow2Add(8, 8);
    Pow2Add(16, 8);
    Pow2Add(24, 4);
  }

  lemma DangerousHeld(ip: int)
    ensures HeldByOne(DangerousNets(), ip) <==> DangerousAddress(ip)
  {
    var nets := DangerousNets();
    assert nets[0] in nets && nets[1] in nets && nets[2] in nets;
    assert forall n :: n in nets ==> n == nets[0] || n == nets[1] || n == nets[2];
    DangerousSizes();
    ContainsIsRange(nets[0], ip);
    ContainsIsRange(nets[1], ip);
    ContainsIsRange(nets[2], ip);
  }

  /** A range is dangerous exactly when it is the default route or holds a loopback, link-local or multicast address. */
  lemma DangerousExactly(b: Block)
    ensures Dangerous(b) <==> b.ones == 0 || exists ip: int :: Contains(b, ip) && DangerousAddress(ip)
  {
    OverlapsAnyExactly(b, DangerousNets());
    forall ip: int ensures HeldByOne(DangerousNets(), ip) <==> DangerousAddress(ip) {
      DangerousHeld(ip);
    }
  }

  /** ::1, and everything from fe80:: up to fec0:: and from ff00:: on. */
  predicate DangerousAddress6(ip: int) {
    ip == 1 || 0xFE80 * Pow2(112) <= ip < 0xFEC0 * Pow2(112) || 0xFF00 * Pow2(112) <= ip < 0x1_0000 * Pow2(112)
  }

  lemma Overlap6Exact(a: Block6, b: Block6)
    ensures Overlap6(a, b) <==> exists ip: int :: Contains6(a, ip) && Contains6(b, ip)
  {
    assert Contains6(a, a.base) && Contains6(b, b.base);
  }

  lemma TopBits()
    ensures Pow2(118) == 0x40 * Pow2(112) && Pow2(120) == 0x100 * Pow2(112) && Pow2(0) == 1
  {
    Pow2Add(6, 112);
    Pow2Add(8, 112);
    assert Pow2(6) == 64;
    Pow2Add(6, 2);
    assert Pow2(2) == 4 && Pow2(8) == 256;
  }

  predicate HeldByOne6(nets: seq<Block6>, ip: int) {
    exists n :: n in nets && Contains6(n, ip)
  }

  lemma OverlapsAnyExactly6(b: Block6, nets: seq<Block6>)
    ensures OverlapsAny6(b, nets) <==> exists ip: int :: Contains6(b, ip) && HeldByOne6(nets, ip)
  {
    if n :| n in nets && Overlap6(n, b) {
      Overlap6Exact(n, b);
      var ip: int :| Contains6(n, ip) && Contains6(b, ip);
      assert HeldByOne6(nets, ip);
    }
    if ip: int :| Contains6(b, ip) && HeldByOne6(nets, ip) {
      var n :| n in nets && Contains6(n, ip);
      Overlap6Exact(n, b);
    }
  }

  lemma LinkLocal6(b: Block6, ip: int)
    requires b.ones == 10 && b.base == 0x3FA * Pow2(118)
    ensures Contains6(b, ip) <==> 0xFE80 * Pow2(112) <= ip < 0xFEC0 * Pow2(112)
  {
    TopBits();
  }

  lemma Multicast6(b: Block6, ip: int)
    requires b.ones == 8 && b.base == 0xFF * Pow2(120)
    ensures Contains6(b, ip) <==> 0xFF00 * Pow2(112) <= ip < 0x1_0000 * Pow2(112)
  {
    TopBits();
  }

  lemma HeldByThree6(a: Block6, b: Block6, c: Block6, ip: int)
    ensures HeldByOne6([a, b, c], ip) <==> Contains6(a, ip) || Contains6(b, ip) || Contains6(c, ip)
  {
    assert a in [a, b, c] && b in [a, b, c] && c in [a, b, c];
  }

  lemma DangerousHeld6(ip: int)
    ensures HeldByOne6(DangerousNets6(), ip) <==> DangerousAddress6(ip)
  {
    var nets := DangerousNets6();
    HeldByThree6(nets[0], nets[1], nets[2], ip);
    assert nets == [nets[0], nets[1], nets[2]];
    assert Contains6(nets[0], ip) <==> ip == 1;
    LinkLocal6(nets[1], ip);
    Multicast6(nets[2], ip);
  }

  lemma DangerousExactly6(b: Block6)
    ensures Dangerous6(b) <==> b.ones == 0 || exists ip: int :: Contains6(b, ip) && DangerousAddress6(ip)
  {
    OverlapsAnyExactly6(b, DangerousNets6());
    forall ip: int ensures HeldByOne6(DangerousNets6(), ip) <==> DangerousAddress6(ip) {
      DangerousHeld6(ip);
    }
  }

  predicate IsDangerousText(c: CidrText) {
    match c
    case V4(_, _) => Dangerous(Net(c).value)
    case V6(_, net) => Dangerous6(net)
    case Malformed(_) => false
  }

  /** The range is withheld from plain routing. */
  predicate Withheld(c: CidrText, ranges: seq<CidrText>) {
    match c
    case V4(_, _) => Dangerous(Net(c).value) || OverlapsAny(Net(c).value, ParseList(ranges))
    case V6(_, net) => Dangerous6(net) || OverlapsAny6(net, ParseList6(ranges))
    case Malformed(_) => true
  }

  function Conflicts(desired: seq<CidrText>, ranges: seq<CidrText>): seq<CidrText> {
    Collect((c: CidrText) => if Withheld(c, ranges) then [c] else [], desired)
  }

  function Routable(desired: seq<CidrText>, ranges: seq<CidrText>): seq<CidrText> {
    Collect((c: CidrText) => if Withheld(c, ranges) then [] else [c], desired)
  }

  /** No address of the range is dangerous or belongs to one of the local ranges, and it is not a default route. */
  ghost predicate Harmless(c: CidrText, ranges: seq<CidrText>) {
    match c
    case V4(_, _) =>
      && c.ones != 0 && (forall ip: int :: Contains(Net(c).value, ip) ==> !DangerousAddress(ip))
      && (forall r, ip: int :: r in ranges && r.V4? && Contains(Net(c).value, ip) ==> !Contains(Net(r).value, ip))
    case V6(_, net) =>
      && net.ones != 0 && (forall ip: int :: Contains6(net, ip) ==> !DangerousAddress6(ip))
      && (forall r, ip: int :: r in ranges && r.V6? && Contains6(net, ip) ==> !Contains6(r.net, ip))
    case Malformed(_) => false
  }

  lemma WithheldExactly(c: CidrText, ranges: seq<CidrText>)
    ensures Withheld(c, ranges) <==> !Harmless(c, ranges)
  {
    match c
    case V4(_, _) =>
      DangerousExactly(Net(c).value);
      OverlapsRanges(Net(c).value, ranges);
    case V6(_, net) =>
      DangerousExactly6(net);
      OverlapsRanges6(net, ranges);
    case Malformed(_) =>
  }

  lemma OverlapsRanges(b: Block, ranges: seq<CidrText>)
    ensures OverlapsAny(b, ParseList(ranges)) <==> exists r, ip: int :: r in ranges && r.V4? && Contains(b, ip) && Contains(Net(r).value, ip)
  {
    OverlapsAnyExactly(b, ParseList(ranges));
    if ip: int :| Contains(b, ip) && HeldByOne(ParseList(ranges), ip) {
      var n :| n in ParseList(ranges) && Contains(n, ip);
      CollectMember((c: CidrText) => if Net(c).Some? then [Net(c).value] else [], ranges, n);
      var r :| r in ranges && r.V4? && Net(r).value == n;
      assert Contains(Net(r).value, ip);
    }
    if r, ip: int :| r in ranges && r.V4? && Contains(b, ip) && Contains(Net(r).value, ip) {
      CollectMember((c: CidrText) => if Net(c).Some? then [Net(c).value] else [], ranges, Net(r).value);
      assert HeldByOne(ParseList(ranges), ip);
    }
  }

  lemma OverlapsRanges6(b: Block6, ranges: seq<CidrText>)
    ensures OverlapsAny6(b, ParseList6(ranges)) <==> exists r, ip: int :: r in ranges && r.V6? && Contains6(b, ip) && Contains6(r.net, ip)
  {
    OverlapsAnyExactly6(b, ParseList6(ranges));
    if ip: int :| Contains6(b, ip) && HeldByOne6(ParseList6(ranges), ip) {
      var n :| n in ParseList6(ranges) && Contains6(n, ip);
      CollectMember((c: CidrText) => if c.V6? then [c.net] else [], ranges, n);
      var r :| r in ranges && r.V6? && r.net == n;
      assert Contains6(r.net, ip);
    }
    if r, ip: int :| r in ranges && r.V6? && Contains6(b, ip) && Contains6(r.net, ip) {
      CollectMember((c: CidrText) => if c.V6? then [c.net] else [], ranges, r.net);
      assert HeldByOne6(ParseList6(ranges), ip);
    }
  }

  /** What `Partition` routes plainly are exactly the harmless ranges; every other one is a conflict. */
  lemma PartitionExactly(desired: seq<CidrText>, ranges: seq<CidrText>, c: CidrText)
    ensures c in Routable(desired, ranges) <==> c in desired && Harmless(c, ranges)
    ensures c in Conflicts(desired, ranges) <==> c in desired && !Harmless(c, ranges)
  {
    WithheldExactly(c, ranges);
    CollectMember((c: CidrText) => if Withheld(c, ranges) then [] else [c], desired, c);
    CollectMember((c: CidrText) => if Withheld(c, ranges) then [c] else [], desired, c);
  }

  function ExcludeDangerous(cidrs: seq<CidrText>): seq<CidrText> {
    Collect((c: CidrText) => if IsDangerousText(c) then [] else [c], cidrs)
  }

  /** The networks of the texts that parse, by family. */
  method ParseCIDRList(cidrs: seq<CidrText>) returns (out: seq<Block>, out6: seq<Block6>)
    ensures out == ParseList(cidrs) && out6 == ParseList6(cidrs)
  {
    out, out6 := [], [];
    for i := 0 to |cidrs|
      invariant out == ParseList(cidrs[..i]) && out6 == ParseList6(cidrs[..i])
    {
      CollectStep((c: CidrText) => if Net(c).Some? then [Net(c).value] else [], cidrs, i);
      CollectStep((c: CidrText) => if c.V6? then [c.net] else [], cidrs, i);
      match cidrs[i]
      case V4(_, _) => out := out + [Net(cidrs[i]).value];
      case V6(_, net) => out6 := out6 + [net];
      case Malformed(_) =>
    }
    assert cidrs[..|cidrs|] == cidrs;
  }

  method Partition(desired: seq<CidrText>, localCIDRs: seq<CidrText>) returns (routable: seq<CidrText>, conflicts: seq<CidrText>)
    ensures routable == Routable(desired, localCIDRs)
    ensures conflicts == Conflicts(desired, localCIDRs)
  {
    var locals, locals6 := ParseCIDRList(localCIDRs);
    routable, conflicts := [], [];
    for i := 0 to |desired|
      invariant routable == Routable(desired[..i], localCIDRs) && conflicts == Conflicts(desired[..i], localCIDRs)
    {
      var c := desired[i];
      CollectStep((c: CidrText) => if Withheld(c, localCIDRs) then [c] else [], desired, i);
      CollectStep((c: CidrText) => if Withheld(c, localCIDRs) then [] else [c], desired, i);
      if c.Malformed? {
        conflicts := conflicts + [c];
        continue;
      }
      var overlaps := if c.V6? then OverlapsAny6(c.net, locals6) else OverlapsAny(Net(c).value, locals);
      if IsDangerousText(c) || overlaps {
        conflicts := conflicts + [c];
        continue;
      }
      routable := routable + [c];
    }
    assert desired[..|desired|] == desired;
  }

  // ---- Planning one peer -------------------------------------------------------------------------------------

  datatype Entry = Entry(actual: CidrText, virtual: CidrText)

  datatype RemapPlan = RemapPlan(routeVirtual: seq<CidrText>, locals: seq<Entry>)

  datatype PlanResult = Ok(plan: RemapPlan) | Err

  /** Who claims a virtual range. */
  datatype Source = Peer(cluster: string, text: CidrText) | Local(cluster: string, text: CidrText)

  function Parsed(conflicts: set<CidrText>): set<CidrText> {
    set c | c in conflicts && !c.Malformed?
  }

  predicate OverlapsText(b: Block, c: CidrText) {
    Net(c).Some? && Overlap(b, Net(c).value)
  }

  /** The local ranges, in canonical text, that overlap one of the conflicting ranges. */
  function Overlapped(conflicts: set<CidrText>, locals: set<Block>): set<CidrText> {
    set b, c | b in locals && c in conflicts && OverlapsText(b, c) :: CanonText(b)
  }

  /** What each source is given: its virtual range, if it fits the pool. */
  type Allocation = Source -> Option<CidrText>

  function VirtualOf(hash: Hash, pool: CidrText): Allocation {
    (s: Source) => VirtualCIDR(hash, pool, s.cluster, s.text)
  }

  /** Every source is given a range and no two distinct sources the same one. */
  ghost predicate CollisionFree(f: Allocation, sources: set<Source>) {
    && (forall s :: s in sources ==> f(s).Some?)
    && (forall s, s' :: s in sources && s' in sources && f(s) == f(s') ==> s == s')
  }

  function VirtualSet(hash: Hash, pool: CidrText, cluster: string, texts: set<CidrText>): set<CidrText> {
    set c | c in texts && VirtualCIDR(hash, pool, cluster, c).Some? :: VirtualCIDR(hash, pool, cluster, c).value
  }

  /** The owner map holds exactly the claims of the processed sources, one source per range. */
  ghost predicate Claimed(f: Allocation, owner: map<CidrText, Source>, done: set<Source>) {
    && (forall s :: s in done ==> f(s).Some? && f(s).value in owner && owner[f(s).value] == s)
    && (forall v :: v in owner ==> owner[v] in done && f(owner[v]) == Some(v))
  }

  /** The `claim` closure: fails when the source gets no range or another source owns it. */
  method Claim(f: Allocation, owner: map<CidrText, Source>, s: Source, ghost done: set<Source>) returns (ok: bool, owner': map<CidrText, Source>)
    requires Claimed(f, owner, done)
    ensures ok ==> Claimed(f, owner', done + {s})
    ensures !ok ==> !CollisionFree(f, done + {s})
  {
    var v := f(s);
    if v.None? {
      assert s in done + {s};
      return false, owner;
    }
    if v.value in owner && owner[v.value] != s {
      assert owner[v.value] in done + {s} && s in done + {s};
      return false, owner;
    }
    return true, owner[v.value := s];
  }

  lemma CollisionFreeSubset(f: Allocation, small: set<Source>, large: set<Source>)
    requires small <= large && CollisionFree(f, large)
    ensures CollisionFree(f, small)
  {
  }

  function Touched(c: CidrText, locals: set<Block>): set<CidrText> {
    set b | b in locals && OverlapsText(b, c) :: CanonText(b)
  }

  function LocalSources(localID: string, texts: set<CidrText>): set<Source> {
    set c | c in texts :: Local(localID, c)
  }

  /** The table of local pairs says, for each range, what it was given. */
  ghost predicate PairsRecorded(f: Allocation, localID: string, pairs: map<CidrText, Entry>) {
    forall c :: c in pairs ==> f(Local(localID, c)).Some? && pairs[c] == Entry(c, f(Local(localID, c)).value)
  }

  /** Claims the virtual ranges of the local ranges that overlap one peer range. */
  method ClaimLocals(f: Allocation, localID: string, locals: seq<Block>, c: CidrText,
      owner: map<CidrText, Source>, pairs: map<CidrText, Entry>, ghost done: set<Source>)
      returns (ok: bool, owner': map<CidrText, Source>, pairs': map<CidrText, Entry>)
    requires Net(c).Some? && Claimed(f, owner, done) && PairsRecorded(f, localID, pairs)
    ensures ok ==> Claimed(f, owner', done + LocalSources(localID, Touched(c, Elements(locals))))
    ensures ok ==> PairsRecorded(f, localID, pairs') && pairs'.Keys == pairs.Keys + Touched(c, Elements(locals))
    ensures !ok ==> !CollisionFree(f, done + LocalSources(localID, Touched(c, Elements(locals))))
  {
    owner', pairs' := owner, pairs;
    ghost var now := done;
    for j := 0 to |locals|
      invariant now == done + LocalSources(localID, Touched(c, Elements(locals[..j])))
      invariant Claimed(f, owner', now) && PairsRecorded(f, localID, pairs')
      invariant pairs'.Keys == pairs.Keys + Touched(c, Elements(locals[..j]))
    {
      TouchedStep(localID, c, locals, j);
      if !Overlap(locals[j], Net(c).value) {
        continue;
      }
      var text := CanonText(locals[j]);
      ghost var claiming := now + {Local(localID, text)};
      ok, owner' := Claim(f, owner', Local(localID, text), now);
      if !ok {
        SubsetBreaks(f, claiming, done + LocalSources(localID, Touched(c, Elements(locals))));
        return;
      }
      now := claiming;
      pairs' := pairs'[text := Entry(text, f(Local(localID, text)).value)];
    }
    assert locals[..|locals|] == locals;
    return true, owner', pairs';
  }

  lemma TouchedStep(localID: string, c: CidrText, locals: seq<Block>, j: nat)
    requires j < |locals| && Net(c).Some?
    ensures var text, before, after := CanonText(locals[j]), Touched(c, Elements(locals[..j])), Touched(c, Elements(locals[..j + 1]));
      && (!Overlap(locals[j], Net(c).value) ==> after == before)
      && (Overlap(locals[j], Net(c).value) ==> after == before + {text} && LocalSources(localID, after) == LocalSources(localID, before) + {Local(localID, text)})
      && LocalSources(localID, after) <= LocalSources(localID, Touched(c, Elements(locals)))
  {
    PrefixElements(locals, j);
    assert Elements(locals[..j + 1]) <= Elements(locals);
    assert Touched(c, Elements(locals[..j + 1])) <= Touched(c, Elements(locals));
  }

  lemma SubsetBreaks(f: Allocation, small: set<Source>, large: set<Source>)
    requires !CollisionFree(f, small) && small <= large
    ensures !CollisionFree(f, large)
  {
    if CollisionFree(f, large) {
      CollisionFreeSubset(f, small, large);
      assert false;
    }
  }

  /** Everyone who needs a virtual range for this peering. */
  function PlanSources(localID: string, locals: set<Block>, peerID: string, conflicts: set<CidrText>): set<Source> {
    PeerSources(peerID, Parsed(conflicts)) + LocalSources(localID, Overlapped(conflicts, locals))
  }

  function PeerSources(peerID: string, texts: set<CidrText>): set<Source> {
    set c | c in texts :: Peer(peerID, c)
  }

  lemma PlanStep(localID: string, locals: set<Block>, peerID: string, conflicts: seq<CidrText>, i: nat)
    requires i < |conflicts|
    ensures var c, before, after := conflicts[i], Elements(conflicts[..i]), Elements(conflicts[..i + 1]);
      && (c.Malformed? ==> Parsed(after) == Parsed(before) && Overlapped(after, locals) == Overlapped(before, locals))
      && (!c.Malformed? ==> Parsed(after) == Parsed(before) + {c} && Overlapped(after, locals) == Overlapped(before, locals) + Touched(c, locals))
      && PlanSources(localID, locals, peerID, after) <= PlanSources(localID, locals, peerID, Elements(conflicts))
      && (!c.Malformed? ==> (PlanSources(localID, locals, peerID, after)
            == PlanSources(localID, locals, peerID, before) + {Peer(peerID, c)} + LocalSources(localID, Touched(c, locals))))
  {
    PrefixElements(conflicts, i);
    assert Elements(conflicts[..i + 1]) <= Elements(conflicts);
    var c, before, after := conflicts[i], Elements(conflicts[..i]), Elements(conflicts[..i + 1]);
    OverlappedAdd(before, c, locals);
    assert Parsed(after) <= Parsed(Elements(conflicts));
    assert Overlapped(after, locals) <= Overlapped(Elements(conflicts), locals);
  }

  lemma OverlappedAdd(before: set<CidrText>, c: CidrText, locals: set<Block>)
    ensures Overlapped(before + {c}, locals) == Overlapped(before, locals) + Touched(c, locals)
    ensures Net(c).None? ==> Touched(c, locals) == {}
  {
  }

  lemma VirtualSetAdd(hash: Hash, pool: CidrText, cluster: string, texts: set<CidrText>, c: CidrText)
    requires VirtualCIDR(hash, pool, cluster, c).Some?
    ensures VirtualSet(hash, pool, cluster, texts + {c}) == VirtualSet(hash, pool, cluster, texts) + {VirtualCIDR(hash, pool, cluster, c).value}
  {
  }

  lemma PlanTextsV4(hash: Hash, pool: CidrText, cluster: string, texts: set<CidrText>, conflicts: set<CidrText>, locals: set<Block>)
    ensures AllV4(VirtualSet(hash, pool, cluster, texts)) && AllV4(Overlapped(conflicts, locals))
  {
  }

  /** Plans one peer's remap. It succeeds exactly when every range involved is an IPv4 range that fits the pool and no two
      of them share a virtual range; then it routes the peer's virtual ranges and pairs each overlapped local
      range with its own. */
  method PlanRemap(hash: Hash, pool: CidrText, localID: string, localCIDRs: seq<CidrText>, peerID: string, conflicting: seq<CidrText>)
      returns (r: PlanResult)
    ensures r.Ok? <==> CollisionFree(VirtualOf(hash, pool), PlanSources(localID, Elements(ParseList(localCIDRs)), peerID, Elements(conflicting)))
    ensures r.Ok? ==> PlanFor(hash, pool, localID, Elements(ParseList(localCIDRs)), peerID, Elements(conflicting), r.plan)
  {
    var f := VirtualOf(hash, pool);
    var locals, _ := ParseCIDRList(localCIDRs);
    var owner: map<CidrText, Source> := map[];
    var routes: set<CidrText> := {};
    var pairs: map<CidrText, Entry> := map[];
    ghost var ls := Elements(locals);
    ghost var done: set<Source> := {};
    for i := 0 to |conflicting|
      invariant done == PlanSources(localID, ls, peerID, Elements(conflicting[..i])) && Claimed(f, owner, done)
      invariant routes == VirtualSet(hash, pool, peerID, Parsed(Elements(conflicting[..i])))
      invariant PairsRecorded(f, localID, pairs) && pairs.Keys == Overlapped(Elements(conflicting[..i]), ls)
    {
      var c := conflicting[i];
      PlanStep(localID, ls, peerID, conflicting, i);
      if c.Malformed? {
        continue;
      }
      ghost var claimed := done + {Peer(peerID, c)};
      var ok;
      ok, owner := Claim(f, owner, Peer(peerID, c), done);
      if !ok {
        SubsetBreaks(f, claimed, PlanSources(localID, ls, peerID, Elements(conflicting)));
        return Err;
      }
      VirtualSetAdd(hash, pool, peerID, Parsed(Elements(conflicting[..i])), c);
      routes := routes + {f(Peer(peerID, c)).value};
      ok, owner, pairs := ClaimLocals(f, localID, locals, c, owner, pairs, claimed);
      if !ok {
        SubsetBreaks(f, claimed + LocalSources(localID, Touched(c, ls)), PlanSources(localID, ls, peerID, Elements(conflicting)));
        return Err;
      }
      done := claimed + LocalSources(localID, Touched(c, ls));
    }
    assert conflicting[..|conflicting|] == conflicting;
    r := Emit(hash, pool, localID, ls, peerID, Elements(conflicting), routes, pairs);
  }

  /** The plan, field by field: sorted virtual routes, and local pairs sorted by real range. */
  ghost predicate PlanFor(hash: Hash, pool: CidrText, localID: string, locals: set<Block>, peerID: string, conflicts: set<CidrText>, plan: RemapPlan) {
    && StrictlySorted(LessText, plan.routeVirtual)
    && Elements(plan.routeVirtual) == VirtualSet(hash, pool, peerID, Parsed(conflicts))
    && StrictlySorted(LessText, Reals(plan.locals))
    && Elements(Reals(plan.locals)) == Overlapped(conflicts, locals)
    && forall e :: e in plan.locals ==> VirtualCIDR(hash, pool, localID, e.actual) == Some(e.virtual)
  }

  function Reals(entries: seq<Entry>): (r: seq<CidrText>)
    ensures |r| == |entries| && forall i :: 0 <= i < |entries| ==> r[i] == entries[i].actual
  {
    seq(|entries|, i requires 0 <= i < |entries| => entries[i].actual)
  }

  method Emit(hash: Hash, pool: CidrText, localID: string, ghost locals: set<Block>, peerID: string, ghost conflicts: set<CidrText>,
      routes: set<CidrText>, pairs: map<CidrText, Entry>) returns (r: PlanResult)
    requires routes == VirtualSet(hash, pool, peerID, Parsed(conflicts))
    requires PairsRecorded(VirtualOf(hash, pool), localID, pairs) && pairs.Keys == Overlapped(conflicts, locals)
    ensures r.Ok? && PlanFor(hash, pool, localID, locals, peerID, conflicts, r.plan)
  {
    PlanTextsV4(hash, pool, peerID, Parsed(conflicts), conflicts, locals);
    LessTextWeak();
    LessTextTotal(routes);
    LessTextTotal(pairs.Keys);
    var routeVirtual := SortedKeys(LessText, routes);
    var reals := SortedKeys(LessText, pairs.Keys);
    var out: seq<Entry> := [];
    for i := 0 to |reals|
      invariant |out| == i && forall j :: 0 <= j < i ==> reals[j] in pairs && out[j] == pairs[reals[j]]
    {
      assert reals[i] in Elements(reals);
      out := out + [pairs[reals[i]]];
    }
    assert Reals(out) == reals;
    r := Ok(RemapPlan(routeVirtual, out));
  }
}
