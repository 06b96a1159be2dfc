/** Two clusters that never talk agree on each other's virtual ranges, and exactly when. */
module RemapAgreement {
  import opened Cidr
  import opened Order
  import opened RemapText
  import opened Remap

  lemma ParseListMember(cidrs: seq<CidrText>, b: Block)
    ensures b in ParseList(cidrs) <==> exists c :: c in cidrs && Net(c) == Some(b)
  {
    CollectMember((c: CidrText) => if Net(c).Some? then [Net(c).value] else [], cidrs, b);
  }

  lemma ConflictsMember(desired: seq<CidrText>, locals: seq<CidrText>, c: CidrText)
    ensures c in Conflicts(desired, locals) <==> c in desired && Withheld(c, locals)
  {
    CollectMember((c: CidrText) => if Withheld(c, locals) then [c] else [], desired, c);
  }

  lemma ExcludeMember(cidrs: seq<CidrText>, c: CidrText)
    ensures c in ExcludeDangerous(cidrs) <==> c in cidrs && !IsDangerousText(c)
  {
    CollectMember((c: CidrText) => if IsDangerousText(c) then [] else [c], cidrs, c);
  }

  ghost predicate AllCanonical(cidrs: seq<CidrText>) {
    forall c :: c in cidrs ==> Canonical(c)
  }

  ghost predicate NoneDangerous(cidrs: seq<CidrText>) {
    forall c :: c in cidrs ==> !IsDangerousText(c)
  }

  /** What a cluster with ranges `mine` withholds of a peer's ranges `theirs`. */
  function ConflictSet(mine: seq<CidrText>, theirs: seq<CidrText>): set<CidrText> {
    Elements(Conflicts(theirs, mine))
  }

  /** The conflicts the NETMAP reconciler plans for: the dangerous ones are dropped. */
  function RemapSet(mine: seq<CidrText>, theirs: seq<CidrText>): set<CidrText> {
    Elements(ExcludeDangerous(Conflicts(theirs, mine)))
  }

  predicate OverlapsOne(c: CidrText, ranges: seq<CidrText>) {
    exists a :: a in ranges && Net(a).Some? && Net(c).Some? && Overlap(Net(a).value, Net(c).value)
  }

  predicate OverlapsSafe(c: CidrText, ranges: seq<CidrText>) {
    exists a :: a in ranges && Net(a).Some? && !IsDangerousText(a) && Net(c).Some? && Overlap(Net(a).value, Net(c).value)
  }

  lemma WithheldMeaning(c: CidrText, mine: seq<CidrText>)
    requires Net(c).Some?
    ensures Withheld(c, mine) <==> IsDangerousText(c) || OverlapsOne(c, mine)
  {
    if n :| n in ParseList(mine) && Overlap(n, Net(c).value) {
      ParseListMember(mine, n);
    }
    if a :| a in mine && Net(a).Some? && Overlap(Net(a).value, Net(c).value) {
      ParseListMember(mine, Net(a).value);
    }
  }

  /** The peer ranges one side routes under virtual ranges. */
  lemma RoutedTexts(mine: seq<CidrText>, theirs: seq<CidrText>, c: CidrText)
    requires AllCanonical(theirs)
    ensures c in Parsed(ConflictSet(mine, theirs)) <==> c in theirs && (IsDangerousText(c) || OverlapsOne(c, mine))
  {
    ConflictsMember(theirs, mine, c);
    if c in theirs {
      WithheldMeaning(c, mine);
    }
  }

  /** The ranges the other side presents under virtual ranges. */
  lemma PresentedTexts(mine: seq<CidrText>, theirs: seq<CidrText>, c: CidrText)
    requires AllCanonical(mine) && AllCanonical(theirs)
    ensures c in Overlapped(RemapSet(theirs, mine), Elements(ParseList(theirs))) <==> c in theirs && OverlapsSafe(c, mine)
  {
    if c in Overlapped(RemapSet(theirs, mine), Elements(ParseList(theirs))) {
      var b, a :| b in Elements(ParseList(theirs)) && a in RemapSet(theirs, mine) && OverlapsText(b, a) && c == CanonText(b);
      ParseListMember(theirs, b);
      var t :| t in theirs && Net(t) == Some(b);
      ExcludeMember(Conflicts(mine, theirs), a);
      ConflictsMember(mine, theirs, a);
      assert c == t;
    }
    if c in theirs && OverlapsSafe(c, mine) {
      var a :| a in mine && Net(a).Some? && !IsDangerousText(a) && Overlap(Net(a).value, Net(c).value);
      var b := Net(c).value;
      ParseListMember(theirs, b);
      assert OverlapsAny(Net(a).value, ParseList(theirs));
      ConflictsMember(mine, theirs, a);
      ExcludeMember(Conflicts(mine, theirs), a);
      assert b in Elements(ParseList(theirs)) && a in RemapSet(theirs, mine) && OverlapsText(b, a);
      assert CanonText(b) == c;
    }
  }

  /** Every range of `theirs` that is withheld overlaps a range of `mine` that is itself safe to remap. */
  ghost predicate WithheldIsSafe(mine: seq<CidrText>, theirs: seq<CidrText>) {
    forall c :: c in theirs && (IsDangerousText(c) || OverlapsOne(c, mine)) ==> OverlapsSafe(c, mine)
  }

  /** The real ranges one side routes and the other presents are the same exactly then; presented ones are always routed. */
  lemma TextsAgreeExactly(mine: seq<CidrText>, theirs: seq<CidrText>)
    requires AllCanonical(mine) && AllCanonical(theirs)
    ensures Overlapped(RemapSet(theirs, mine), Elements(ParseList(theirs))) <= Parsed(ConflictSet(mine, theirs))
    ensures Parsed(ConflictSet(mine, theirs)) == Overlapped(RemapSet(theirs, mine), Elements(ParseList(theirs))) <==> WithheldIsSafe(mine, theirs)
  {
    var routed, presented := Parsed(ConflictSet(mine, theirs)), Overlapped(RemapSet(theirs, mine), Elements(ParseList(theirs)));
    forall c
      ensures c in routed <==> c in theirs && (IsDangerousText(c) || OverlapsOne(c, mine))
      ensures c in presented <==> c in theirs && OverlapsSafe(c, mine)
    {
      RoutedTexts(mine, theirs, c);
      PresentedTexts(mine, theirs, c);
    }
    if WithheldIsSafe(mine, theirs) {
      assert forall c :: c in routed <==> c in presented;
    } else {
      var c :| c in theirs && (IsDangerousText(c) || OverlapsOne(c, mine)) && !OverlapsSafe(c, mine);
      assert c in routed && c !in presented;
    }
  }

  function Virtuals(entries: seq<Entry>): set<CidrText> {
    set e | e in entries :: e.virtual
  }

  type Shift = CidrText -> Option<CidrText>

  lemma EntryVirtuals(f: Shift, entries: seq<Entry>, reals: seq<CidrText>, v: CidrText)
    requires |reals| == |entries| && forall i :: 0 <= i < |entries| ==> reals[i] == entries[i].actual
    requires forall e :: e in entries ==> f(e.actual) == Some(e.virtual)
    ensures v in Virtuals(entries) <==> exists c :: c in reals && f(c) == Some(v)
  {
    if v in Virtuals(entries) {
      var e :| e in entries && e.virtual == v;
      var i :| 0 <= i < |entries| && entries[i] == e;
      assert reals[i] in reals;
    }
    if c :| c in reals && f(c) == Some(v) {
      var i :| 0 <= i < |reals| && reals[i] == c;
      assert entries[i] in entries;
    }
  }

  function ShiftOf(hash: Hash, pool: CidrText, cluster: string): Shift {
    (c: CidrText) => VirtualCIDR(hash, pool, cluster, c)
  }

  function Image(f: Shift, texts: set<CidrText>): set<CidrText> {
    set c | c in texts && f(c).Some? :: f(c).value
  }

  lemma ImageEntries(f: Shift, entries: seq<Entry>, texts: set<CidrText>)
    requires Elements(Reals(entries)) == texts
    requires forall e :: e in entries ==> f(e.actual) == Some(e.virtual)
    ensures Virtuals(entries) == Image(f, texts)
  {
    forall v ensures v in Virtuals(entries) <==> v in Image(f, texts) {
      EntryVirtuals(f, entries, Reals(entries), v);
      assert forall c :: c in texts <==> c in Reals(entries);
    }
  }

  lemma PlanVirtuals(hash: Hash, pool: CidrText, localID: string, locals: set<Block>, peerID: string, conflicts: set<CidrText>, plan: RemapPlan)
    requires PlanFor(hash, pool, localID, locals, peerID, conflicts, plan)
    ensures Virtuals(plan.locals) == VirtualSet(hash, pool, localID, Overlapped(conflicts, locals))
  {
    var f := ShiftOf(hash, pool, localID);
    ImageEntries(f, plan.locals, Overlapped(conflicts, locals));
    assert Image(f, Overlapped(conflicts, locals)) == VirtualSet(hash, pool, localID, Overlapped(conflicts, locals));
  }

  /** Broker-less agreement: with one pool and canonical, safe ranges advertised as they are, the virtual
      ranges A routes towards B are exactly those B presents itself under towards A. */
  lemma Agreement(hash: Hash, pool: CidrText, idA: string, rangesA: seq<CidrText>, idB: string, rangesB: seq<CidrText>,
      planA: RemapPlan, planB: RemapPlan)
    requires AllCanonical(rangesA) && AllCanonical(rangesB) && NoneDangerous(rangesA) && NoneDangerous(rangesB)
    requires PlanFor(hash, pool, idA, Elements(ParseList(rangesA)), idB, ConflictSet(rangesA, rangesB), planA)
    requires PlanFor(hash, pool, idB, Elements(ParseList(rangesB)), idA, RemapSet(rangesB, rangesA), planB)
    ensures Elements(planA.routeVirtual) == Virtuals(planB.locals)
  {
    forall c | c in rangesB && (IsDangerousText(c) || OverlapsOne(c, rangesA)) ensures OverlapsSafe(c, rangesA) {
      var a :| a in rangesA && Net(a).Some? && Overlap(Net(a).value, Net(c).value);
      assert !IsDangerousText(a);
    }
    TextsAgreeExactly(rangesA, rangesB);
    PlanVirtuals(hash, pool, idB, Elements(ParseList(rangesB)), idA, RemapSet(rangesB, rangesA), planB);
  }

  /** Sources without collisions have as many virtual ranges as there are of them. */
  lemma VirtualSetInjective(hash: Hash, pool: CidrText, cluster: string, some: set<CidrText>, all: set<CidrText>)
    requires some <= all && CollisionFree(VirtualOf(hash, pool), PeerSources(cluster, all))
    ensures VirtualSet(hash, pool, cluster, all) == VirtualSet(hash, pool, cluster, some) <==> all == some
  {
    if VirtualSet(hash, pool, cluster, all) == VirtualSet(hash, pool, cluster, some) {
      forall c | c in all ensures c in some {
        PeerClaims(hash, pool, cluster, all, c);
        var v := VirtualCIDR(hash, pool, cluster, c).value;
        assert v in VirtualSet(hash, pool, cluster, some);
        var d :| d in some && VirtualCIDR(hash, pool, cluster, d) == Some(v);
        assert Peer(cluster, c) in PeerSources(cluster, all) && Peer(cluster, d) in PeerSources(cluster, all);
        assert VirtualOf(hash, pool)(Peer(cluster, c)) == VirtualOf(hash, pool)(Peer(cluster, d));
      }
    }
  }

  lemma PeerClaims(hash: Hash, pool: CidrText, cluster: string, all: set<CidrText>, c: CidrText)
    requires c in all && CollisionFree(VirtualOf(hash, pool), PeerSources(cluster, all))
    ensures VirtualCIDR(hash, pool, cluster, c).Some? && VirtualCIDR(hash, pool, cluster, c).value in VirtualSet(hash, pool, cluster, all)
  {
    assert Peer(cluster, c) in PeerSources(cluster, all);
    assert VirtualOf(hash, pool)(Peer(cluster, c)).Some?;
  }

  /** The virtual ranges A routes towards B are those B presents itself under if and only if every range of B that A
      withholds overlaps a range of A that is itself safe to remap. Dangerous ranges are where the two controllers part. */
  lemma AgreementExactly(hash: Hash, pool: CidrText, idA: string, rangesA: seq<CidrText>, idB: string, rangesB: seq<CidrText>,
      planA: RemapPlan, planB: RemapPlan)
    requires AllCanonical(rangesA) && AllCanonical(rangesB)
    requires CollisionFree(VirtualOf(hash, pool), PlanSources(idA, Elements(ParseList(rangesA)), idB, ConflictSet(rangesA, rangesB)))
    requires PlanFor(hash, pool, idA, Elements(ParseList(rangesA)), idB, ConflictSet(rangesA, rangesB), planA)
    requires PlanFor(hash, pool, idB, Elements(ParseList(rangesB)), idA, RemapSet(rangesB, rangesA), planB)
    ensures Elements(planA.routeVirtual) == Virtuals(planB.locals) <==> WithheldIsSafe(rangesA, rangesB)
  {
    TextsAgreeExactly(rangesA, rangesB);
    PlanVirtuals(hash, pool, idB, Elements(ParseList(rangesB)), idA, RemapSet(rangesB, rangesA), planB);
    var routed := Parsed(ConflictSet(rangesA, rangesB));
    CollisionFreeSubset(VirtualOf(hash, pool), PeerSources(idB, routed), PlanSources(idA, Elements(ParseList(rangesA)), idB, ConflictSet(rangesA, rangesB)));
    VirtualSetInjective(hash, pool, idB, Overlapped(RemapSet(rangesB, rangesA), Elements(ParseList(rangesB))), routed);
  }

  /** A link-local range is routed by A but never presented by B, for lack of a safe range overlapping it. */
  lemma DangerousRangeIsRoutedOnly(mine: seq<CidrText>, theirs: seq<CidrText>, c: CidrText)
    requires AllCanonical(mine) && AllCanonical(theirs) && c in theirs && IsDangerousText(c) && !OverlapsOne(c, mine)
    ensures c in Parsed(ConflictSet(mine, theirs)) && c !in Overlapped(RemapSet(theirs, mine), Elements(ParseList(theirs)))
  {
    RoutedTexts(mine, theirs, c);
    PresentedTexts(mine, theirs, c);
  }

  // ---- Why texts must be canonical ----------------------------------------------------------------------------

  /** The peer hashes the text as advertised, the owner the canonical text. They agree for every hash exactly
      when the text is canonical, or the pool holds a single block of that size. */
  lemma RawTextExactly(pool: CidrText, c: CidrText)
    requires Net(pool).Some? && Net(c).Some? && Net(pool).value.ones <= Net(c).value.ones
    ensures (forall hash: Hash, cluster: string :: VirtualCIDR(hash, pool, cluster, c) == VirtualCIDR(hash, pool, cluster, CanonText(Net(c).value)))
       <==> Canonical(c) || Net(c).value.ones == Net(pool).value.ones
  {
    var canon := CanonText(Net(c).value);
    BlockIsCanonical(Net(c).value);
    if Net(c).value.ones == Net(pool).value.ones {
      forall hash: Hash, cluster: string ensures VirtualCIDR(hash, pool, cluster, c) == VirtualCIDR(hash, pool, cluster, canon) {
        assert Pow2(0) == 1;
      }
    } else if !Canonical(c) {
      var hash := SplitHash(pool, c, canon);
    }
  }

  function Key(c: CidrText): string {
    "" + "|" + Show(c)
  }

  lemma VirtualSlot(hash: Hash, pool: CidrText, c: CidrText, index: nat)
    requires Net(pool).Some? && c.V4? && Net(pool).value.ones <= c.ones
    requires hash(Key(c)) == index < Pow2(c.ones - Net(pool).value.ones)
    ensures VirtualCIDR(hash, pool, "", c) == Some(Slot(Net(pool).value, c.ones, index))
  {
    var n := Pow2(c.ones - Net(pool).value.ones);
    SmallMod(index, n);
    var p, ones := Net(pool).value, Net(c).value.ones;
    var i := hash("" + "|" + Show(c)) % Pow2(ones - p.ones);
    assert VirtualCIDR(hash, pool, "", c) == Some(Slot(p, ones, i));
    assert i == index;
  }

  lemma SmallMod(i: nat, n: nat)
    requires i < n
    ensures i % n == i
  {
  }

  lemma FirstSlotsDiffer(p: Block, ones: Ones)
    requires p.ones < ones
    ensures Pow2(ones - p.ones) >= 2 && Slot(p, ones, 0) != Slot(p, ones, 1)
  {
    assert Pow2(ones - p.ones) == 2 * Pow2(ones - p.ones - 1);
    SlotInPool(p, ones, 0);
    SlotInPool(p, ones, 1);
  }

  lemma KeysDiffer(c: CidrText, d: CidrText)
    requires c.V4? && d.V4? && c != d
    ensures Key(c) != Key(d)
  {
    assert Key(c)[1..] == Show(c) && Key(d)[1..] == Show(d);
    if Key(c) == Key(d) {
      ShowInjective(c, d);
    }
  }

  lemma SplitHash(pool: CidrText, c: CidrText, d: CidrText) returns (hash: Hash)
    requires Net(pool).Some? && c.V4? && d.V4? && c != d && c.ones == d.ones > Net(pool).value.ones
    ensures VirtualCIDR(hash, pool, "", c) != VirtualCIDR(hash, pool, "", d)
  {
    KeysDiffer(c, d);
    FirstSlotsDiffer(Net(pool).value, c.ones);
    var kc := Key(c);
    hash := s => if s == kc then 1 else 0;
    VirtualSlot(hash, pool, c, 1);
    VirtualSlot(hash, pool, d, 0);
  }

  // ---- An oversubscribed pool is always refused --------------------------------------------------------------

  lemma {:induction false} InjectiveBound(s: set<Source>, g: Source -> nat, n: nat)
    requires forall x :: x in s ==> g(x) < n
    requires forall x, y :: x in s && y in s && g(x) == g(y) ==> x == y
    ensures |s| <= n
  {
    if n == 0 {
      assert forall x :: x !in s;
      assert s == {};
    } else if x :| x in s && g(x) == n - 1 {
      InjectiveBound(s - {x}, g, n - 1);
    } else {
      InjectiveBound(s, g, n - 1);
    }
  }

  lemma Pigeonhole(f: Allocation, slot: nat -> CidrText, g: Source -> nat, n: nat, sources: set<Source>)
    requires forall s :: s in sources ==> g(s) < n && f(s) == Some(slot(g(s)))
    requires |sources| > n
    ensures !CollisionFree(f, sources)
  {
    if CollisionFree(f, sources) {
      InjectiveBound(sources, g, n);
      assert false;
    }
  }

  /** More equal-sized ranges than the pool has blocks always collide, whatever the hash. */
  lemma OversubscribedCollides(hash: Hash, pool: CidrText, sources: set<Source>, ones: Ones)
    requires Net(pool).Some? && Net(pool).value.ones <= ones && |sources| > Pow2(ones - Net(pool).value.ones)
    requires forall s :: s in sources ==> s.text.V4? && s.text.ones == ones
    ensures !CollisionFree(VirtualOf(hash, pool), sources)
  {
    var p := Net(pool).value;
    var n := Pow2(ones - p.ones);
    Pigeonhole(VirtualOf(hash, pool), (i: nat) => Slot(p, ones, i), (s: Source) => hash(s.cluster + "|" + Show(s.text)) % n, n, sources);
  }
}
