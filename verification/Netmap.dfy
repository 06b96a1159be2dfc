/** pkg/nat/remap.go: stateless 1:1 NETMAP in both directions, and when one undoes the other. */
module Netmap {
  import opened Cidr
  import opened Order
  import opened RemapText
  import opened Remap

  // ---- First-match translation ---------------------------------------------------------------------------------

  datatype Mapping = Mapping(from: Block, to: Block)

  /** The NETMAP target: the network bits of `b`, the host bits of the address. */
  function NetmapTo(b: Block, addr: nat): nat {
    b.base + addr % Size(b.ones)
  }

  function Apply(ms: seq<Mapping>, addr: nat): nat {
    if ms == [] then addr
    else if Contains(ms[0].from, addr) then NetmapTo(ms[0].to, addr)
    else Apply(ms[1..], addr)
  }

  predicate Hits(ms: seq<Mapping>, addr: nat) {
    exists m :: m in ms && Contains(m.from, addr)
  }

  lemma {:induction false} ApplyMiss(ms: seq<Mapping>, addr: nat)
    requires !Hits(ms, addr)
    ensures Apply(ms, addr) == addr
  {
    if ms != [] {
      assert ms[0] in ms;
      ApplyMiss(ms[1..], addr);
    }
  }

  lemma {:induction false} ApplyHit(ms: seq<Mapping>, m: Mapping, addr: nat)
    requires m in ms && Contains(m.from, addr) && forall o :: o in ms && Contains(o.from, addr) ==> o == m
    ensures Apply(ms, addr) == NetmapTo(m.to, addr)
  {
    assert ms[0] in ms;
    if ms[0] != m {
      assert m in ms[1..];
      ApplyHit(ms[1..], m, addr);
    }
  }

  lemma HostBits(p: nat, q: nat, r: nat, d: nat)
    requires d > 0 && r < d
    ensures (q * d + r) % d == r && (p * d + r) / d == p
  {
    DivUnique(q * d + r, d, q);
    DivUnique(p * d + r, d, p);
    assert q * d + r == (q * d + r) / d * d + (q * d + r) % d;
  }

  lemma OffsetKept(a: nat, b: nat, d: nat, addr: nat)
    requires d > 0 && b % d == 0 && addr / d * d == a
    ensures var y := b + addr % d; y / d * d == b && a + y % d == addr && y == b + (addr - a)
  {
    var r := addr % d;
    assert addr == addr / d * d + r;
    MultipleIsFloor(b, d);
    HostBits(b / d, b / d, r, d);
  }

  /** Between blocks of one length NETMAP keeps the offset, and mapping back restores the address. */
  lemma NetmapMoves(a: Block, b: Block, addr: nat)
    requires a.ones == b.ones && Contains(a, addr)
    ensures Contains(b, NetmapTo(b, addr)) && NetmapTo(a, NetmapTo(b, addr)) == addr
    ensures NetmapTo(b, addr) == b.base + (addr - a.base)
  {
    OffsetKept(a.base, b.base, Size(a.ones), addr);
  }

  function Flip(ms: seq<Mapping>): (r: seq<Mapping>)
    ensures |r| == |ms| && forall i :: 0 <= i < |ms| ==> r[i] == Mapping(ms[i].to, ms[i].from)
  {
    seq(|ms|, i requires 0 <= i < |ms| => Mapping(ms[i].to, ms[i].from))
  }

  lemma FlipMember(ms: seq<Mapping>, m: Mapping)
    ensures m in Flip(ms) <==> Mapping(m.to, m.from) in ms
  {
    if m in Flip(ms) {
      var i :| 0 <= i < |ms| && Flip(ms)[i] == m;
      assert ms[i] in ms;
    }
    if Mapping(m.to, m.from) in ms {
      var i :| 0 <= i < |ms| && ms[i] == Mapping(m.to, m.from);
      assert Flip(ms)[i] in Flip(ms);
    }
  }

  /** Every pair keeps the size, and neither side holds two ranges that share an address. */
  ghost predicate Bijective(ms: seq<Mapping>) {
    && (forall m :: m in ms ==> m.from.ones == m.to.ones)
    && (forall m, o :: m in ms && o in ms && Overlap(m.from, o.from) ==> m == o)
    && (forall m, o :: m in ms && o in ms && Overlap(m.to, o.to) ==> m == o)
  }

  lemma FlipBijective(ms: seq<Mapping>)
    requires Bijective(ms)
    ensures Bijective(Flip(ms))
  {
    forall m ensures m in Flip(ms) <==> Mapping(m.to, m.from) in ms {
      FlipMember(ms, m);
    }
  }

  lemma OnlyHit(ms: seq<Mapping>, m: Mapping, addr: nat)
    requires Bijective(ms) && m in ms && Contains(m.from, addr)
    ensures Apply(ms, addr) == NetmapTo(m.to, addr)
  {
    forall o | o in ms && Contains(o.from, addr) ensures o == m {
      OverlapExact(o.from, m.from);
    }
    ApplyHit(ms, m, addr);
  }

  lemma MappedAndBack(ms: seq<Mapping>, m: Mapping, addr: nat)
    requires Bijective(ms) && m in ms && Contains(m.from, addr)
    ensures Contains(m.to, Apply(ms, addr)) && Apply(Flip(ms), Apply(ms, addr)) == addr
  {
    OnlyHit(ms, m, addr);
    NetmapMoves(m.from, m.to, addr);
    FlipBijective(ms);
    FlipMember(ms, Mapping(m.to, m.from));
    OnlyHit(Flip(ms), Mapping(m.to, m.from), Apply(ms, addr));
  }

  /** The reverse table undoes the forward one on an address if and only if the address is translated
      at all, or is not one of the addresses others are translated to. */
  lemma RoundTripExactly(ms: seq<Mapping>, addr: nat)
    requires Bijective(ms)
    ensures Apply(Flip(ms), Apply(ms, addr)) == addr <==> Hits(ms, addr) || !Hits(Flip(ms), addr)
  {
    if m :| m in ms && Contains(m.from, addr) {
      MappedAndBack(ms, m, addr);
    } else {
      ApplyMiss(ms, addr);
      if f :| f in Flip(ms) && Contains(f.from, addr) {
        FlipBijective(ms);
        FlipMember(ms, f);
        OnlyHit(Flip(ms), f, addr);
        NetmapMoves(f.from, f.to, addr);
        assert Mapping(f.to, f.from) in ms;
      } else {
        ApplyMiss(Flip(ms), addr);
      }
    }
  }

  // ---- Tables whose ranges may nest ------------------------------------------------------------------------------------

  /** Every pair keeps the size; sources and targets may nest. */
  ghost predicate Sized(ms: seq<Mapping>) {
    forall i :: 0 <= i < |ms| ==> ms[i].from.ones == ms[i].to.ones
  }

  /** The i-th pair is the one that translates the address. */
  ghost predicate Translates(ms: seq<Mapping>, i: nat, addr: nat) {
    i < |ms| && Contains(ms[i].from, addr) && forall j :: 0 <= j < i ==> !Contains(ms[j].from, addr)
  }

  lemma {:induction false} ApplyAt(ms: seq<Mapping>, i: nat, addr: nat)
    requires Translates(ms, i, addr)
    ensures Apply(ms, addr) == NetmapTo(ms[i].to, addr)
  {
    if i > 0 {
      assert forall j :: 0 <= j < i - 1 ==> ms[1..][j] == ms[j + 1];
      ApplyAt(ms[1..], i - 1, addr);
    }
  }

  lemma {:induction false} FirstHit(ms: seq<Mapping>, i: nat, addr: nat) returns (j: nat)
    requires i < |ms| && Contains(ms[i].from, addr)
    ensures j <= i && Translates(ms, j, addr)
  {
    if k :| 0 <= k < i && Contains(ms[k].from, addr) {
      j := FirstHit(ms, k, addr);
    } else {
      j := i;
    }
  }

  /** A translated address comes back from its presented address if and only if no earlier target range holds that
      address: otherwise the first of those sends it elsewhere. */
  lemma RestoredExactly(ms: seq<Mapping>, i: nat, addr: nat)
    requires Sized(ms) && Translates(ms, i, addr)
    ensures Contains(ms[i].to, Apply(ms, addr))
    ensures Apply(Flip(ms), Apply(ms, addr)) == addr <==> forall j :: 0 <= j < i ==> !Contains(ms[j].to, Apply(ms, addr))
  {
    ApplyAt(ms, i, addr);
    NetmapMoves(ms[i].from, ms[i].to, addr);
    var f, y := Flip(ms), Apply(ms, addr);
    var j := FirstHit(f, i, y);
    ApplyAt(f, j, y);
    if j < i {
      NetmapMoves(ms[j].to, ms[j].from, y);
      assert Contains(ms[j].to, y);
    }
  }

  /** A translated address whose image no earlier target holds, or an address that is neither source nor target. */
  ghost predicate Undone(ms: seq<Mapping>, addr: nat) {
    if Hits(ms, addr) then
      exists i :: Translates(ms, i, addr) && forall j :: 0 <= j < i ==> !Contains(ms[j].to, Apply(ms, addr))
    else !Hits(Flip(ms), addr)
  }

  /** Exactly which addresses the reverse table restores, in the order of the rules. */
  lemma UndoneExactly(ms: seq<Mapping>, addr: nat)
    requires Sized(ms)
    ensures Apply(Flip(ms), Apply(ms, addr)) == addr <==> Undone(ms, addr)
  {
    if m :| m in ms && Contains(m.from, addr) {
      var k :| 0 <= k < |ms| && ms[k] == m;
      var i := FirstHit(ms, k, addr);
      RestoredExactly(ms, i, addr);
    } else {
      ApplyMiss(ms, addr);
      UntranslatedReturns(ms, addr);
    }
  }

  lemma UntranslatedReturns(ms: seq<Mapping>, addr: nat)
    requires Sized(ms) && !Hits(ms, addr)
    ensures Apply(Flip(ms), addr) == addr <==> !Hits(Flip(ms), addr)
  {
    var f := Flip(ms);
    if m :| m in f && Contains(m.from, addr) {
      var i :| 0 <= i < |f| && f[i] == m;
      var j := FirstHit(f, i, addr);
      ApplyAt(f, j, addr);
      NetmapMoves(ms[j].to, ms[j].from, addr);
      assert ms[j] in ms;
    } else {
      ApplyMiss(f, addr);
    }
  }

  /** An address of a virtual range that is in no real range is sent to a real host. */
  lemma UnusedVirtualMoves(m: Mapping, addr: nat)
    requires m.from.ones == m.to.ones && !Overlap(m.from, m.to) && Contains(m.to, addr)
    ensures Apply([m], addr) == addr && Contains(m.from, Apply(Flip([m]), addr)) && Apply(Flip([m]), addr) != addr
  {
    OverlapExact(m.from, m.to);
    assert [m][1..] == [] && Flip([m])[0] == Mapping(m.to, m.from);
    NetmapMoves(m.to, m.from, addr);
  }

  /** The source ranges share no address. */
  ghost predicate SourcesApart(ms: seq<Mapping>) {
    forall i, j :: 0 <= i < j < |ms| ==> !Overlap(ms[i].from, ms[j].from)
  }

  ghost predicate TargetsApart(ms: seq<Mapping>) {
    forall i, j :: 0 <= i < j < |ms| ==> !Overlap(ms[i].to, ms[j].to)
  }

  ghost predicate AllRestored(ms: seq<Mapping>) {
    forall addr: nat :: Hits(ms, addr) ==> Apply(Flip(ms), Apply(ms, addr)) == addr
  }

  lemma ApartTranslates(ms: seq<Mapping>, i: nat, addr: nat)
    requires SourcesApart(ms) && i < |ms| && Contains(ms[i].from, addr)
    ensures Translates(ms, i, addr)
  {
    forall j | 0 <= j < i ensures !Contains(ms[j].from, addr) {
      OverlapExact(ms[j].from, ms[i].from);
    }
  }

  /** Two target ranges that share an address misroute a source of the later one, whichever is listed first. */
  lemma SharedTargetMisroutes(ms: seq<Mapping>, i: nat, j: nat) returns (addr: nat)
    requires Sized(ms) && SourcesApart(ms) && i < j < |ms| && Overlap(ms[i].to, ms[j].to)
    ensures Contains(ms[j].from, addr) && Apply(Flip(ms), Apply(ms, addr)) != addr
  {
    OverlapExact(ms[i].to, ms[j].to);
    var y: int :| Contains(ms[i].to, y) && Contains(ms[j].to, y);
    ContainsIsRange(ms[j].to, y);
    NetmapMoves(ms[j].to, ms[j].from, y);
    addr := NetmapTo(ms[j].from, y);
    ApartTranslates(ms, j, addr);
    ApplyAt(ms, j, addr);
    RestoredExactly(ms, j, addr);
  }

  /** All translated addresses come back, in whatever order the rules are, if and only if no two targets share an address. */
  lemma AllRestoredExactly(ms: seq<Mapping>)
    requires Sized(ms) && SourcesApart(ms)
    ensures AllRestored(ms) <==> TargetsApart(ms)
  {
    if !TargetsApart(ms) {
      var i, j :| 0 <= i < j < |ms| && Overlap(ms[i].to, ms[j].to);
      var addr := SharedTargetMisroutes(ms, i, j);
      assert ms[j] in ms && Hits(ms, addr);
    } else {
      forall addr: nat | Hits(ms, addr) ensures Apply(Flip(ms), Apply(ms, addr)) == addr {
        ApartRestored(ms, addr);
      }
    }
  }

  lemma ApartRestored(ms: seq<Mapping>, addr: nat)
    requires Sized(ms) && SourcesApart(ms) && TargetsApart(ms) && Hits(ms, addr)
    ensures Apply(Flip(ms), Apply(ms, addr)) == addr
  {
    var m :| m in ms && Contains(m.from, addr);
    var i :| 0 <= i < |ms| && ms[i] == m;
    ApartTranslates(ms, i, addr);
    RestoredExactly(ms, i, addr);
    forall j | 0 <= j < i ensures !Contains(ms[j].to, Apply(ms, addr)) {
      OverlapExact(ms[j].to, ms[i].to);
    }
  }

  /** With nested virtual ranges the wider one listed first steals the narrower one's traffic: every address
      behind the narrower range comes back as a different one. */
  lemma NestedMisroutes(wide: Mapping, narrow: Mapping, addr: nat)
    requires wide.from.ones == wide.to.ones && narrow.from.ones == narrow.to.ones
    requires Contains(wide.to, narrow.to.base) && wide.to.ones <= narrow.to.ones
    requires !Overlap(wide.from, narrow.from) && Contains(narrow.from, addr)
    ensures var ms := [wide, narrow]; Apply(Flip(ms), Apply(ms, addr)) != addr
  {
    var ms := [wide, narrow];
    OverlapExact(wide.from, narrow.from);
    assert !Contains(wide.from, addr);
    assert ms[1..] == [narrow] && ms[1..][0] == narrow;
    var y := Apply(ms, addr);
    assert y == Apply(ms[1..], addr) == NetmapTo(narrow.to, addr);
    NetmapMoves(narrow.from, narrow.to, addr);
    MaskedTwice(y, narrow.to.ones, wide.to.ones);
    assert Contains(wide.to, y);
    assert Flip(ms)[0] == Mapping(wide.to, wide.from);
    NetmapMoves(wide.to, wide.from, y);
  }

  // ---- The rules -----------------------------------------------------------------------------------------------------

  datatype NetmapRule = Pre(dst: CidrText, to: CidrText) | Post(src: CidrText, to: CidrText)

  /** The empty text, which does not parse. */
  predicate Blank(c: CidrText) {
    c.Malformed? && c.text == ""
  }

  predicate Kept(e: Entry) {
    !Blank(e.actual) && !Blank(e.virtual)
  }

  function KeptOf(entries: seq<Entry>): set<Entry> {
    set e | e in entries && Kept(e)
  }

  predicate LessEntry(a: Entry, b: Entry) {
    if Show(a.virtual) != Show(b.virtual) then StringLess(Show(a.virtual), Show(b.virtual))
    else StringLess(Show(a.actual), Show(b.actual))
  }

  predicate EntryV4(e: Entry) {
    e.actual.V4? && e.virtual.V4?
  }

  lemma LessEntryTriple(a: Entry, b: Entry, c: Entry)
    ensures !LessEntry(a, a)
    ensures LessEntry(a, b) && LessEntry(b, c) ==> LessEntry(a, c)
    ensures !LessEntry(a, b) && !LessEntry(b, c) ==> !LessEntry(a, c)
  {
    StringLessTriple(Show(a.virtual), Show(b.virtual), Show(c.virtual));
    StringLessTriple(Show(a.actual), Show(b.actual), Show(c.actual));
    StringLessTriple(Show(b.virtual), Show(c.virtual), Show(a.virtual));
    StringLessTriple(Show(c.virtual), Show(a.virtual), Show(b.virtual));
  }

  lemma LessEntryWeak()
    ensures WeakOrder(LessEntry)
  {
    forall a, b, c
      ensures LessEntry(a, b) && LessEntry(b, c) ==> LessEntry(a, c)
      ensures !LessEntry(a, b) && !LessEntry(b, c) ==> !LessEntry(a, c)
    {
      LessEntryTriple(a, b, c);
    }
    forall a ensures !LessEntry(a, a) {
      LessEntryTriple(a, a, a);
    }
  }

  /** Distinct entries print differently, as distinct texts do. */
  ghost predicate PrintApart(s: set<Entry>) {
    forall e, f :: e in s && f in s && Show(e.actual) == Show(f.actual) && Show(e.virtual) == Show(f.virtual) ==> e == f
  }

  lemma EntriesPrintApart(s: set<Entry>)
    requires forall e :: e in s ==> EntryV4(e)
    ensures PrintApart(s)
  {
    forall e, f | e in s && f in s && Show(e.actual) == Show(f.actual) && Show(e.virtual) == Show(f.virtual) ensures e == f {
      ShowInjective(e.actual, f.actual);
      ShowInjective(e.virtual, f.virtual);
    }
  }

  lemma LessEntryTotal(s: set<Entry>)
    requires PrintApart(s)
    ensures TotalOn(LessEntry, s)
  {
    forall a, b | a in s && b in s && a != b ensures LessEntry(a, b) || LessEntry(b, a) {
      StringLessTriple(Show(a.virtual), Show(b.virtual), Show(b.virtual));
      StringLessTriple(Show(a.actual), Show(b.actual), Show(b.actual));
    }
  }

  function PreOf(e: Entry): NetmapRule {
    Pre(e.virtual, e.actual)
  }

  function PostOf(e: Entry): NetmapRule {
    Post(e.actual, e.virtual)
  }

  /** All inbound rules, then all outbound rules, in entry order. */
  function Printed(es: seq<Entry>): seq<NetmapRule> {
    seq(|es|, i requires 0 <= i < |es| => PreOf(es[i])) + seq(|es|, i requires 0 <= i < |es| => PostOf(es[i]))
  }

  /** The rules print the entries of `s` in order, each once per direction. */
  ghost predicate RulesFor(s: set<Entry>, es: seq<Entry>, rules: seq<NetmapRule>) {
    StrictlySorted(LessEntry, es) && Elements(es) == s && rules == Printed(es)
  }

  ghost predicate RulesOf(s: set<Entry>, rules: seq<NetmapRule>) {
    exists es :: RulesFor(s, es, rules)
  }

  /** The rules depend only on which entries there are. */
  lemma RulesDetermined(s: set<Entry>, rules: seq<NetmapRule>, rules': seq<NetmapRule>)
    requires RulesOf(s, rules) && RulesOf(s, rules')
    ensures rules == rules'
  {
    var es :| RulesFor(s, es, rules);
    var es' :| RulesFor(s, es', rules');
    LessEntryWeak();
    StrictlySortedUnique(LessEntry, es, es');
  }

  method Deduplicate(entries: seq<Entry>) returns (uniq: seq<Entry>)
    ensures Elements(uniq) == KeptOf(entries) && NoDup(uniq)
  {
    var seen: set<Entry> := {};
    uniq := [];
    for i := 0 to |entries|
      invariant seen == Elements(uniq) == KeptOf(entries[..i]) && NoDup(uniq)
    {
      var e := entries[i];
      PrefixElements(entries, i);
      if !Kept(e) || e in seen {
        assert KeptOf(entries[..i + 1]) == KeptOf(entries[..i]);
        continue;
      }
      assert KeptOf(entries[..i + 1]) == KeptOf(entries[..i]) + {e};
      ElementsAppend(uniq, [e]);
      seen := seen + {e};
      uniq := uniq + [e];
    }
    assert entries[..|entries|] == entries;
  }

  /** An entry has its two rules if and only if neither side is blank. */
  lemma PrintedExactly(entries: seq<Entry>, rules: seq<NetmapRule>, actual: CidrText, virtual: CidrText)
    requires RulesOf(KeptOf(entries), rules)
    ensures Pre(virtual, actual) in rules <==> Entry(actual, virtual) in entries && actual != Malformed("") && virtual != Malformed("")
    ensures Post(actual, virtual) in rules <==> Entry(actual, virtual) in entries && actual != Malformed("") && virtual != Malformed("")
  {
    var es :| RulesFor(KeptOf(entries), es, rules);
    var e := Entry(actual, virtual);
    assert e in Elements(es) <==> e in entries && Kept(e);
    RuleOfEntry(es, e);
  }

  lemma RuleOfEntry(es: seq<Entry>, e: Entry)
    ensures PreOf(e) in Printed(es) <==> e in es
    ensures PostOf(e) in Printed(es) <==> e in es
  {
    var rules := Printed(es);
    assert forall i :: 0 <= i < |es| ==> rules[i] == PreOf(es[i]) && rules[|es| + i] == PostOf(es[i]);
    assert forall i :: |es| <= i < |rules| ==> rules[i] == PostOf(es[i - |es|]);
    if i :| 0 <= i < |es| && es[i] == e {
      assert rules[i] == PreOf(e) && rules[|es| + i] == PostOf(e);
    }
  }

  /** The rules of one direction come by virtual range, then by real range, as texts. */
  lemma PrintedInOrder(s: set<Entry>, rules: seq<NetmapRule>, i: nat, j: nat)
    requires RulesOf(s, rules) && i < j < |rules| && rules[i].Pre? && rules[j].Pre?
    ensures || StringLess(Show(rules[i].dst), Show(rules[j].dst))
            || (Show(rules[i].dst) == Show(rules[j].dst) && StringLess(Show(rules[i].to), Show(rules[j].to)))
  {
    var es :| RulesFor(s, es, rules);
    assert forall k :: 0 <= k < |es| ==> rules[k] == PreOf(es[k]);
    assert forall k :: |es| <= k < |rules| ==> rules[k] == PostOf(es[k - |es|]);
    assert LessEntry(es[i], es[j]);
  }

  method BuildRemapRules(entries: seq<Entry>) returns (rules: seq<NetmapRule>)
    requires PrintApart(KeptOf(entries))
    ensures RulesOf(KeptOf(entries), rules)
  {
    var uniq := Deduplicate(entries);
    LessEntryWeak();
    LessEntryTotal(Elements(uniq));
    var sorted := SortSlice(LessEntry, uniq);
    PermutationElements(uniq, sorted);
    PermutationNoDup(uniq, sorted);
    SortedDistinctIsStrict(LessEntry, sorted);
    rules := PrintRules(sorted);
    assert RulesFor(KeptOf(entries), sorted, rules);
  }

  method PrintRules(sorted: seq<Entry>) returns (rules: seq<NetmapRule>)
    ensures rules == Printed(sorted)
  {
    rules := [];
    for i := 0 to |sorted|
      invariant |rules| == i && forall j :: 0 <= j < i ==> rules[j] == PreOf(sorted[j])
    {
      rules := rules + [Pre(sorted[i].virtual, sorted[i].actual)];
    }
    ghost var pre := rules;
    for i := 0 to |sorted|
      invariant |rules| == |sorted| + i && rules[..|sorted|] == pre
      invariant forall j :: 0 <= j < i ==> rules[|sorted| + j] == PostOf(sorted[j])
    {
      rules := rules + [Post(sorted[i].actual, sorted[i].virtual)];
    }
  }

  // ---- What the rules do to an address --------------------------------------------------------------------------------

  function MappingOf(from: CidrText, to: CidrText): seq<Mapping> {
    if Net(from).Some? && Net(to).Some? then [Mapping(Net(from).value, Net(to).value)] else []
  }

  function PreMapping(r: NetmapRule): seq<Mapping> {
    if r.Pre? then MappingOf(r.dst, r.to) else []
  }

  function PostMapping(r: NetmapRule): seq<Mapping> {
    if r.Post? then MappingOf(r.src, r.to) else []
  }

  /** Destination translation in PREROUTING. */
  function Inbound(rules: seq<NetmapRule>, addr: nat): nat {
    Apply(Collect(PreMapping, rules), addr)
  }

  /** Source translation in POSTROUTING. */
  function Outbound(rules: seq<NetmapRule>, addr: nat): nat {
    Apply(Collect(PostMapping, rules), addr)
  }

  function PairOf(e: Entry): Mapping
    requires EntryV4(e)
  {
    Mapping(Net(e.actual).value, Net(e.virtual).value)
  }

  predicate AllEntryV4(es: seq<Entry>) {
    forall i :: 0 <= i < |es| ==> EntryV4(es[i])
  }

  /** The outbound translation table of the entries. */
  function Table(es: seq<Entry>): (r: seq<Mapping>)
    requires AllEntryV4(es)
    ensures |r| == |es| && forall i :: 0 <= i < |es| ==> r[i] == PairOf(es[i])
  {
    seq(|es|, i requires 0 <= i < |es| => PairOf(es[i]))
  }

  lemma TablesOfRules(es: seq<Entry>)
    requires AllEntryV4(es)
    ensures Collect(PostMapping, Printed(es)) == Table(es)
    ensures Collect(PreMapping, Printed(es)) == Flip(Table(es))
  {
    var pre := seq(|es|, i requires 0 <= i < |es| => PreOf(es[i]));
    var post := seq(|es|, i requires 0 <= i < |es| => PostOf(es[i]));
    CollectConcat(PostMapping, pre, post);
    CollectConcat(PreMapping, pre, post);
    CollectNone(PostMapping, pre);
    CollectNone(PreMapping, post);
    CollectMap(PostMapping, post, Table(es));
    CollectMap(PreMapping, pre, Flip(Table(es)));
  }

  /** Exactly which addresses the printed rules restore, outbound then inbound. */
  lemma RulesRoundTripExactly(es: seq<Entry>, addr: nat)
    requires AllEntryV4(es) && Sized(Table(es))
    ensures Inbound(Printed(es), Outbound(Printed(es), addr)) == addr <==> Undone(Table(es), addr)
  {
    TablesOfRules(es);
    UndoneExactly(Table(es), addr);
  }

  /** Every host of an entry comes back through the printed rules. */
  ghost predicate HostsRestored(es: seq<Entry>)
    requires AllEntryV4(es)
  {
    forall host: nat :: Hits(Table(es), host) ==> Inbound(Printed(es), Outbound(Printed(es), host)) == host
  }

  lemma RulesRestoreExactly(es: seq<Entry>)
    requires AllEntryV4(es) && Sized(Table(es)) && SourcesApart(Table(es))
    ensures HostsRestored(es) <==> TargetsApart(Table(es))
  {
    AllRestoredExactly(Table(es));
    TablesOfRules(es);
    if HostsRestored(es) {
      forall host: nat | Hits(Table(es), host) ensures Apply(Flip(Table(es)), Apply(Table(es), host)) == host {
        assert Inbound(Printed(es), Outbound(Printed(es), host)) == host;
      }
    }
  }
}
