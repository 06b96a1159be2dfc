/** pkg/dns/allocate.go: ClusterSetIPs every cluster computes alike. */
module Allocate {
  import opened Cidr
  import opened Order
  import opened Text
  import opened Probing

  /** A CIDR of either family: base address, host bits, address width. */
  datatype Range = Range(base: nat, hostBits: nat, bits: nat)

  predicate IsPool(r: Range) {
    r.hostBits <= r.bits && r.base % Pow2(r.hostBits) == 0 && r.base + Pow2(r.hostBits) <= Pow2(r.bits)
  }

  /** What `net.ParseCIDR` yields: the base has no host bits and the range fits the address width. */
  type Pool = r: Range | IsPool(r) witness Range(0, 0, 0)

  function PoolSize(p: Pool): nat {
    Pow2(p.hostBits)
  }

  /** FNV-64a of a text. */
  type Hash64 = string -> nat

  function OffsetInRange(hash: Hash64, key: string, attempt: nat, size: nat): nat
    requires size > 0
  {
    hash(key + "#" + Itoa(attempt)) % size
  }

  /** The low bytes of the number, as wide as the address family. */
  function ToIP(v: nat, bits: nat): nat {
    v % Pow2(bits)
  }

  function Attempt(pool: Pool, hash: Hash64, key: string, a: nat): Option<nat> {
    var off := OffsetInRange(hash, key, a, PoolSize(pool));
    if off == 0 then None else Some(ToIP(pool.base + off, pool.bits))
  }

  function ProbeOf(pool: Pool, hash: Hash64): Probe {
    (key: string, a: nat) => Attempt(pool, hash, key, a)
  }

  lemma LowBytesExact(v: nat, base: nat, size: nat, total: nat)
    requires base <= v < base + size <= total
    ensures v % total == v
  {
  }

  /** Every address tried lies inside the range, past the network address; truncation loses nothing. */
  lemma AttemptInRange(pool: Pool, hash: Hash64, key: string, a: nat)
    ensures var r := Attempt(pool, hash, key, a); r.Some? ==> pool.base < r.value < pool.base + PoolSize(pool)
  {
    var off := OffsetInRange(hash, key, a, PoolSize(pool));
    LowBytesExact(pool.base + off, pool.base, PoolSize(pool), Pow2(pool.bits));
  }

  /** Distinct (key, attempt) pairs hash distinct texts. */
  lemma AttemptTextsDiffer(k: string, a: nat, l: string, b: nat)
    requires k + "#" + Itoa(a) == l + "#" + Itoa(b)
    ensures k == l && a == b
  {
    DigitsAreDigits(a);
    DigitsAreDigits(b);
    SplitAtLast(k, Itoa(a), l, Itoa(b), '#');
    ItoaInjective(a, b);
  }

  /** The offset wanted for the text of an attempt, whoever's it is. */
  ghost function WantedOffset(want: (string, nat) -> nat, text: string): nat {
    if exists k, a: nat :: text == k + "#" + Itoa(a) then var k, a: nat :| text == k + "#" + Itoa(a); want(k, a) else 0
  }

  /** Attempts are independent, and reach every address of the range: for any choice of an offset for each key and attempt
      there is a hash under which they try exactly those, skipping only the network address. */
  lemma AnyAttemptsArePossible(pool: Pool, want: (string, nat) -> nat) returns (hash: Hash64)
    requires forall k, a :: want(k, a) < PoolSize(pool)
    ensures forall k: string, a: nat :: Attempt(pool, hash, k, a) == if want(k, a) == 0 then None else Some(pool.base + want(k, a))
  {
    hash := text => WantedOffset(want, text);
    forall k: string, a: nat ensures Attempt(pool, hash, k, a) == if want(k, a) == 0 then None else Some(pool.base + want(k, a)) {
      WantedExactly(want, k, a);
      AttemptAt(pool, hash, k, a, want(k, a));
    }
  }

  lemma WantedExactly(want: (string, nat) -> nat, k: string, a: nat)
    ensures WantedOffset(want, k + "#" + Itoa(a)) == want(k, a)
  {
    var text := k + "#" + Itoa(a);
    assert exists k', a': nat :: text == k' + "#" + Itoa(a');
    forall l, b: nat | text == l + "#" + Itoa(b) ensures l == k && b == a {
      AttemptTextsDiffer(l, b, k, a);
    }
  }

  lemma AttemptAt(pool: Pool, hash: Hash64, k: string, a: nat, off: nat)
    requires hash(k + "#" + Itoa(a)) == off < PoolSize(pool)
    ensures Attempt(pool, hash, k, a) == if off == 0 then None else Some(pool.base + off)
  {
    BelowModulus(off, PoolSize(pool));
    LowBytesExact(pool.base + off, pool.base, PoolSize(pool), Pow2(pool.bits));
  }

  predicate InPool(pool: Pool, v: nat) {
    pool.base < v < pool.base + PoolSize(pool)
  }

  /** The addresses that may be handed out: those of the range but its first, the network address. */
  lemma InPoolExactly(pool: Pool, v: nat)
    ensures InPool(pool, v) <==> v != pool.base && v / PoolSize(pool) == pool.base / PoolSize(pool)
  {
    var d := PoolSize(pool);
    MultipleIsFloor(pool.base, d);
    DivBounds(v, d);
    if v / d == pool.base / d {
      assert v / d * d == pool.base;
    } else if InPool(pool, v) {
      DivUnique(v, d, pool.base / d);
    }
  }

  lemma TriedInPool(pool: Pool, hash: Hash64, key: string, v: nat)
    requires Tried(ProbeOf(pool, hash), key, v)
    ensures InPool(pool, v)
  {
    var a: nat :| ProbeOf(pool, hash)(key, a) == Some(v);
    AttemptInRange(pool, hash, key, a);
  }

  ghost predicate Within(probe: Probe, good: nat -> bool) {
    forall key: string, a: nat :: probe(key, a).Some? ==> good(probe(key, a).value)
  }

  lemma ProbeWithin(pool: Pool, hash: Hash64)
    ensures Within(ProbeOf(pool, hash), (v: nat) => InPool(pool, v))
  {
    forall key: string, a: nat ensures var r := ProbeOf(pool, hash)(key, a); r.Some? ==> InPool(pool, r.value) {
      AttemptInRange(pool, hash, key, a);
    }
  }

  /** The probing loop shared by both allocators. */
  method AllocateOne(probe: Probe, key: string, budget: nat, used: set<nat>) returns (r: Option<nat>, used': set<nat>)
    ensures r == First(probe, key, 0, budget, used)
    ensures used' == if r.Some? then used + {r.value} else used
  {
    for attempt := 0 to budget
      invariant First(probe, key, 0, budget, used) == First(probe, key, attempt, budget, used)
    {
      var ip := probe(key, attempt);
      if ip.None? || ip.value in used {
        continue;
      }
      return ip, used + {ip.value};
    }
    return None, used;
  }

  // ---- Services ------------------------------------------------------------------------------------------------------------

  datatype ServiceKey = ServiceKey(namespace: string, name: string)

  function NameOf(k: ServiceKey): string {
    k.namespace + "/" + k.name
  }

  predicate LessService(a: ServiceKey, b: ServiceKey) {
    StringLess(NameOf(a), NameOf(b))
  }

  function Names(keys: seq<ServiceKey>): (r: seq<string>)
    ensures |r| == |keys| && forall i :: 0 <= i < |keys| ==> r[i] == NameOf(keys[i])
  {
    seq(|keys|, i requires 0 <= i < |keys| => NameOf(keys[i]))
  }

  function NameSet(keys: set<ServiceKey>): set<string> {
    set k | k in keys :: NameOf(k)
  }

  /** No key is listed twice and no two keys print alike. */
  ghost predicate DistinctNames(keys: seq<ServiceKey>) {
    NoDup(keys) && forall k, l :: k in keys && l in keys && NameOf(k) == NameOf(l) ==> k == l
  }

  /** Namespaces carry no slash, so different services are named differently. */
  lemma SlashFreeNames(keys: seq<ServiceKey>)
    requires NoDup(keys) && forall k :: k in keys ==> '/' !in k.namespace
    ensures DistinctNames(keys)
  {
    forall k, l | k in keys && l in keys && NameOf(k) == NameOf(l) ensures k == l {
      SplitAtFirst(k.namespace, k.name, l.namespace, l.name, '/');
    }
  }

  lemma LessServiceWeak()
    ensures WeakOrder(LessService)
  {
    forall a, b, c
      ensures LessService(a, b) && LessService(b, c) ==> LessService(a, c)
      ensures !LessService(a, b) && !LessService(b, c) ==> !LessService(a, c)
    {
      StringLessTriple(NameOf(a), NameOf(b), NameOf(c));
    }
    forall a ensures !LessService(a, a) {
      StringLessTriple(NameOf(a), NameOf(a), NameOf(a));
    }
  }

  lemma SortedServiceNames(sorted: seq<ServiceKey>)
    requires Sorted(LessService, sorted) && DistinctNames(sorted)
    ensures Names(sorted) == SortedNames(NameSet(Elements(sorted))) && NoDup(Names(sorted))
  {
    var names := Names(sorted);
    NamesOrdered();
    forall i, j | 0 <= i < j < |names| ensures StringLess(names[i], names[j]) {
      assert sorted[i] in sorted && sorted[j] in sorted;
      StringLessTriple(names[i], names[j], names[j]);
    }
    StrictIsDistinct(StringLess, names);
    assert Elements(names) == NameSet(Elements(sorted)) by {
      forall i | 0 <= i < |names| ensures names[i] in NameSet(Elements(sorted)) {
        assert sorted[i] in Elements(sorted);
      }
      forall n | n in NameSet(Elements(sorted)) ensures n in names {
        var k :| k in Elements(sorted) && NameOf(k) == n;
        var i := IndexIn(sorted, k);
        assert names[i] in names;
      }
    }
    StrictlySortedUnique(StringLess, names, SortedNames(NameSet(Elements(sorted))));
  }

  datatype AllocResult = Allocated(out: map<ServiceKey, nat>) | BadRange | TooSmall | Exhausted

  /** What the services of `keys` are given, as a function of which services there are. */
  ghost function ServiceAddresses(probe: Probe, keys: set<ServiceKey>): Option<map<string, nat>> {
    Addresses(probe, NameSet(keys), |keys| + 64, {})
  }

  /** For distinct names the outcome depends only on the set of services: exactly when their allocation exists it is
      returned. For any input the addresses lie in the range, past the network address. */
  method AllocateClusterSetIPs(parsed: Option<Pool>, hash: Hash64, keys: seq<ServiceKey>) returns (r: AllocResult)
    ensures r.BadRange? <==> parsed.None?
    ensures parsed.Some? ==> (r.TooSmall? <==> PoolSize(parsed.value) < |keys| + 1)
    ensures r.Allocated? ==> r.out.Keys == Elements(keys) && forall k :: k in r.out ==> InPool(parsed.value, r.out[k])
    ensures (parsed.Some? && DistinctNames(keys) && PoolSize(parsed.value) >= |keys| + 1 ==>
               AgreesWith(r, keys, ServiceAddresses(ProbeOf(parsed.value, hash), Elements(keys))))
  {
    if parsed.None? {
      return BadRange;
    }
    var pool := parsed.value;
    ProbeWithin(pool, hash);
    r := AllocateFrom(ProbeOf(pool, hash), PoolSize(pool), keys, (v: nat) => InPool(pool, v));
  }

  method AllocateFrom(probe: Probe, size: nat, keys: seq<ServiceKey>, ghost good: nat -> bool) returns (r: AllocResult)
    requires Within(probe, good)
    ensures !r.BadRange? && (r.TooSmall? <==> size < |keys| + 1)
    ensures r.Allocated? ==> r.out.Keys == Elements(keys) && forall k :: k in r.out ==> good(r.out[k])
    ensures DistinctNames(keys) && size >= |keys| + 1 ==> AgreesWith(r, keys, ServiceAddresses(probe, Elements(keys)))
  {
    LessServiceWeak();
    var sorted := SortSlice(LessService, keys);
    PermutationElements(keys, sorted);
    SameLength(keys, sorted);
    if size < |sorted| + 1 {
      return TooSmall;
    }
    ghost var vals;
    r, vals := PlaceServices(probe, sorted, good);
    if DistinctNames(keys) {
      Reordered(keys, sorted);
      SortedAgreement(probe, keys, sorted, r, vals, Assign(probe, Names(sorted), |sorted| + MAX_PROBE_BUDGET, {}));
    }
  }

  lemma Reordered(keys: seq<ServiceKey>, sorted: seq<ServiceKey>)
    requires DistinctNames(keys) && multiset(sorted) == multiset(keys)
    ensures DistinctNames(sorted) && Elements(sorted) == Elements(keys) && |sorted| == |Elements(keys)|
  {
    SameLength(keys, sorted);
    PermutationElements(keys, sorted);
    PermutationNoDup(keys, sorted);
    DistinctCount(keys);
    SameNames(keys, sorted);
  }

  lemma SortedAgreement(probe: Probe, keys: seq<ServiceKey>, sorted: seq<ServiceKey>, r: AllocResult, vals: seq<nat>, all: Option<seq<nat>>)
    requires DistinctNames(sorted) && Elements(sorted) == Elements(keys) && |sorted| == |Elements(keys)| && Sorted(LessService, sorted)
    requires all == Assign(probe, Names(sorted), |sorted| + MAX_PROBE_BUDGET, {})
    requires (r.Allocated? <==> all.Some?) && (r.Allocated? ==> all == Some(vals) && Recorded(r.out, sorted, vals))
    ensures AgreesWith(r, keys, ServiceAddresses(probe, Elements(keys)))
  {
    var m := ServiceAddresses(probe, Elements(keys));
    PlacedByName(probe, sorted, |sorted| + MAX_PROBE_BUDGET, r, vals, all);
    SameAgreement(r, keys, sorted, m);
  }

  lemma SameNames(keys: seq<ServiceKey>, sorted: seq<ServiceKey>)
    requires DistinctNames(keys) && Elements(sorted) == Elements(keys) && NoDup(sorted)
    ensures DistinctNames(sorted)
  {
    forall k ensures k in sorted <==> k in keys {
      assert k in Elements(sorted) <==> k in Elements(keys);
    }
  }

  lemma SameAgreement(r: AllocResult, keys: seq<ServiceKey>, sorted: seq<ServiceKey>, m: Option<map<string, nat>>)
    requires AgreesWith(r, sorted, m) && Elements(sorted) == Elements(keys)
    ensures AgreesWith(r, keys, m)
  {
    forall k ensures k in sorted <==> k in keys {
      assert k in Elements(sorted) <==> k in Elements(keys);
    }
  }

  lemma SameLength(s: seq<ServiceKey>, t: seq<ServiceKey>)
    requires multiset(s) == multiset(t)
    ensures |s| == |t|
  {
    assert |multiset(s)| == |multiset(t)|;
  }

  /** The result is an allocation exactly when `m` is, and gives each key what `m` gives its name. */
  ghost predicate AgreesWith(r: AllocResult, keys: seq<ServiceKey>, m: Option<map<string, nat>>) {
    && (r.Allocated? <==> m.Some?)
    && (r.Allocated? ==> forall k :: k in keys ==> k in r.out && NameOf(k) in m.value && r.out[k] == m.value[NameOf(k)])
  }

  lemma PlacedByName(probe: Probe, sorted: seq<ServiceKey>, budget: nat, r: AllocResult, vals: seq<nat>, all: Option<seq<nat>>)
    requires Sorted(LessService, sorted) && DistinctNames(sorted) && all == Assign(probe, Names(sorted), budget, {})
    requires (r.Allocated? <==> all.Some?) && (r.Allocated? ==> all == Some(vals) && Recorded(r.out, sorted, vals))
    ensures AgreesWith(r, sorted, Addresses(probe, NameSet(Elements(sorted)), budget, {}))
  {
    SortedServiceNames(sorted);
    if r.Allocated? {
      ByName(sorted, vals, r.out);
    }
  }

  lemma ByName(sorted: seq<ServiceKey>, vals: seq<nat>, out: map<ServiceKey, nat>)
    requires |vals| == |sorted| && NoDup(Names(sorted))
    requires forall j :: 0 <= j < |sorted| ==> sorted[j] in out && out[sorted[j]] == vals[j]
    ensures forall k :: k in sorted ==> NameOf(k) in Zip(Names(sorted), vals) && out[k] == Zip(Names(sorted), vals)[NameOf(k)]
  {
    ZipPairs(Names(sorted), vals);
    forall k | k in sorted ensures NameOf(k) in Zip(Names(sorted), vals) && out[k] == Zip(Names(sorted), vals)[NameOf(k)] {
      var j := IndexIn(sorted, k);
      assert Names(sorted)[j] == NameOf(k);
    }
  }

  /** Each key placed so far is mapped to its address. */
  ghost predicate Recorded(out: map<ServiceKey, nat>, sorted: seq<ServiceKey>, vals: seq<nat>) {
    |vals| <= |sorted| && forall j :: 0 <= j < |vals| ==> sorted[j] in out && out[sorted[j]] == vals[j]
  }

  lemma RecordStep(out: map<ServiceKey, nat>, sorted: seq<ServiceKey>, vals: seq<nat>, v: nat)
    requires Recorded(out, sorted, vals) && |vals| < |sorted| && NoDup(sorted)
    ensures Recorded(out[sorted[|vals|] := v], sorted, vals + [v])
  {
  }

  ghost predicate Outputs(out: map<ServiceKey, nat>, done: set<ServiceKey>, good: nat -> bool) {
    out.Keys == done && forall k :: k in out ==> good(out[k])
  }

  lemma OutputStep(out: map<ServiceKey, nat>, sorted: seq<ServiceKey>, i: nat, v: nat, good: nat -> bool)
    requires i < |sorted| && Outputs(out, Elements(sorted[..i]), good) && good(v)
    ensures Outputs(out[sorted[i] := v], Elements(sorted[..i + 1]), good)
  {
    PrefixElements(sorted, i);
  }

  lemma PlaceStep(probe: Probe, names: seq<string>, budget: nat, i: nat, vals: seq<nat>, v: Option<nat>)
    requires i < |names| && Assign(probe, names[..i], budget, {}) == Some(vals) && v == First(probe, names[i], 0, budget, Elements(vals))
    ensures v.Some? ==> Assign(probe, names[..i + 1], budget, {}) == Some(vals + [v.value])
    ensures v.None? ==> Assign(probe, names, budget, {}) == None
    ensures v.Some? ==> Elements(vals + [v.value]) == Elements(vals) + {v.value}
  {
    assert {} + Elements(vals) == Elements(vals);
    AssignStep(probe, names, budget, {}, i);
    AssignPrefix(probe, names, budget, {}, i + 1);
  }

  /** The first `i` services are placed: where, what is in use, and what is recorded. */
  ghost predicate Placing(probe: Probe, sorted: seq<ServiceKey>, budget: nat, good: nat -> bool, i: nat,
      vals: seq<nat>, used: set<nat>, out: map<ServiceKey, nat>) {
    && i == |vals| <= |sorted| && used == Elements(vals)
    && Assign(probe, Names(sorted)[..i], budget, {}) == Some(vals)
    && Outputs(out, Elements(sorted[..i]), good)
    && (NoDup(sorted) ==> Recorded(out, sorted, vals))
  }

  /** One turn of the outer loop. */
  method PlaceNext(probe: Probe, sorted: seq<ServiceKey>, budget: nat, ghost good: nat -> bool, i: nat,
      ghost vals: seq<nat>, used: set<nat>, out: map<ServiceKey, nat>)
      returns (v: Option<nat>, used': set<nat>, out': map<ServiceKey, nat>)
    requires Within(probe, good) && i < |sorted| && Placing(probe, sorted, budget, good, i, vals, used, out)
    ensures v.None? ==> Assign(probe, Names(sorted), budget, {}) == None
    ensures v.Some? ==> Placing(probe, sorted, budget, good, i + 1, vals + [v.value], used', out')
  {
    v, used' := AllocateOne(probe, NameOf(sorted[i]), budget, used);
    out' := out;
    PlaceStep(probe, Names(sorted), budget, i, vals, v);
    if v.Some? {
      OutputStep(out, sorted, i, v.value, good);
      if NoDup(sorted) {
        RecordStep(out, sorted, vals, v.value);
      }
      out' := out[sorted[i] := v.value];
    }
  }

  /** The outer loop. */
  method PlaceServices(probe: Probe, sorted: seq<ServiceKey>, ghost good: nat -> bool) returns (r: AllocResult, ghost vals: seq<nat>)
    requires Within(probe, good)
    ensures r.Allocated? || r.Exhausted?
    ensures var all := Assign(probe, Names(sorted), |sorted| + MAX_PROBE_BUDGET, {});
      (r.Allocated? <==> all.Some?) && (r.Allocated? ==> all == Some(vals))
    ensures r.Allocated? ==> Outputs(r.out, Elements(sorted), good)
    ensures r.Allocated? && NoDup(sorted) ==> |vals| == |sorted| && Recorded(r.out, sorted, vals)
  {
    var used: set<nat> := {};
    var out: map<ServiceKey, nat> := map[];
    var budget := |sorted| + MAX_PROBE_BUDGET;
    vals := [];
    for i := 0 to |sorted|
      invariant Placing(probe, sorted, budget, good, i, vals, used, out)
    {
      var v;
      v, used, out := PlaceNext(probe, sorted, budget, good, i, vals, used, out);
      if v.None? {
        return Exhausted, vals;
      }
      vals := vals + [v.value];
    }
    assert Names(sorted)[..|sorted|] == Names(sorted) && sorted[..|sorted|] == sorted;
    r := Allocated(out);
  }

  // ---- What every cluster can rely on -----------------------------------------------------------------------------------------

  /** Addresses are pairwise distinct, inside the range, and never the network address. */
  lemma ServicesDistinct(pool: Pool, hash: Hash64, keys: set<ServiceKey>)
    requires ServiceAddresses(ProbeOf(pool, hash), keys).Some?
    ensures var m := ServiceAddresses(ProbeOf(pool, hash), keys).value;
      && m.Keys == NameSet(keys)
      && (forall k, l :: k in m && l in m && m[k] == m[l] ==> k == l)
      && (forall k :: k in m ==> InPool(pool, m[k]))
  {
    AddressesDistinct(ProbeOf(pool, hash), NameSet(keys), |keys| + MAX_PROBE_BUDGET, {});
    var m := ServiceAddresses(ProbeOf(pool, hash), keys).value;
    forall k | k in m ensures InPool(pool, m[k]) {
      TriedInPool(pool, hash, k, m[k]);
    }
  }

  /** A new service moves nobody sorted before it. The grown allocation exists with everybody in place exactly when the
      first address the newcomer finds free of the earlier services' was nobody's. */
  lemma ServiceStability(probe: Probe, keys: set<ServiceKey>, x: ServiceKey)
    requires NameOf(x) !in NameSet(keys) && ServiceAddresses(probe, keys).Some?
    ensures var m, m' := ServiceAddresses(probe, keys).value, ServiceAddresses(probe, keys + {x});
      var v := NewcomerAddress(probe, m, NameOf(x), |keys| + 1 + MAX_PROBE_BUDGET, {});
      && (m'.Some? ==> Stable(m, m'.value, NameOf(x)) && v == Some(m'.value[NameOf(x)]))
      && (Undisturbed(m, m') <==> v.Some? && v.value !in m.Values)
  {
    var n := |keys| + MAX_PROBE_BUDGET;
    NamesGrow(keys, x);
    assert ServiceAddresses(probe, keys + {x}) == Addresses(probe, NameSet(keys) + {NameOf(x)}, n + 1, {});
    NewcomerStability(probe, NameSet(keys), NameOf(x), n, n + 1, {});
  }

  lemma NamesGrow(keys: set<ServiceKey>, x: ServiceKey)
    requires NameOf(x) !in NameSet(keys)
    ensures NameSet(keys + {x}) == NameSet(keys) + {NameOf(x)} && |keys + {x}| == |keys| + 1
  {
    assert x !in keys;
  }
}
