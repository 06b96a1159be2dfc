/** pkg/edge/allocate.go: device addresses, with pins placed first and probing around them. */
module EdgeAllocate {
  import opened Cidr
  import opened Order
  import opened Probing
  import opened Allocate

  /** An address pin: blank, not a single host address, or a host address. */
  datatype Pin = Free | Unusable | At(addr: nat)

  datatype DeviceClaim = DeviceClaim(key: string, pin: Pin)

  datatype EdgeResult = Placed(out: map<string, nat>) | NoRange | NoRoom | BadPin | OutOfProbes

  predicate LessClaim(a: DeviceClaim, b: DeviceClaim) {
    StringLess(a.key, b.key)
  }

  lemma LessClaimWeak()
    ensures WeakOrder(LessClaim)
  {
    NamesOrdered();
  }

  /** `pinnedIP` accepts it: inside the range and not the network address. */
  predicate GoodPin(good: nat -> bool, c: DeviceClaim) {
    c.pin.Free? || (c.pin.At? && good(c.pin.addr))
  }

  ghost predicate DistinctKeys(claims: seq<DeviceClaim>) {
    forall i, j :: 0 <= i < j < |claims| ==> claims[i].key != claims[j].key
  }

  function PinnedTo(claims: set<DeviceClaim>): set<nat> {
    set c | c in claims && c.pin.At? :: c.pin.addr
  }

  function FreeKeys(claims: set<DeviceClaim>): set<string> {
    set c | c in claims && c.pin.Free? :: c.key
  }

  /** Every pin is acceptable and no two devices pin one address. */
  ghost predicate PinsFit(good: nat -> bool, claims: set<DeviceClaim>) {
    && (forall c :: c in claims ==> GoodPin(good, c))
    && (forall c, d :: c in claims && d in claims && c.pin.At? && c.pin == d.pin ==> c.key == d.key)
  }

  /** Pins fit exactly when each is a single address the range may hand out, and no two devices claim one. */
  lemma PinsFitExactly(good: nat -> bool, claims: set<DeviceClaim>)
    ensures PinsFit(good, claims) <==>
      && (forall c :: c in claims ==> c.pin != Unusable)
      && (forall c, a :: c in claims && c.pin == At(a) ==> good(a))
      && (forall c, d, a :: c in claims && d in claims && c.pin == At(a) && d.pin == At(a) ==> c.key == d.key)
  {
  }

  /** Each pinned device among `claims` has its pin, and nobody else has an entry. */
  ghost predicate PinsHonoured(out: map<string, nat>, claims: set<DeviceClaim>) {
    && (forall c :: c in claims && c.pin.At? ==> c.key in out && out[c.key] == c.pin.addr)
    && (forall k :: k in out ==> exists c :: c in claims && c.pin.At? && c.key == k)
  }

  // ---- Pins first ------------------------------------------------------------------------------------------------------------

  lemma PinnedStep(claims: seq<DeviceClaim>, i: nat)
    requires i < |claims|
    ensures Elements(claims[..i + 1]) == Elements(claims[..i]) + {claims[i]}
    ensures (PinnedTo(Elements(claims[..i + 1])) ==
              PinnedTo(Elements(claims[..i])) + if claims[i].pin.At? then {claims[i].pin.addr} else {})
  {
    PrefixElements(claims, i);
  }

  lemma PinTaken(good: nat -> bool, claims: seq<DeviceClaim>, i: nat)
    requires i < |claims| && DistinctKeys(claims) && claims[i].pin.At? && claims[i].pin.addr in PinnedTo(Elements(claims[..i]))
    ensures !PinsFit(good, Elements(claims))
  {
    var d :| d in Elements(claims[..i]) && d.pin.At? && d.pin.addr == claims[i].pin.addr;
    var j := IndexIn(claims[..i], d);
    assert d in Elements(claims) && claims[i] in Elements(claims);
    assert claims[j].key != claims[i].key;
  }

  lemma PinRejected(good: nat -> bool, claims: seq<DeviceClaim>, i: nat)
    requires i < |claims| && !GoodPin(good, claims[i])
    ensures !PinsFit(good, Elements(claims))
  {
    assert claims[i] in Elements(claims);
  }

  lemma PinKept(good: nat -> bool, claims: seq<DeviceClaim>, i: nat, out: map<string, nat>)
    requires i < |claims| && DistinctKeys(claims) && claims[i].pin.At? && good(claims[i].pin.addr)
    requires claims[i].pin.addr !in PinnedTo(Elements(claims[..i]))
    requires PinsFit(good, Elements(claims[..i])) && PinsHonoured(out, Elements(claims[..i]))
    ensures PinsFit(good, Elements(claims[..i + 1])) && PinsHonoured(out[claims[i].key := claims[i].pin.addr], Elements(claims[..i + 1]))
  {
    PinnedStep(claims, i);
    forall c | c in Elements(claims[..i]) ensures c.key != claims[i].key && (c.pin.At? ==> c.pin != claims[i].pin) {
      var j := IndexIn(claims[..i], c);
      assert claims[j].key != claims[i].key;
      assert c.pin.At? ==> c.pin.addr in PinnedTo(Elements(claims[..i]));
    }
  }

  lemma FreeKept(good: nat -> bool, claims: seq<DeviceClaim>, i: nat, out: map<string, nat>)
    requires i < |claims| && claims[i].pin.Free? && PinsFit(good, Elements(claims[..i])) && PinsHonoured(out, Elements(claims[..i]))
    ensures PinsFit(good, Elements(claims[..i + 1])) && PinsHonoured(out, Elements(claims[..i + 1]))
  {
    PinnedStep(claims, i);
  }

  /** The first pass: it succeeds exactly when the pins fit, and then reserves and records each. */
  method PinAll(good: nat -> bool, sorted: seq<DeviceClaim>) returns (ok: bool, used: set<nat>, out: map<string, nat>)
    ensures DistinctKeys(sorted) ==> (ok <==> PinsFit(good, Elements(sorted)))
    ensures ok ==> used == PinnedTo(Elements(sorted)) && forall v :: v in used ==> good(v)
    ensures ok ==> AllGood(out, good)
    ensures ok && DistinctKeys(sorted) ==> PinsHonoured(out, Elements(sorted))
  {
    used, out := {}, map[];
    for i := 0 to |sorted|
      invariant used == PinnedTo(Elements(sorted[..i])) && forall v :: v in used ==> good(v)
      invariant AllGood(out, good)
      invariant DistinctKeys(sorted) ==> PinsFit(good, Elements(sorted[..i])) && PinsHonoured(out, Elements(sorted[..i]))
    {
      var c := sorted[i];
      PinnedStep(sorted, i);
      if c.pin.Free? {
        if DistinctKeys(sorted) {
          FreeKept(good, sorted, i, out);
        }
        continue;
      }
      if c.pin.Unusable? || !good(c.pin.addr) {
        PinRejected(good, sorted, i);
        return false, used, out;
      }
      if c.pin.addr in used {
        if DistinctKeys(sorted) {
          PinTaken(good, sorted, i);
        }
        return false, used, out;
      }
      if DistinctKeys(sorted) {
        PinKept(good, sorted, i, out);
      }
      used := used + {c.pin.addr};
      out := out[c.key := c.pin.addr];
    }
    assert sorted[..|sorted|] == sorted;
    ok := true;
  }

  // ---- Then everybody else ------------------------------------------------------------------------------------------------------

  function FreeKey(c: DeviceClaim): seq<string> {
    if c.pin.Free? then [c.key] else []
  }

  ghost predicate Progress(probe: Probe, names: seq<string>, budget: nat, pins: set<nat>, vals: seq<nat>, used: set<nat>) {
    Assign(probe, names, budget, pins) == Some(vals) && used == pins + Elements(vals)
  }

  lemma PlaceOneMore(probe: Probe, names: seq<string>, rest: seq<string>, budget: nat, pins: set<nat>, vals: seq<nat>, used: set<nat>, key: string, v: Option<nat>)
    requires Progress(probe, names, budget, pins, vals, used) && v == First(probe, key, 0, budget, used)
    ensures v.Some? ==> Progress(probe, names + [key], budget, pins, vals + [v.value], used + {v.value})
    ensures v.None? ==> Assign(probe, names + [key] + rest, budget, pins) == None
  {
    assert (names + [key])[..|names|] == names;
    AssignPrefix(probe, names + [key] + rest, budget, pins, |names + [key]|);
    assert (names + [key] + rest)[..|names + [key]|] == names + [key];
    if v.Some? {
      ElementsAppend(vals, [v.value]);
    }
  }

  lemma FreePrefix(sorted: seq<DeviceClaim>, i: nat)
    requires i < |sorted|
    ensures Collect(FreeKey, sorted[..i + 1]) == Collect(FreeKey, sorted[..i]) + FreeKey(sorted[i])
    ensures !sorted[i].pin.Free? ==> Collect(FreeKey, sorted[..i + 1]) == Collect(FreeKey, sorted[..i])
  {
    CollectStep(FreeKey, sorted, i);
  }

  lemma FreeSplit(sorted: seq<DeviceClaim>, i: nat)
    requires i <= |sorted|
    ensures Collect(FreeKey, sorted) == Collect(FreeKey, sorted[..i]) + Collect(FreeKey, sorted[i..])
  {
    CollectConcat(FreeKey, sorted[..i], sorted[i..]);
    assert sorted == sorted[..i] + sorted[i..];
  }

  /** The second pass places the free devices in order; pinned entries stay as they are. */
  method PlaceFree(probe: Probe, sorted: seq<DeviceClaim>, budget: nat, pins: set<nat>, pinned: map<string, nat>, ghost good: nat -> bool)
      returns (ok: bool, out: map<string, nat>, ghost vals: seq<nat>)
    requires Within(probe, good) && AllGood(pinned, good)
    ensures var all := Assign(probe, Collect(FreeKey, sorted), budget, pins); (ok <==> all.Some?) && (ok ==> all == Some(vals))
    ensures ok ==> |vals| == |Collect(FreeKey, sorted)| && out == pinned + Zip(Collect(FreeKey, sorted), vals)
    ensures ok ==> AllGood(out, good)
  {
    var used := pins;
    out, vals := pinned, [];
    ghost var names: seq<string> := [];
    for i := 0 to |sorted|
      invariant names == Collect(FreeKey, sorted[..i])
      invariant Progress(probe, names, budget, pins, vals, used)
      invariant out == pinned + Zip(names, vals) && AllGood(out, good)
    {
      var c := sorted[i];
      FreePrefix(sorted, i);
      FreeSplit(sorted, i + 1);
      if !c.pin.Free? {
        continue;
      }
      ghost var before := used;
      var v;
      v, used := AllocateOne(probe, c.key, budget, used);
      PlaceOneMore(probe, names, Collect(FreeKey, sorted[i + 1..]), budget, pins, vals, before, c.key, v);
      if v.None? {
        return false, out, vals;
      }
      ZipStep(pinned, names, vals, c.key, v.value);
      StillGood(out, c.key, v.value, good);
      names, vals := names + [c.key], vals + [v.value];
      out := out[c.key := v.value];
    }
    assert sorted[..|sorted|] == sorted;
    ok := true;
  }

  lemma ZipStep(pinned: map<string, nat>, names: seq<string>, vals: seq<nat>, key: string, v: nat)
    requires |names| == |vals|
    ensures pinned + Zip(names + [key], vals + [v]) == (pinned + Zip(names, vals))[key := v]
  {
    assert (names + [key])[..|names|] == names && (vals + [v])[..|vals|] == vals;
    assert Zip(names + [key], vals + [v]) == Zip(names, vals)[key := v];
  }

  ghost predicate AllGood(out: map<string, nat>, good: nat -> bool) {
    forall k :: k in out ==> good(out[k])
  }

  lemma StillGood(out: map<string, nat>, key: string, v: nat, good: nat -> bool)
    requires AllGood(out, good) && good(v)
    ensures AllGood(out[key := v], good)
  {
  }

  // ---- The allocator --------------------------------------------------------------------------------------------------------------

  lemma {:induction false} FreeSorted(sorted: seq<DeviceClaim>)
    requires Sorted(LessClaim, sorted) && DistinctKeys(sorted)
    ensures StrictlySorted(StringLess, Collect(FreeKey, sorted))
    ensures Elements(Collect(FreeKey, sorted)) == FreeKeys(Elements(sorted))
  {
    if sorted != [] {
      var first, tail := sorted[0], sorted[1..];
      FreeSorted(tail);
      assert sorted == [first] + tail;
      forall k | k in Collect(FreeKey, tail) ensures StringLess(first.key, k) {
        assert k in FreeKeys(Elements(tail));
        var c :| c in Elements(tail) && c.pin.Free? && c.key == k;
        var j := IndexIn(tail, c);
        assert sorted[j + 1] == c && !LessClaim(c, first);
        StringLessTriple(first.key, k, k);
      }
      FreeFirst(first, tail);
    }
  }

  lemma PrependSorted(x: string, rest: seq<string>)
    requires StrictlySorted(StringLess, rest) && forall k :: k in rest ==> StringLess(x, k)
    ensures StrictlySorted(StringLess, [x] + rest)
  {
  }

  lemma FreeFirst(first: DeviceClaim, tail: seq<DeviceClaim>)
    requires StrictlySorted(StringLess, Collect(FreeKey, tail)) && Elements(Collect(FreeKey, tail)) == FreeKeys(Elements(tail))
    requires forall k :: k in Collect(FreeKey, tail) ==> StringLess(first.key, k)
    ensures StrictlySorted(StringLess, Collect(FreeKey, [first] + tail))
    ensures Elements(Collect(FreeKey, [first] + tail)) == FreeKeys(Elements([first] + tail))
  {
    var rest := Collect(FreeKey, tail);
    assert ([first] + tail)[1..] == tail;
    assert Collect(FreeKey, [first] + tail) == FreeKey(first) + rest;
    ElementsAppend([first], tail);
    ElementsAppend(FreeKey(first), rest);
    assert FreeKeys({first} + Elements(tail)) == Elements(FreeKey(first)) + FreeKeys(Elements(tail));
    if first.pin.Free? {
      PrependSorted(first.key, rest);
    } else {
      assert FreeKey(first) + rest == rest;
    }
  }

  /** What the devices are given: their pin, or the allocation of the free names around all pins. */
  ghost function DeviceAddresses(probe: Probe, claims: set<DeviceClaim>, budget: nat): Option<map<string, nat>> {
    Addresses(probe, FreeKeys(claims), budget, PinnedTo(claims))
  }

  ghost predicate DevicesAgree(r: EdgeResult, probe: Probe, good: nat -> bool, claims: set<DeviceClaim>, budget: nat) {
    var m := DeviceAddresses(probe, claims, budget);
    && (r.BadPin? <==> !PinsFit(good, claims))
    && (r.Placed? <==> PinsFit(good, claims) && m.Some?)
    && (r.Placed? ==> forall c :: c in claims ==> c.key in r.out && (c.pin.At? ==> r.out[c.key] == c.pin.addr))
    && (r.Placed? ==> forall c :: c in claims && c.pin.Free? ==> c.key in m.value && r.out[c.key] == m.value[c.key])
  }

  /** For distinct keys the outcome is a function of the set of claims. Pins that do not fit are refused; otherwise
      each pin is honoured and the rest get the allocation around the pins, when there is one. */
  method AllocateDeviceIPs(parsed: Option<Pool>, hash: Hash64, claims: seq<DeviceClaim>) returns (r: EdgeResult)
    ensures r.NoRange? <==> parsed.None?
    ensures parsed.Some? ==> (r.NoRoom? <==> PoolSize(parsed.value) < |claims| + 1)
    ensures r.Placed? ==> forall k :: k in r.out ==> InPool(parsed.value, r.out[k])
    ensures (parsed.Some? && DistinctKeys(claims) && PoolSize(parsed.value) >= |claims| + 1 ==>
               DevicesAgree(r, ProbeOf(parsed.value, hash), (v: nat) => InPool(parsed.value, v), Elements(claims), |claims| + 64))
  {
    if parsed.None? {
      return NoRange;
    }
    var pool := parsed.value;
    ProbeWithin(pool, hash);
    r := AllocateAround(ProbeOf(pool, hash), PoolSize(pool), (v: nat) => InPool(pool, v), claims);
  }

  method AllocateAround(probe: Probe, size: nat, good: nat -> bool, claims: seq<DeviceClaim>) returns (r: EdgeResult)
    requires Within(probe, good)
    ensures !r.NoRange? && (r.NoRoom? <==> size < |claims| + 1)
    ensures r.Placed? ==> AllGood(r.out, good)
    ensures (DistinctKeys(claims) && size >= |claims| + 1 ==>
               DevicesAgree(r, probe, good, Elements(claims), |claims| + MAX_PROBE_BUDGET))
  {
    LessClaimWeak();
    var sorted := SortSlice(LessClaim, claims);
    Resorted(claims, sorted);
    if size < |sorted| + 1 {
      return NoRoom;
    }
    var budget := |sorted| + MAX_PROBE_BUDGET;
    var ok, used, pinned := PinAll(good, sorted);
    if !ok {
      return BadPin;
    }
    var placed, out;
    ghost var vals;
    placed, out, vals := PlaceFree(probe, sorted, budget, used, pinned, good);
    r := if placed then Placed(out) else OutOfProbes;
    if DistinctKeys(claims) {
      FreeAgrees(probe, sorted, budget, used, pinned, placed, out, vals);
      Concluded(r, probe, good, Elements(sorted), budget, placed, out);
    }
  }

  lemma Concluded(r: EdgeResult, probe: Probe, good: nat -> bool, claims: set<DeviceClaim>, budget: nat, placed: bool, out: map<string, nat>)
    requires PinsFit(good, claims) && r == if placed then Placed(out) else OutOfProbes
    requires (var m := DeviceAddresses(probe, claims, budget); (placed <==> m.Some?) && (placed ==> FreePlaced(out, claims, m.value)))
    ensures DevicesAgree(r, probe, good, claims, budget)
  {
    forall c | c in claims && placed ensures c.key in out {
      assert GoodPin(good, c);
    }
  }

  lemma Resorted(claims: seq<DeviceClaim>, sorted: seq<DeviceClaim>)
    requires multiset(sorted) == multiset(claims)
    ensures |sorted| == |claims| && Elements(sorted) == Elements(claims)
    ensures DistinctKeys(claims) ==> DistinctKeys(sorted)
  {
    assert |multiset(sorted)| == |multiset(claims)|;
    PermutationElements(claims, sorted);
    if DistinctKeys(claims) {
      assert NoDup(claims);
      PermutationNoDup(claims, sorted);
      forall i, j | 0 <= i < j < |sorted| ensures sorted[i].key != sorted[j].key {
        assert sorted[i] in Elements(claims) && sorted[j] in Elements(claims) && sorted[i] != sorted[j];
        var x := IndexIn(claims, sorted[i]);
        var y := IndexIn(claims, sorted[j]);
        assert x < y || y < x;
      }
    }
  }

  ghost predicate FreePlaced(out: map<string, nat>, claims: set<DeviceClaim>, m: map<string, nat>) {
    && (forall c :: c in claims && c.pin.At? ==> c.key in out && out[c.key] == c.pin.addr)
    && (forall c :: c in claims && c.pin.Free? ==> c.key in out && c.key in m && out[c.key] == m[c.key])
  }

  lemma FreeAgrees(probe: Probe, sorted: seq<DeviceClaim>, budget: nat, used: set<nat>, pinned: map<string, nat>, placed: bool,
      out: map<string, nat>, vals: seq<nat>)
    requires Sorted(LessClaim, sorted) && DistinctKeys(sorted) && used == PinnedTo(Elements(sorted)) && PinsHonoured(pinned, Elements(sorted))
    requires (var all := Assign(probe, Collect(FreeKey, sorted), budget, used); (placed <==> all.Some?) && (placed ==> all == Some(vals)))
    requires placed ==> |vals| == |Collect(FreeKey, sorted)| && out == pinned + Zip(Collect(FreeKey, sorted), vals)
    ensures var m := DeviceAddresses(probe, Elements(sorted), budget);
      (placed <==> m.Some?) && (placed ==> FreePlaced(out, Elements(sorted), m.value))
  {
    var names := Collect(FreeKey, sorted);
    FreeSorted(sorted);
    NamesOrdered();
    StrictlySortedUnique(StringLess, names, SortedNames(FreeKeys(Elements(sorted))));
    if placed {
      MergedPlaces(sorted, names, vals, pinned, out);
    }
  }

  lemma MergedPlaces(sorted: seq<DeviceClaim>, names: seq<string>, vals: seq<nat>, pinned: map<string, nat>, out: map<string, nat>)
    requires DistinctKeys(sorted) && |vals| == |names| && NoDup(names) && Elements(names) == FreeKeys(Elements(sorted))
    requires PinsHonoured(pinned, Elements(sorted)) && out == pinned + Zip(names, vals)
    ensures FreePlaced(out, Elements(sorted), Zip(names, vals))
  {
    ZipPairs(names, vals);
    forall k ensures k in Zip(names, vals) <==> k in FreeKeys(Elements(sorted)) {
      assert k in Elements(names) <==> k in names;
    }
    forall c, d | c in Elements(sorted) && d in Elements(sorted) && c.key == d.key ensures c == d {
      var i := IndexIn(sorted, c);
      var j := IndexIn(sorted, d);
      assert i == j || i < j || j < i;
    }
  }

  // ---- Consequences -------------------------------------------------------------------------------------------------------------------

  /** No two devices share an address: pins differ, and free devices avoid every pin and each other. */
  lemma DevicesDistinct(r: EdgeResult, probe: Probe, good: nat -> bool, claims: set<DeviceClaim>, budget: nat, c: DeviceClaim, d: DeviceClaim)
    requires DevicesAgree(r, probe, good, claims, budget) && r.Placed? && c in claims && d in claims && r.out[c.key] == r.out[d.key]
    ensures c.key == d.key
  {
    AddressesDistinct(probe, FreeKeys(claims), budget, PinnedTo(claims));
    assert GoodPin(good, c) && GoodPin(good, d);
    assert c.pin.At? ==> c.pin.addr in PinnedTo(claims);
    assert d.pin.At? ==> d.pin.addr in PinnedTo(claims);
  }

  function ClaimKeys(claims: seq<DeviceClaim>): (r: seq<string>)
    ensures |r| == |claims| && forall i :: 0 <= i < |claims| ==> r[i] == claims[i].key
  {
    seq(|claims|, i requires 0 <= i < |claims| => claims[i].key)
  }

  /** Distinct keys count devices, distinct names count services. */
  lemma SameCount(claims: seq<DeviceClaim>, keys: seq<ServiceKey>)
    requires DistinctKeys(claims) && DistinctNames(keys) && forall c :: c in claims ==> c.pin.Free?
    requires FreeKeys(Elements(claims)) == NameSet(Elements(keys))
    ensures |claims| == |keys| == |Elements(keys)|
  {
    DistinctCount(ClaimKeys(claims));
    DistinctCount(keys);
    NamesDistinct(keys);
    DistinctCount(Names(keys));
    forall k ensures k in Elements(ClaimKeys(claims)) <==> k in FreeKeys(Elements(claims)) {
      if k in ClaimKeys(claims) {
        var i := IndexIn(ClaimKeys(claims), k);
        assert claims[i] in Elements(claims);
      }
      if c :| c in Elements(claims) && c.pin.Free? && c.key == k {
        var i := IndexIn(claims, c);
        assert ClaimKeys(claims)[i] == k;
      }
    }
    assert Elements(ClaimKeys(claims)) == Elements(Names(keys));
  }

  lemma NamesDistinct(keys: seq<ServiceKey>)
    requires DistinctNames(keys)
    ensures NoDup(Names(keys)) && Elements(Names(keys)) == NameSet(Elements(keys))
  {
    forall i, j | 0 <= i < j < |keys| ensures Names(keys)[i] != Names(keys)[j] {
      assert keys[i] in keys && keys[j] in keys && keys[i] != keys[j];
    }
    forall n ensures n in Elements(Names(keys)) <==> n in NameSet(Elements(keys)) {
      if n in Names(keys) {
        var i := IndexIn(Names(keys), n);
        assert keys[i] in Elements(keys);
      }
      if k :| k in Elements(keys) && NameOf(k) == n {
        var i := IndexIn(keys, k);
        assert Names(keys)[i] == n;
      }
    }
  }

  /** The two allocators agree. Distinct devices without pins and distinct services under the same strings are equally
      many, so both run out of room together; both place everybody or neither does, and each device gets the address of the
      service with its string. */
  lemma EdgeIsClusterSet(probe: Probe, good: nat -> bool, claims: seq<DeviceClaim>, r: EdgeResult, keys: seq<ServiceKey>, s: AllocResult)
    requires DistinctKeys(claims) && DistinctNames(keys) && forall c :: c in claims ==> c.pin.Free?
    requires FreeKeys(Elements(claims)) == NameSet(Elements(keys))
    requires DevicesAgree(r, probe, good, Elements(claims), |claims| + MAX_PROBE_BUDGET)
    requires AgreesWith(s, keys, ServiceAddresses(probe, Elements(keys)))
    ensures |claims| == |keys| && (r.Placed? <==> s.Allocated?)
    ensures (r.Placed? ==> forall c, k :: c in claims && k in keys && c.key == NameOf(k) ==>
               c.key in r.out && k in s.out && r.out[c.key] == s.out[k])
  {
    SameCount(claims, keys);
    var all := Elements(claims);
    forall c | c in all ensures c.pin.Free? {
      var i := IndexIn(claims, c);
    }
    assert PinnedTo(all) == {} && PinsFit(good, all);
    assert DeviceAddresses(probe, all, |claims| + MAX_PROBE_BUDGET) == ServiceAddresses(probe, Elements(keys));
    forall c, k | r.Placed? && c in claims && k in keys && c.key == NameOf(k)
      ensures c.key in r.out && k in s.out && r.out[c.key] == s.out[k]
    {
      assert c in all;
    }
  }
}
