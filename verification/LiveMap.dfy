/** pkg/dataplane/ebpf/manager.go: converging a live kernel map by a diff, with no gap for a kept key. */
module LiveMap {
  import opened Order

  datatype Item<K, V> = Item(key: K, val: V)

  /** The kernel map behind `MapOps`. Any call may fail, and a failed call changes nothing. */
  class KernelMap<K(!new,==), V(!new,==)> {
    var live: map<K, V>
    /** Every content the map had after a write. */
    ghost var history: seq<map<K, V>>

    constructor ()
      ensures live == map[] && history == []
    {
      live := map[];
      history := [];
    }

    method List() returns (ok: bool, current: map<K, V>)
      ensures ok ==> current == live
    {
      ok := *;
      current := live;
    }

    method Update(key: K, val: V) returns (ok: bool)
      modifies this
      ensures ok ==> live == old(live)[key := val] && history == old(history) + [live]
      ensures !ok ==> live == old(live) && history == old(history)
    {
      ok := *;
      if ok {
        live := live[key := val];
        history := history + [live];
      }
    }

    method Delete(key: K) returns (ok: bool)
      modifies this
      ensures ok ==> live == old(live) - {key} && history == old(history) + [live]
      ensures !ok ==> live == old(live) && history == old(history)
    {
      ok := *;
      if ok {
        live := live - {key};
        history := history + [live];
      }
    }
  }

  // ---- What the diff is for --------------------------------------------------------------------------------------------

  /** The `want` map: later items override earlier ones. */
  function Want<K, V>(items: seq<Item<K, V>>): map<K, V> {
    if items == [] then map[]
    else
      var n := |items| - 1;
      Want(items[..n])[items[n].key := items[n].val]
  }

  predicate Current<K, V(==)>(current: map<K, V>, e: Item<K, V>) {
    e.key in current && current[e.key] == e.val
  }

  /** The map after the update loop: items the snapshot already holds are not written. */
  function Patched<K, V(==)>(current: map<K, V>, items: seq<Item<K, V>>): map<K, V> {
    if items == [] then current
    else
      var n := |items| - 1;
      var before := Patched(current, items[..n]);
      if Current(current, items[n]) then before else before[items[n].key := items[n].val]
  }

  /** The map after both loops. */
  function Reconciled<K, V(==)>(current: map<K, V>, items: seq<Item<K, V>>): map<K, V> {
    map k | k in Patched(current, items) && k in Want(items) :: Patched(current, items)[k]
  }

  /** A key held and wanted is present, with its old value or a wanted one; nothing else appears. */
  ghost predicate Gapless<K(!new), V(!new)>(before: map<K, V>, items: seq<Item<K, V>>, m: map<K, V>) {
    && (forall k :: k in before && k in Want(items) ==> k in m)
    && (forall k :: k in m ==> (k in before && m[k] == before[k]) || Item(k, m[k]) in items)
  }

  lemma {:induction false} WantMember<K(!new), V(!new)>(items: seq<Item<K, V>>, k: K)
    ensures k in Want(items) <==> exists e :: e in items && e.key == k
    ensures k in Want(items) ==> Item(k, Want(items)[k]) in items
  {
    if items != [] {
      var n := |items| - 1;
      WantMember(items[..n], k);
      assert items == items[..n] + [items[n]];
    }
  }

  lemma WantStep<K(!new), V(!new)>(current: map<K, V>, items: seq<Item<K, V>>, i: nat)
    requires i < |items|
    ensures Want(items[..i + 1]) == Want(items[..i])[items[i].key := items[i].val]
    ensures (Patched(current, items[..i + 1]) ==
              if Current(current, items[i]) then Patched(current, items[..i]) else Patched(current, items[..i])[items[i].key := items[i].val])
  {
    assert items[..i + 1][..i] == items[..i];
  }

  lemma GaplessWrite<K(!new), V(!new)>(before: map<K, V>, items: seq<Item<K, V>>, m: map<K, V>, e: Item<K, V>)
    requires Gapless(before, items, m) && e in items
    ensures Gapless(before, items, m[e.key := e.val])
  {
  }

  lemma GaplessDelete<K(!new), V(!new)>(before: map<K, V>, items: seq<Item<K, V>>, m: map<K, V>, k: K)
    requires Gapless(before, items, m) && k !in Want(items)
    ensures Gapless(before, items, m - {k})
  {
  }

  /** Everything a sync may leave behind: contents without a gap, recorded after the earlier ones. */
  ghost predicate Extends<K(!new), V(!new)>(before: map<K, V>, items: seq<Item<K, V>>, past: seq<map<K, V>>, now: seq<map<K, V>>) {
    past <= now && forall i :: |past| <= i < |now| ==> Gapless(before, items, now[i])
  }

  /** Nothing to write: every item is held, and only wanted keys are. */
  ghost predicate InSync<K(!new), V(!new)>(current: map<K, V>, items: seq<Item<K, V>>) {
    && (forall e :: e in items ==> Current(current, e))
    && current.Keys <= Want(items).Keys
  }

  method Reconcile<K(!new,==), V(!new,==)>(m: KernelMap<K, V>, items: seq<Item<K, V>>) returns (ok: bool)
    modifies m
    ensures Extends(old(m.live), items, old(m.history), m.history)
    ensures Gapless(old(m.live), items, m.live)
    ensures ok ==> m.live == Reconciled(old(m.live), items)
    ensures InSync(old(m.live), items) ==> m.live == old(m.live) && m.history == old(m.history)
  {
    var current;
    ok, current := m.List();
    if !ok {
      return;
    }
    ghost var past := m.history;
    var want: map<K, V> := map[];
    for i := 0 to |items|
      invariant want == Want(items[..i]) && m.live == Patched(current, items[..i])
      invariant Extends(current, items, past, m.history) && Gapless(current, items, m.live)
      invariant InSync(current, items) ==> m.live == current && m.history == past
    {
      var e := items[i];
      WantStep(current, items, i);
      want := want[e.key := e.val];
      if Current(current, e) {
        continue;
      }
      GaplessWrite(current, items, m.live, e);
      ok := m.Update(e.key, e.val);
      if !ok {
        return;
      }
    }
    assert items[..|items|] == items;
    assert m.live.Keys <= current.Keys + want.Keys by {
      forall k | k in m.live && k !in current ensures k in want {
        WantMember(items, k);
      }
    }
    ok := DeleteStale(m, items, want, current);
  }

  /** The second loop, over the snapshot's keys in whatever order they come. */
  method DeleteStale<K(!new,==), V(!new,==)>(m: KernelMap<K, V>, ghost items: seq<Item<K, V>>, want: map<K, V>, current: map<K, V>) returns (ok: bool)
    requires want == Want(items) && Gapless(current, items, m.live) && m.live.Keys <= current.Keys + want.Keys
    modifies m
    ensures Extends(current, items, old(m.history), m.history) && Gapless(current, items, m.live)
    ensures ok ==> m.live == map k | k in old(m.live) && k in want :: old(m.live)[k]
    ensures current.Keys <= want.Keys ==> m.live == old(m.live) && m.history == old(m.history)
  {
    var keys := Enumerate(current.Keys);
    for i := 0 to |keys|
      invariant m.live.Keys == old(m.live).Keys - (Elements(keys[..i]) - want.Keys)
      invariant forall k :: k in m.live ==> m.live[k] == old(m.live)[k]
      invariant Extends(current, items, old(m.history), m.history) && Gapless(current, items, m.live)
      invariant current.Keys <= want.Keys ==> m.live == old(m.live) && m.history == old(m.history)
    {
      PrefixElements(keys, i);
      assert keys[i] in Elements(keys);
      if keys[i] in want {
        continue;
      }
      GaplessDelete(current, items, m.live, keys[i]);
      ok := m.Delete(keys[i]);
      if !ok {
        return;
      }
    }
    assert keys[..|keys|] == keys;
    ok := true;
  }

  // ---- When the result is the wanted map ------------------------------------------------------------------------------------

  /** Where the held value is the one finally wanted, no item lists another value for that key. */
  ghost predicate NoFlicker<K(!new), V(!new)>(current: map<K, V>, items: seq<Item<K, V>>) {
    forall e :: e in items && e.key in Want(items) && Current(current, Item(e.key, Want(items)[e.key])) ==> Current(current, e)
  }

  /** No key is listed with two values. */
  ghost predicate Unambiguous<K(!new), V(!new)>(items: seq<Item<K, V>>) {
    forall e, f :: e in items && f in items && e.key == f.key ==> e == f
  }

  /** Items with the held value leave it alone; any other item changes it for good. */
  lemma {:induction false} PatchedHeld<K(!new), V(!new)>(current: map<K, V>, items: seq<Item<K, V>>, k: K)
    requires k in current
    ensures k in Patched(current, items)
    ensures Patched(current, items)[k] == current[k] <==> forall e :: e in items && e.key == k ==> Current(current, e)
  {
    if items != [] {
      var n := |items| - 1;
      PatchedHeld(current, items[..n], k);
      assert items == items[..n] + [items[n]];
    }
  }

  /** A finally wanted value that is not held is written. */
  lemma {:induction false} PatchedWritten<K(!new), V(!new)>(current: map<K, V>, items: seq<Item<K, V>>, k: K)
    requires k in Want(items) && !Current(current, Item(k, Want(items)[k]))
    ensures k in Patched(current, items) && Patched(current, items)[k] == Want(items)[k]
  {
    var n := |items| - 1;
    if items[n].key != k {
      PatchedWritten(current, items[..n], k);
    }
  }

  /** A finished sync leaves exactly the wanted map if and only if no key flickers. */
  lemma ConvergedExactly<K(!new), V(!new)>(current: map<K, V>, items: seq<Item<K, V>>)
    ensures Reconciled(current, items) == Want(items) <==> NoFlicker(current, items)
  {
    var r, w := Reconciled(current, items), Want(items);
    forall k | k in w
      ensures k in r
      ensures r[k] == w[k] <==> (Current(current, Item(k, w[k])) ==> forall e :: e in items && e.key == k ==> Current(current, e))
    {
      if Current(current, Item(k, w[k])) {
        PatchedHeld(current, items, k);
      } else {
        PatchedWritten(current, items, k);
      }
    }
    assert r.Keys == w.Keys;
    if NoFlicker(current, items) {
      assert forall k :: k in w ==> r[k] == w[k];
    }
    if r == w {
      forall e | e in items && e.key in w && Current(current, Item(e.key, w[e.key])) ensures Current(current, e) {
        assert r[e.key] == w[e.key];
      }
    }
  }

  /** Every starting map converges if and only if no key is listed with two values; then a repeated sync has
      nothing to write. */
  lemma AlwaysConvergesExactly<K(!new), V(!new)>(items: seq<Item<K, V>>)
    ensures (forall current :: Reconciled(current, items) == Want(items)) <==> Unambiguous(items)
    ensures Unambiguous(items) ==> InSync(Want(items), items)
  {
    forall e | e in items ensures e.key in Want(items) && Item(e.key, Want(items)[e.key]) in items {
      WantMember(items, e.key);
    }
    forall current: map<K, V> ensures Reconciled(current, items) == Want(items) <==> NoFlicker(current, items) {
      ConvergedExactly(current, items);
    }
    if !Unambiguous(items) {
      var e, f :| e in items && f in items && e.key == f.key && e != f;
      var current := map[e.key := Want(items)[e.key]];
      assert !Current(current, e) || !Current(current, f);
      assert !NoFlicker(current, items);
      assert Reconciled(current, items) != Want(items);
    }
  }

  /** A key listed twice with two values never settles: the live value alternates from sync to sync. */
  lemma DuplicateAlternates<K(!new), V(!new)>(k: K, v: V, w: V)
    requires v != w
    ensures var items := [Item(k, w), Item(k, v)];
      && Want(items) == map[k := v]
      && Reconciled(map[k := v], items) == map[k := w]
      && Reconciled(map[k := w], items) == map[k := v]
  {
    var items := [Item(k, w), Item(k, v)];
    assert items[..1] == [Item(k, w)] && items[..1][..0] == [];
    assert Want(items[..1]) == map[k := w];
    assert Patched(map[k := v], items[..1]) == map[k := w];
    assert Patched(map[k := w], items[..1]) == map[k := w];
  }
}
