/** Sorted hash probing: who gets which address, and who moves when somebody joins. */
module Probing {
  import opened Cidr
  import opened Order

  /** The address a key tries at an attempt; None when the attempt hits the reserved network address. */
  type Probe = (string, nat) -> Option<nat>

  /** The first free address from attempt `a` on, within the budget. */
  function First(probe: Probe, key: string, a: nat, budget: nat, used: set<nat>): (r: Option<nat>)
    ensures r.Some? ==> r.value !in used && exists b: nat :: a <= b < budget && probe(key, b) == r
    decreases budget - a
  {
    if a >= budget then None
    else if probe(key, a).Some? && probe(key, a).value !in used then probe(key, a)
    else First(probe, key, a + 1, budget, used)
  }

  /** The addresses of the keys, placed one after the other around those in use. */
  function Assign(probe: Probe, keys: seq<string>, budget: nat, used: set<nat>): (r: Option<seq<nat>>)
    ensures r.Some? ==> |r.value| == |keys|
  {
    if keys == [] then Some([])
    else
      var n := |keys| - 1;
      var before := Assign(probe, keys[..n], budget, used);
      if before.None? then None
      else
        var v := First(probe, keys[n], 0, budget, used + Elements(before.value));
        if v.None? then None else Some(before.value + [v.value])
  }

  lemma AssignStep(probe: Probe, keys: seq<string>, budget: nat, used: set<nat>, i: nat)
    requires i < |keys|
    ensures Assign(probe, keys[..i + 1], budget, used).Some? ==> Assign(probe, keys[..i], budget, used).Some?
    ensures var before := Assign(probe, keys[..i], budget, used);
      before.Some? ==>
        var v := First(probe, keys[i], 0, budget, used + Elements(before.value));
        Assign(probe, keys[..i + 1], budget, used) == if v.None? then None else Some(before.value + [v.value])
  {
    assert keys[..i + 1][..i] == keys[..i];
  }

  lemma {:induction false} AssignPrefix(probe: Probe, keys: seq<string>, budget: nat, used: set<nat>, i: nat)
    requires i <= |keys|
    ensures var all, part := Assign(probe, keys, budget, used), Assign(probe, keys[..i], budget, used);
      all.Some? ==> part.Some? && part.value == all.value[..i]
    decreases |keys| - i
  {
    if i == |keys| {
      assert keys[..i] == keys;
    } else {
      AssignPrefix(probe, keys, budget, used, i + 1);
      AssignStep(probe, keys, budget, used, i);
    }
  }

  ghost predicate Tried(probe: Probe, key: string, v: nat) {
    exists a: nat :: probe(key, a) == Some(v)
  }

  /** Assigned addresses are pairwise distinct, avoid those in use, and are ones their key tried. */
  lemma {:induction false} AssignDistinct(probe: Probe, keys: seq<string>, budget: nat, used: set<nat>)
    requires Assign(probe, keys, budget, used).Some?
    ensures var r := Assign(probe, keys, budget, used).value;
      NoDup(r) && Elements(r) !! used && forall i :: 0 <= i < |keys| ==> Tried(probe, keys[i], r[i])
  {
    if keys != [] {
      var n := |keys| - 1;
      AssignDistinct(probe, keys[..n], budget, used);
      var before := Assign(probe, keys[..n], budget, used).value;
      var v := First(probe, keys[n], 0, budget, used + Elements(before)).value;
      ElementsAppend(before, [v]);
      assert v !in Elements(before);
      assert Tried(probe, keys[n], v);
    }
  }

  // ---- Newcomers ---------------------------------------------------------------------------------------------------------

  /** A larger budget and one more address in use change nothing for a key that was not placed there. */
  lemma {:induction false} FirstSkips(probe: Probe, key: string, a: nat, budget: nat, used: set<nat>, budget': nat, used': set<nat>)
    requires budget <= budget' && used <= used'
    requires var v := First(probe, key, a, budget, used); v.Some? && v.value !in used'
    ensures First(probe, key, a, budget', used') == First(probe, key, a, budget, used)
    decreases budget - a
  {
    if !(probe(key, a).Some? && probe(key, a).value !in used) {
      FirstSkips(probe, key, a + 1, budget, used, budget', used');
    }
  }

  lemma {:induction false} AssignBudget(probe: Probe, keys: seq<string>, budget: nat, used: set<nat>, budget': nat)
    requires budget <= budget' && Assign(probe, keys, budget, used).Some?
    ensures Assign(probe, keys, budget', used) == Assign(probe, keys, budget, used)
  {
    if keys != [] {
      var n := |keys| - 1;
      AssignBudget(probe, keys[..n], budget, used, budget');
      var now := used + Elements(Assign(probe, keys[..n], budget, used).value);
      FirstSkips(probe, keys[n], 0, budget, now, budget', now);
    }
  }

  function Without(s: seq<nat>, i: nat): seq<nat>
    requires i < |s|
  {
    s[..i] + s[i + 1..]
  }

  lemma WithoutElements(s: seq<nat>, i: nat)
    requires i < |s|
    ensures Elements(s) == Elements(Without(s, i)) + {s[i]}
  {
    assert s == s[..i] + [s[i]] + s[i + 1..];
  }

  lemma WithoutAppend(s: seq<nat>, i: nat, v: nat)
    requires i < |s|
    ensures Without(s + [v], i) == Without(s, i) + [v]
  {
  }

  lemma Splits(before: seq<string>, x: string, after: seq<string>)
    requires after != []
    ensures var m, n := |after| - 1, |before + after| - 1;
      && (before + after)[..n] == before + after[..m] && (before + after)[n] == after[m]
      && (before + [x] + after)[..n + 1] == before + [x] + after[..m] && (before + [x] + after)[n + 1] == after[m]
  {
  }

  /** If the newcomer took an address nobody had, everybody else keeps theirs. */
  lemma {:induction false} NewcomerElsewhere(probe: Probe, before: seq<string>, x: string, after: seq<string>, budget: nat, budget': nat, used: set<nat>)
    requires budget <= budget'
    requires Assign(probe, before + after, budget, used).Some? && Assign(probe, before + [x] + after, budget', used).Some?
    requires (Assign(probe, before + [x] + after, budget', used).value[|before|]
                !in Assign(probe, before + after, budget, used).value)
    ensures Without(Assign(probe, before + [x] + after, budget', used).value, |before|) == Assign(probe, before + after, budget, used).value
    decreases |after|
  {
    var olds, news := before + after, before + [x] + after;
    var r, r' := Assign(probe, olds, budget, used).value, Assign(probe, news, budget', used).value;
    if after == [] {
      assert olds == before && news == before + [x] && news[..|before|] == before;
      AssignBudget(probe, before, budget, used, budget');
    } else {
      var m, n := |after| - 1, |olds| - 1;
      Splits(before, x, after);
      var p, p' := Assign(probe, olds[..n], budget, used).value, Assign(probe, news[..n + 1], budget', used).value;
      assert r == p + [r[n]] && r' == p' + [r'[n + 1]];
      NewcomerElsewhere(probe, before, x, after[..m], budget, budget', used);
      WithoutElements(p', |before|);
      LastUnmoved(probe, after[m], budget, used + Elements(p), budget', used + Elements(p'), p'[|before|], r[n]);
      WithoutAppend(p', |before|, r'[n + 1]);
    }
  }

  lemma LastUnmoved(probe: Probe, key: string, budget: nat, used: set<nat>, budget': nat, used': set<nat>, y: nat, v: nat)
    requires budget <= budget' && used' == used + {y} && First(probe, key, 0, budget, used) == Some(v) && v != y
    ensures First(probe, key, 0, budget', used') == Some(v)
  {
    FirstSkips(probe, key, 0, budget, used, budget', used');
  }

  function Inserted(p: seq<nat>, k: nat, v: nat): seq<nat>
    requires k <= |p|
  {
    p[..k] + [v] + p[k..]
  }

  lemma InsertedAppend(p: seq<nat>, k: nat, v: nat, w: nat)
    requires k <= |p|
    ensures Inserted(p + [w], k, v) == Inserted(p, k, v) + [w] && (p + [w])[..k] == p[..k]
  {
  }

  lemma InsertedElements(p: seq<nat>, k: nat, v: nat)
    requires k <= |p|
    ensures Elements(Inserted(p, k, v)) == Elements(p) + {v}
  {
    assert p == p[..k] + p[k..];
    ElementsAppend(p[..k], p[k..]);
    ElementsAppend(p[..k], [v]);
    ElementsAppend(p[..k] + [v], p[k..]);
  }

  /** One more key at the end of an assignment. */
  lemma AssignLast(probe: Probe, keys: seq<string>, key: string, budget: nat, used: set<nat>, r: seq<nat>, v: nat)
    requires Assign(probe, keys, budget, used) == Some(r) && First(probe, key, 0, budget, used + Elements(r)) == Some(v)
    ensures Assign(probe, keys + [key], budget, used) == Some(r + [v])
  {
    assert (keys + [key])[..|keys|] == keys;
  }

  /** If the first address free of the earlier keys' is nobody's, the newcomer is placed there and everybody else succeeds
      as before. */
  lemma {:induction false} NewcomerPlaced(probe: Probe, before: seq<string>, x: string, after: seq<string>, budget: nat, budget': nat, used: set<nat>,
      r: seq<nat>, v: nat)
    requires budget <= budget' && Assign(probe, before + after, budget, used) == Some(r) && v !in r
    requires First(probe, x, 0, budget', used + Elements(r[..|before|])) == Some(v)
    ensures Assign(probe, before + [x] + after, budget', used) == Some(Inserted(r, |before|, v))
    decreases |after|
  {
    var k := |before|;
    if after == [] {
      assert before + after == before && before + [x] + after == before + [x];
      NewcomerLast(probe, before, x, budget, budget', used, r, v);
    } else {
      var m, n := |after| - 1, |before + after| - 1;
      Splits(before, x, after);
      var p, key, w := Assign(probe, before + after[..m], budget, used).value, after[m], r[n];
      assert r == p + [w];
      InsertedAppend(p, k, v, w);
      NewcomerPlaced(probe, before, x, after[..m], budget, budget', used, p, v);
      LaterPlaced(probe, before + [x] + after[..m], key, budget, budget', used, p, k, v, w);
      assert before + [x] + after == before + [x] + after[..m] + [key];
    }
  }

  lemma NewcomerLast(probe: Probe, before: seq<string>, x: string, budget: nat, budget': nat, used: set<nat>, r: seq<nat>, v: nat)
    requires budget <= budget' && Assign(probe, before, budget, used) == Some(r) && First(probe, x, 0, budget', used + Elements(r[..|before|])) == Some(v)
    ensures Assign(probe, before + [x], budget', used) == Some(Inserted(r, |before|, v))
  {
    assert r[..|before|] == r && Inserted(r, |before|, v) == r + [v];
    AssignBudget(probe, before, budget, used, budget');
    AssignLast(probe, before, x, budget', used, r, v);
  }

  lemma LaterPlaced(probe: Probe, keys: seq<string>, key: string, budget: nat, budget': nat, used: set<nat>, p: seq<nat>, k: nat, v: nat, w: nat)
    requires budget <= budget' && k <= |p| && v != w && Assign(probe, keys, budget', used) == Some(Inserted(p, k, v))
    requires First(probe, key, 0, budget, used + Elements(p)) == Some(w)
    ensures Assign(probe, keys + [key], budget', used) == Some(Inserted(p, k, v) + [w])
  {
    InsertedElements(p, k, v);
    LastUnmoved(probe, key, budget, used + Elements(p), budget', used + Elements(Inserted(p, k, v)), v, w);
    AssignLast(probe, keys, key, budget', used, Inserted(p, k, v), w);
  }

  lemma Pieces(before: seq<string>, x: string, after: seq<string>)
    ensures (before + after)[..|before|] == before
    ensures (before + [x] + after)[..|before|] == before && (before + [x] + after)[|before|] == x
  {
  }

  /** The newcomer of a finished allocation sits at the first address free of the earlier keys'. */
  lemma NewcomerSits(probe: Probe, before: seq<string>, x: string, after: seq<string>, budget: nat, budget': nat, used: set<nat>, r: seq<nat>, r': seq<nat>)
    requires budget <= budget'
    requires Assign(probe, before + after, budget, used) == Some(r) && Assign(probe, before + [x] + after, budget', used) == Some(r')
    ensures First(probe, x, 0, budget', used + Elements(r[..|before|])) == Some(r'[|before|])
  {
    var olds, news, n := before + after, before + [x] + after, |before|;
    AssignPrefix(probe, olds, budget, used, n);
    AssignPrefix(probe, news, budget', used, n + 1);
    Pieces(before, x, after);
    AssignBudget(probe, before, budget, used, budget');
    AssignStep(probe, news, budget', used, n);
  }

  /** Keys placed before the newcomer never move; all others stay exactly when the newcomer's address was free. */
  lemma NewcomerExactly(probe: Probe, before: seq<string>, x: string, after: seq<string>, budget: nat, budget': nat, used: set<nat>,
      r: seq<nat>, r': seq<nat>)
    requires budget <= budget'
    requires Assign(probe, before + after, budget, used) == Some(r) && Assign(probe, before + [x] + after, budget', used) == Some(r')
    ensures r'[..|before|] == r[..|before|]
    ensures Without(r', |before|) == r <==> r'[|before|] !in r
  {
    var olds, news := before + after, before + [x] + after;
    var n := |before|;
    AssignPrefix(probe, olds, budget, used, n);
    AssignPrefix(probe, news, budget', used, n);
    assert olds[..n] == before && news[..n] == before;
    AssignBudget(probe, before, budget, used, budget');
    if r'[n] !in r {
      NewcomerElsewhere(probe, before, x, after, budget, budget', used);
    } else {
      AssignDistinct(probe, news, budget', used);
      MissingFromWithout(r', n);
    }
  }

  lemma MissingFromWithout(s: seq<nat>, i: nat)
    requires i < |s| && NoDup(s)
    ensures s[i] !in Without(s, i)
  {
    forall j | 0 <= j < |s| - 1 ensures Without(s, i)[j] != s[i] {
      if j < i {
        assert Without(s, i)[j] == s[j];
      } else {
        assert Without(s, i)[j] == s[j + 1];
      }
    }
  }

  // ---- Addresses by name -------------------------------------------------------------------------------------------------------

  function Zip(keys: seq<string>, vals: seq<nat>): map<string, nat>
    requires |keys| == |vals|
  {
    if keys == [] then map[]
    else
      var n := |keys| - 1;
      Zip(keys[..n], vals[..n])[keys[n] := vals[n]]
  }

  /** The map pairs each key with the value at its position. */
  ghost predicate Pairs(m: map<string, nat>, keys: seq<string>, vals: seq<nat>) {
    && |keys| == |vals| && NoDup(keys)
    && (forall k :: k in m <==> k in keys)
    && (forall i :: 0 <= i < |keys| ==> keys[i] in m && m[keys[i]] == vals[i])
  }

  lemma PairsAppend(m: map<string, nat>, keys: seq<string>, vals: seq<nat>, k: string, v: nat)
    requires Pairs(m, keys, vals) && k !in keys
    ensures Pairs(m[k := v], keys + [k], vals + [v])
  {
  }

  lemma {:induction false} ZipPairs(keys: seq<string>, vals: seq<nat>)
    requires |keys| == |vals| && NoDup(keys)
    ensures Pairs(Zip(keys, vals), keys, vals)
  {
    if keys != [] {
      var n := |keys| - 1;
      var k, v, ks, vs := keys[n], vals[n], keys[..n], vals[..n];
      ZipPairs(ks, vs);
      assert k !in ks;
      PairsAppend(Zip(ks, vs), ks, vs, k, v);
      assert keys == ks + [k] && vals == vs + [v];
    }
  }

  lemma PairIndex(m: map<string, nat>, keys: seq<string>, vals: seq<nat>, k: string) returns (i: nat)
    requires Pairs(m, keys, vals) && k in m
    ensures i < |keys| && keys[i] == k && m[k] == vals[i]
  {
    i :| i < |keys| && keys[i] == k;
  }

  const MAX_PROBE_BUDGET: nat := 64

  lemma NamesOrdered()
    ensures WeakOrder(StringLess) && StrictTotal(StringLess)
  {
    StringLessTotal();
    TotalIsWeak(StringLess);
  }

  ghost function SortedNames(names: set<string>): (r: seq<string>)
    ensures StrictlySorted(StringLess, r) && Elements(r) == names && NoDup(r)
  {
    NamesOrdered();
    var r := SortSet(StringLess, names);
    StrictIsDistinct(StringLess, r);
    r
  }

  /** The allocation as a function of the set of names and the addresses in use. */
  ghost function Addresses(probe: Probe, names: set<string>, budget: nat, used: set<nat>): Option<map<string, nat>> {
    var sorted := SortedNames(names);
    var r := Assign(probe, sorted, budget, used);
    if r.None? then None else Some(Zip(sorted, r.value))
  }

  lemma IndexIn<T>(s: seq<T>, x: T) returns (i: nat)
    requires x in s
    ensures i < |s| && s[i] == x
  {
    i :| i < |s| && s[i] == x;
  }

  ghost predicate Proper(probe: Probe, m: map<string, nat>, used: set<nat>) {
    && (forall k, l :: k in m && l in m && m[k] == m[l] ==> k == l)
    && (forall k :: k in m ==> m[k] !in used && Tried(probe, k, m[k]))
  }

  lemma PairsProper(probe: Probe, m: map<string, nat>, keys: seq<string>, vals: seq<nat>, used: set<nat>)
    requires Pairs(m, keys, vals) && NoDup(vals) && Elements(vals) !! used
    requires forall i :: 0 <= i < |keys| ==> Tried(probe, keys[i], vals[i])
    ensures Proper(probe, m, used)
  {
    forall k | k in m ensures m[k] !in used && Tried(probe, k, m[k]) {
      var i := PairIndex(m, keys, vals, k);
      assert vals[i] in Elements(vals);
    }
    forall k, l | k in m && l in m && m[k] == m[l] ensures k == l {
      var i := PairIndex(m, keys, vals, k);
      var j := PairIndex(m, keys, vals, l);
    }
  }

  /** Every name gets an address of its own that it tried and that was not in use. */
  lemma AddressesDistinct(probe: Probe, names: set<string>, budget: nat, used: set<nat>)
    requires Addresses(probe, names, budget, used).Some?
    ensures Addresses(probe, names, budget, used).value.Keys == names
    ensures Proper(probe, Addresses(probe, names, budget, used).value, used)
  {
    var sorted := SortedNames(names);
    var r := Assign(probe, sorted, budget, used).value;
    AssignDistinct(probe, sorted, budget, used);
    ZipPairs(sorted, r);
    PairsProper(probe, Zip(sorted, r), sorted, r, used);
    assert forall k :: k in Zip(sorted, r) <==> k in Elements(sorted);
  }

  lemma PieceElements(news: seq<string>, i: nat, names: set<string>)
    requires i < |news| && NoDup(news) && Elements(news) == names + {news[i]} && news[i] !in names
    ensures Elements(news[..i] + news[i + 1..]) == names
  {
    var before, x, after := news[..i], news[i], news[i + 1..];
    assert news == before + [x] + after;
    assert x !in before && x !in after;
    forall k ensures k in before + after <==> k in names {
      assert k in Elements(news) <==> k in before || k == x || k in after;
    }
  }

  lemma StrictPieces(news: seq<string>, i: nat, names: set<string>)
    requires i < |news| && StrictlySorted(StringLess, news) && Elements(news) == names + {news[i]} && news[i] !in names
    ensures SortedNames(names) == news[..i] + news[i + 1..]
  {
    var olds := news[..i] + news[i + 1..];
    NamesOrdered();
    StrictIsDistinct(StringLess, news);
    PieceElements(news, i, names);
    assert forall j :: 0 <= j < |olds| ==> olds[j] == news[if j < i then j else j + 1];
    StrictlySortedUnique(StringLess, SortedNames(names), olds);
  }

  /** Names sorted before the newcomer never move; all stay put if and only if its address was nobody's. */
  ghost predicate Stable(m: map<string, nat>, m': map<string, nat>, x: string) {
    && x in m' && (forall k :: k in m ==> k in m')
    && (forall k :: k in m && StringLess(k, x) ==> m'[k] == m[k])
    && ((forall k :: k in m ==> m'[k] == m[k]) <==> m'[x] !in m.Values)
  }

  /** The addresses of the names sorted before `x`. */
  function EarlierAddresses(m: map<string, nat>, x: string): set<nat> {
    set k | k in m && StringLess(k, x) :: m[k]
  }

  /** Where a newcomer will sit, read off the allocation before it joins. */
  function NewcomerAddress(probe: Probe, m: map<string, nat>, x: string, budget: nat, used: set<nat>): Option<nat> {
    First(probe, x, 0, budget, used + EarlierAddresses(m, x))
  }

  /** The allocation exists and everybody has the address they had. */
  ghost predicate Undisturbed(m: map<string, nat>, m': Option<map<string, nat>>) {
    m'.Some? && forall k :: k in m ==> k in m'.value && m'.value[k] == m[k]
  }

  /** Who moves when somebody joins, decided on the allocation before. Names sorted before the newcomer never move, the
      newcomer gets the first address free of theirs, and the new allocation exists with everybody in place if and only if
      that address was nobody's. */
  lemma NewcomerStability(probe: Probe, names: set<string>, x: string, budget: nat, budget': nat, used: set<nat>)
    requires x !in names && budget <= budget' && Addresses(probe, names, budget, used).Some?
    ensures var m, m' := Addresses(probe, names, budget, used).value, Addresses(probe, names + {x}, budget', used);
      var v := NewcomerAddress(probe, m, x, budget', used);
      && (m'.Some? ==> Stable(m, m'.value, x) && v == Some(m'.value[x]))
      && (Undisturbed(m, m') <==> v.Some? && v.value !in m.Values)
  {
    var olds, news := SortedNames(names), SortedNames(names + {x});
    var i := IndexIn(news, x);
    StrictPieces(news, i, names);
    var r, all := Assign(probe, olds, budget, used).value, Assign(probe, news, budget', used);
    JoinedInOrder(probe, olds, news, i, budget, budget', used, r, all);
    Concluded(Zip(olds, r), if all.Some? then Some(Zip(news, all.value)) else None, x, NewcomerAddress(probe, Zip(olds, r), x, budget', used));
  }

  lemma Concluded(m: map<string, nat>, m': Option<map<string, nat>>, x: string, v: Option<nat>)
    requires m'.Some? ==> Stable(m, m'.value, x) && v == Some(m'.value[x])
    requires v.Some? && v.value !in m.Values ==> m'.Some?
    ensures Undisturbed(m, m') <==> v.Some? && v.value !in m.Values
  {
  }

  lemma JoinedInOrder(probe: Probe, olds: seq<string>, news: seq<string>, i: nat, budget: nat, budget': nat, used: set<nat>, r: seq<nat>, all: Option<seq<nat>>)
    requires i < |news| && olds == news[..i] + news[i + 1..] && NoDup(olds) && NoDup(news) && StrictlySorted(StringLess, news)
    requires budget <= budget' && Assign(probe, olds, budget, used) == Some(r) && all == Assign(probe, news, budget', used)
    ensures var m, x := Zip(olds, r), news[i];
      var v := NewcomerAddress(probe, m, x, budget', used);
      && (all.Some? ==> Stable(m, Zip(news, all.value), x) && v == Some(Zip(news, all.value)[x]))
      && (v.Some? && v.value !in m.Values ==> all.Some?)
  {
    var m, v := Zip(olds, r), NewcomerAddress(probe, Zip(olds, r), news[i], budget', used);
    EarlierOf(olds, news, i, r);
    if all.Some? {
      NewcomerInOrder(probe, olds, news, i, budget, budget', used, r, all.value);
      JoinedSits(probe, olds, news, i, budget, budget', used, r, all.value);
    } else if v.Some? {
      ZipPairs(olds, r);
      ValuesAre(m, olds, r, v.value);
      JoinedPlaced(probe, olds, news, i, budget, budget', used, r, v.value);
    }
  }

  lemma JoinedSits(probe: Probe, olds: seq<string>, news: seq<string>, i: nat, budget: nat, budget': nat, used: set<nat>, r: seq<nat>, r': seq<nat>)
    requires i < |news| && olds == news[..i] + news[i + 1..] && NoDup(news) && budget <= budget'
    requires Assign(probe, olds, budget, used) == Some(r) && Assign(probe, news, budget', used) == Some(r')
    ensures news[i] in Zip(news, r') && First(probe, news[i], 0, budget', used + Elements(r[..i])) == Some(Zip(news, r')[news[i]])
  {
    SplitAt(news, i);
    NewcomerSits(probe, news[..i], news[i], news[i + 1..], budget, budget', used, r, r');
    ZipPairs(news, r');
  }

  lemma JoinedPlaced(probe: Probe, olds: seq<string>, news: seq<string>, i: nat, budget: nat, budget': nat, used: set<nat>, r: seq<nat>, v: nat)
    requires i < |news| && olds == news[..i] + news[i + 1..] && budget <= budget'
    requires Assign(probe, olds, budget, used) == Some(r) && First(probe, news[i], 0, budget', used + Elements(r[..i])) == Some(v)
    ensures v !in r ==> Assign(probe, news, budget', used).Some?
  {
    SplitAt(news, i);
    if v !in r {
      NewcomerPlaced(probe, news[..i], news[i], news[i + 1..], budget, budget', used, r, v);
    }
  }

  lemma EarlierOf(olds: seq<string>, news: seq<string>, i: nat, r: seq<nat>)
    requires i < |news| && olds == news[..i] + news[i + 1..] && |r| == |olds| && NoDup(olds) && StrictlySorted(StringLess, news)
    ensures EarlierAddresses(Zip(olds, r), news[i]) == Elements(r[..i])
  {
    var m, x := Zip(olds, r), news[i];
    ZipPairs(olds, r);
    forall a ensures a in EarlierAddresses(m, x) <==> a in Elements(r[..i]) {
      if k :| k in m && StringLess(k, x) && m[k] == a {
        var j := PairIndex(m, olds, r, k);
        EarlierIndex(news, i, j);
        assert r[..i][j] == a;
      }
      if a in r[..i] {
        var j := IndexIn(r[..i], a);
        assert olds[j] == news[j] && StringLess(news[j], x);
        assert olds[j] in m && m[olds[j]] == r[j];
      }
    }
  }

  lemma NewcomerInOrder(probe: Probe, olds: seq<string>, news: seq<string>, i: nat, budget: nat, budget': nat, used: set<nat>, r: seq<nat>, r': seq<nat>)
    requires i < |news| && olds == news[..i] + news[i + 1..] && NoDup(olds) && NoDup(news) && StrictlySorted(StringLess, news)
    requires budget <= budget' && Assign(probe, olds, budget, used) == Some(r) && Assign(probe, news, budget', used) == Some(r')
    ensures Stable(Zip(olds, r), Zip(news, r'), news[i])
  {
    NewcomerAt(probe, olds, news, i, budget, budget', used, r, r');
    StableZip(olds, r, news, r', i);
  }

  lemma SplitAt(news: seq<string>, i: nat)
    requires i < |news|
    ensures news == news[..i] + [news[i]] + news[i + 1..]
  {
  }

  lemma NewcomerAt(probe: Probe, olds: seq<string>, news: seq<string>, i: nat, budget: nat, budget': nat, used: set<nat>, r: seq<nat>, r': seq<nat>)
    requires i < |news| && olds == news[..i] + news[i + 1..] && budget <= budget'
    requires Assign(probe, olds, budget, used) == Some(r) && Assign(probe, news, budget', used) == Some(r')
    ensures |r| == |olds| && |r'| == |news| && r'[..i] == r[..i]
    ensures Without(r', i) == r <==> r'[i] !in r
  {
    var before, x, after := news[..i], news[i], news[i + 1..];
    SplitAt(news, i);
    NewcomerExactly(probe, before, x, after, budget, budget', used, r, r');
  }

  lemma StableZip(olds: seq<string>, r: seq<nat>, news: seq<string>, r': seq<nat>, i: nat)
    requires |olds| == |r| && |news| == |r'| && i < |news| && olds == news[..i] + news[i + 1..]
    requires NoDup(olds) && NoDup(news) && StrictlySorted(StringLess, news)
    requires r'[..i] == r[..i] && (Without(r', i) == r <==> r'[i] !in r)
    ensures Stable(Zip(olds, r), Zip(news, r'), news[i])
  {
    ZipPairs(olds, r);
    ZipPairs(news, r');
    NewcomerByName(Zip(olds, r), olds, r, Zip(news, r'), news, r', i);
  }

  lemma OldIndex(m: map<string, nat>, olds: seq<string>, r: seq<nat>, m': map<string, nat>, news: seq<string>, r': seq<nat>, i: nat, j: nat)
    requires Pairs(m, olds, r) && Pairs(m', news, r') && i < |news| && olds == news[..i] + news[i + 1..] && j < |olds|
    ensures olds[j] in m && m[olds[j]] == r[j] && olds[j] in m' && m'[olds[j]] == Without(r', i)[j]
  {
    assert olds[j] == news[if j < i then j else j + 1];
  }

  /** The same, read off the sequences. */
  lemma NewcomerByName(m: map<string, nat>, olds: seq<string>, r: seq<nat>, m': map<string, nat>, news: seq<string>, r': seq<nat>, i: nat)
    requires Pairs(m, olds, r) && Pairs(m', news, r') && i < |news| && olds == news[..i] + news[i + 1..]
    requires StrictlySorted(StringLess, news)
    requires r'[..i] == r[..i] && (Without(r', i) == r <==> r'[i] !in r)
    ensures Stable(m, m', news[i])
  {
    var x := news[i];
    forall k | k in m ensures k in m' && (StringLess(k, x) ==> m'[k] == m[k]) {
      var j := PairIndex(m, olds, r, k);
      OldIndex(m, olds, r, m', news, r', i, j);
      if StringLess(k, x) {
        EarlierIndex(news, i, j);
        assert r'[..i][j] == r[..i][j];
      }
    }
    AllUnmoved(m, olds, r, m', news, r', i);
    ValuesAre(m, olds, r, r'[i]);
  }

  lemma AllUnmoved(m: map<string, nat>, olds: seq<string>, r: seq<nat>, m': map<string, nat>, news: seq<string>, r': seq<nat>, i: nat)
    requires Pairs(m, olds, r) && Pairs(m', news, r') && i < |news| && olds == news[..i] + news[i + 1..]
    requires forall k :: k in m ==> k in m'
    ensures Without(r', i) == r <==> forall k :: k in m ==> m'[k] == m[k]
  {
    if Without(r', i) == r {
      forall k | k in m ensures m'[k] == m[k] {
        var j := PairIndex(m, olds, r, k);
        OldIndex(m, olds, r, m', news, r', i, j);
      }
    } else {
      var j :| 0 <= j < |r| && Without(r', i)[j] != r[j];
      OldIndex(m, olds, r, m', news, r', i, j);
    }
  }

  lemma ValuesAre(m: map<string, nat>, keys: seq<string>, vals: seq<nat>, v: nat)
    requires Pairs(m, keys, vals)
    ensures v in vals <==> v in m.Values
  {
    if v in vals {
      var j := IndexIn(vals, v);
      assert keys[j] in m.Keys;
    }
    if v in m.Values {
      var k :| k in m && m[k] == v;
      var j := PairIndex(m, keys, vals, k);
    }
  }

  lemma EarlierIndex(news: seq<string>, i: nat, j: nat)
    requires i < |news| && j < |news| - 1 && StrictlySorted(StringLess, news)
    requires StringLess((news[..i] + news[i + 1..])[j], news[i])
    ensures j < i
  {
    if j >= i {
      StringLessTriple(news[i], news[j + 1], news[i]);
      assert false;
    }
  }
}
