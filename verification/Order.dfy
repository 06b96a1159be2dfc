/** Orderings and sorted sequences: what Go's `<` on strings and `sort.Slice` promise. */
module Order {

  /** Go's `a < b` on strings: lexicographic. */
  predicate StringLess(a: string, b: string) {
    if |b| == 0 then false
    else if |a| == 0 then true
    else if a[0] != b[0] then a[0] < b[0]
    else StringLess(a[1..], b[1..])
  }

  /** Irreflexive and transitive: what a comparator needs before it may be passed to `sort.Slice`. */
  ghost predicate StrictOrder<T(!new)>(less: (T, T) -> bool) {
    && (forall a :: !less(a, a))
    && (forall a, b, c :: less(a, b) && less(b, c) ==> less(a, c))
  }

  ghost predicate TotalOn<T(!new)>(less: (T, T) -> bool, s: set<T>) {
    forall a, b :: a in s && b in s && a != b ==> less(a, b) || less(b, a)
  }

  ghost predicate StrictTotal<T(!new)>(less: (T, T) -> bool) {
    && StrictOrder(less)
    && (forall a, b :: a != b ==> less(a, b) || less(b, a))
  }

  /** No element is preceded by a greater one: the promise of `sort.Slice`. */
  ghost predicate Sorted<T>(less: (T, T) -> bool, s: seq<T>) {
    forall i, j :: 0 <= i < j < |s| ==> !less(s[j], s[i])
  }

  ghost predicate StrictlySorted<T>(less: (T, T) -> bool, s: seq<T>) {
    forall i, j :: 0 <= i < j < |s| ==> less(s[i], s[j])
  }

  ghost predicate NoDup<T(!new)>(s: seq<T>) {
    forall i, j :: 0 <= i < j < |s| ==> s[i] != s[j]
  }

  function Elements<T>(s: seq<T>): set<T> {
    set x | x in s
  }

  lemma ElementsAppend<T>(a: seq<T>, b: seq<T>)
    ensures Elements(a + b) == Elements(a) + Elements(b)
  {
  }

  /** One more step of a loop over `s`. */
  lemma PrefixElements<T>(s: seq<T>, i: nat)
    requires i < |s|
    ensures s[..i + 1] == s[..i] + [s[i]]
    ensures Elements(s[..i + 1]) == Elements(s[..i]) + {s[i]}
  {
    assert s[..i + 1] == s[..i] + [s[i]];
    ElementsAppend(s[..i], [s[i]]);
  }

  lemma SuffixElements<T(!new)>(s: seq<T>, i: nat)
    requires i < |s| && NoDup(s)
    ensures Elements(s[i..]) - {s[i]} == Elements(s[i + 1..]) && s[i] in Elements(s[i..])
  {
    var tail := s[i + 1..];
    assert s[i..] == [s[i]] + tail;
    forall x | x in tail ensures x != s[i] {
      var k :| 0 <= k < |tail| && tail[k] == x;
      assert s[i + 1 + k] == x;
    }
  }

  /** The concatenation of what each element contributes. */
  function Collect<A, B>(f: A -> seq<B>, xs: seq<A>): seq<B> {
    if xs == [] then [] else f(xs[0]) + Collect(f, xs[1..])
  }

  lemma {:induction false} CollectConcat<A, B>(f: A -> seq<B>, xs: seq<A>, ys: seq<A>)
    ensures Collect(f, xs + ys) == Collect(f, xs) + Collect(f, ys)
  {
    if xs == [] {
      assert xs + ys == ys;
    } else {
      assert (xs + ys)[1..] == xs[1..] + ys;
      CollectConcat(f, xs[1..], ys);
    }
  }

  lemma CollectStep<A, B>(f: A -> seq<B>, xs: seq<A>, i: nat)
    requires i < |xs|
    ensures Collect(f, xs[..i + 1]) == Collect(f, xs[..i]) + f(xs[i])
  {
    assert xs[..i + 1] == xs[..i] + [xs[i]];
    CollectConcat(f, xs[..i], [xs[i]]);
    assert [xs[i]][1..] == [];
  }

  lemma {:induction false} CollectMember<A(!new), B(!new)>(f: A -> seq<B>, xs: seq<A>, y: B)
    ensures y in Collect(f, xs) <==> exists x :: x in xs && y in f(x)
  {
    if xs != [] {
      CollectMember(f, xs[1..], y);
      assert xs == [xs[0]] + xs[1..];
    }
  }

  /** When only one element contributes, the concatenation is its contribution. */
  lemma {:induction false} CollectOnly<A, B>(f: A -> seq<B>, xs: seq<A>, i: nat)
    requires i < |xs| && forall j :: 0 <= j < |xs| && j != i ==> f(xs[j]) == []
    ensures Collect(f, xs) == f(xs[i])
  {
    var rest := xs[1..];
    assert forall j :: 0 <= j < |rest| ==> rest[j] == xs[j + 1];
    if i == 0 {
      CollectNone(f, rest);
    } else {
      CollectOnly(f, rest, i - 1);
    }
  }

  lemma {:induction false} CollectNone<A, B>(f: A -> seq<B>, xs: seq<A>)
    requires forall j :: 0 <= j < |xs| ==> f(xs[j]) == []
    ensures Collect(f, xs) == []
  {
    if xs != [] {
      assert forall j :: 0 <= j < |xs[1..]| ==> xs[1..][j] == xs[j + 1];
      CollectNone(f, xs[1..]);
    }
  }

  lemma {:induction false} CollectMap<A, B>(f: A -> seq<B>, xs: seq<A>, ys: seq<B>)
    requires |xs| == |ys| && forall i :: 0 <= i < |xs| ==> f(xs[i]) == [ys[i]]
    ensures Collect(f, xs) == ys
  {
    if xs != [] {
      assert forall i :: 0 <= i < |xs| - 1 ==> xs[1..][i] == xs[i + 1] && ys[1..][i] == ys[i + 1];
      CollectMap(f, xs[1..], ys[1..]);
      assert ys == [ys[0]] + ys[1..];
    }
  }

  /** Collecting in two stages is collecting once. */
  lemma {:induction false} CollectCollect<A, B, C>(f: A -> seq<B>, g: B -> seq<C>, h: A -> seq<C>, xs: seq<A>)
    requires forall x :: x in xs ==> h(x) == Collect(g, f(x))
    ensures Collect(g, Collect(f, xs)) == Collect(h, xs)
  {
    if xs != [] {
      assert xs[0] in xs && forall x :: x in xs[1..] ==> x in xs;
      CollectConcat(g, f(xs[0]), Collect(f, xs[1..]));
      CollectCollect(f, g, h, xs[1..]);
    }
  }

  /** What `<` on strings means: a proper prefix, or the smaller character at the first difference. */
  lemma {:induction false} StringLessExactly(a: string, b: string)
    ensures StringLess(a, b) <==> a < b || exists i :: 0 <= i < |a| && i < |b| && a[..i] == b[..i] && a[i] < b[i]
  {
    if a != "" && b != "" && a[0] == b[0] {
      StringLessExactly(a[1..], b[1..]);
      assert a == [a[0]] + a[1..] && b == [b[0]] + b[1..];
      if i :| 0 <= i < |a| - 1 && i < |b| - 1 && a[1..][..i] == b[1..][..i] && a[1..][i] < b[1..][i] {
        assert a[..i + 1] == [a[0]] + a[1..][..i] && b[..i + 1] == [b[0]] + b[1..][..i];
        assert a[i + 1] < b[i + 1];
      }
      if i :| 0 <= i < |a| && i < |b| && a[..i] == b[..i] && a[i] < b[i] {
        assert a[1..][..i - 1] == a[..i][1..] && b[1..][..i - 1] == b[..i][1..];
        assert a[1..][i - 1] < b[1..][i - 1];
      }
    } else if a != "" && b != "" {
      assert a[..0] == b[..0];
    }
  }

  lemma StringLessTransitive(a: string, b: string, c: string)
    requires StringLess(a, b) && StringLess(b, c)
    ensures StringLess(a, c)
  {
    if |a| != 0 && a[0] == b[0] && b[0] == c[0] {
      StringLessTransitive(a[1..], b[1..], c[1..]);
    }
  }

  lemma StringLessIrreflexive(a: string)
    ensures !StringLess(a, a)
  {
    if |a| != 0 {
      StringLessIrreflexive(a[1..]);
    }
  }

  lemma StringLessConnected(a: string, b: string)
    requires a != b
    ensures StringLess(a, b) || StringLess(b, a)
  {
    if |a| != 0 && |b| != 0 && a[0] == b[0] {
      assert a == [a[0]] + a[1..] && b == [b[0]] + b[1..];
      StringLessConnected(a[1..], b[1..]);
    }
  }

  /** What a comparator built from string fields needs to know about three values of a field. */
  lemma StringLessTriple(a: string, b: string, c: string)
    ensures !StringLess(a, a)
    ensures StringLess(a, b) && StringLess(b, c) ==> StringLess(a, c)
    ensures !StringLess(a, b) && !StringLess(b, c) ==> !StringLess(a, c)
    ensures StringLess(a, b) ==> !StringLess(b, a)
    ensures a != b ==> StringLess(a, b) || StringLess(b, a)
  {
    StringLessTotal();
    TotalIsWeak(StringLess);
  }

  /** String comparison is a strict total order. */
  lemma StringLessTotal()
    ensures StrictTotal(StringLess)
  {
    forall a: string ensures !StringLess(a, a) {
      StringLessIrreflexive(a);
    }
    forall a, b, c | StringLess(a, b) && StringLess(b, c) ensures StringLess(a, c) {
      StringLessTransitive(a, b, c);
    }
    forall a: string, b: string | a != b ensures StringLess(a, b) || StringLess(b, a) {
      StringLessConnected(a, b);
    }
  }

  /** A set has only one strictly sorted enumeration, so a sort erases Go's map iteration order. */
  lemma {:induction false} StrictlySortedUnique<T(!new)>(less: (T, T) -> bool, s: seq<T>, t: seq<T>)
    requires StrictOrder(less)
    requires StrictlySorted(less, s) && StrictlySorted(less, t)
    requires Elements(s) == Elements(t)
    ensures s == t
    decreases |s|
  {
    if s == [] {
      assert forall i :: 0 <= i < |t| ==> t[i] in Elements(t);
    } else {
      assert s[0] in Elements(t);
      assert t[0] in Elements(s);
      assert s[0] == t[0];
      TailElements(less, s);
      TailElements(less, t);
      StrictlySortedUnique(less, s[1..], t[1..]);
      assert s == [s[0]] + s[1..] && t == [t[0]] + t[1..];
    }
  }

  lemma TailElements<T(!new)>(less: (T, T) -> bool, s: seq<T>)
    requires StrictOrder(less) && StrictlySorted(less, s) && s != []
    ensures StrictlySorted(less, s[1..])
    ensures Elements(s[1..]) == Elements(s) - {s[0]}
  {
    assert s == [s[0]] + s[1..];
    forall x | x in s[1..] ensures x != s[0] {
      var i :| 0 <= i < |s[1..]| && s[1..][i] == x;
      assert less(s[0], s[i + 1]);
    }
  }

  lemma SortedDistinctIsStrict<T(!new)>(less: (T, T) -> bool, s: seq<T>)
    requires StrictOrder(less) && Sorted(less, s) && NoDup(s)
    requires TotalOn(less, Elements(s))
    ensures StrictlySorted(less, s)
  {
    forall i, j | 0 <= i < j < |s| ensures less(s[i], s[j]) {
      assert s[i] in Elements(s) && s[j] in Elements(s);
    }
  }

  lemma StrictIsDistinct<T(!new)>(less: (T, T) -> bool, s: seq<T>)
    requires StrictOrder(less) && StrictlySorted(less, s)
    ensures NoDup(s)
  {
  }

  function Insert<T>(less: (T, T) -> bool, x: T, s: seq<T>): (r: seq<T>)
    ensures multiset(r) == multiset(s) + multiset{x}
  {
    if s == [] then [x]
    else if less(s[0], x) then
      assert s == [s[0]] + s[1..];
      [s[0]] + Insert(less, x, s[1..])
    else [x] + s
  }

  /** The sorted enumeration of a sequence. */
  function Sort<T>(less: (T, T) -> bool, s: seq<T>): (r: seq<T>)
    ensures multiset(r) == multiset(s)
  {
    if s == [] then []
    else
      assert s == [s[0]] + s[1..];
      Insert(less, s[0], Sort(less, s[1..]))
  }

  ghost predicate WeakOrder<T(!new)>(less: (T, T) -> bool) {
    && StrictOrder(less)
    && (forall a, b, c :: !less(a, b) && !less(b, c) ==> !less(a, c))
  }

  lemma {:induction false} InsertSorted<T(!new)>(less: (T, T) -> bool, x: T, s: seq<T>)
    requires WeakOrder(less) && Sorted(less, s)
    ensures Sorted(less, Insert(less, x, s))
  {
    if s != [] && less(s[0], x) {
      assert s == [s[0]] + s[1..];
      InsertSorted(less, x, s[1..]);
      var r := Insert(less, x, s[1..]);
      forall j | 0 <= j < |r| ensures !less(r[j], s[0]) {
        assert r[j] in multiset(r);
        assert r[j] == x || r[j] in s[1..];
      }
    }
  }

  lemma {:induction false} SortSorted<T(!new)>(less: (T, T) -> bool, s: seq<T>)
    requires WeakOrder(less)
    ensures Sorted(less, Sort(less, s))
  {
    if s != [] {
      SortSorted(less, s[1..]);
      InsertSorted(less, s[0], Sort(less, s[1..]));
    }
  }

  lemma TotalIsWeak<T(!new)>(less: (T, T) -> bool)
    requires StrictTotal(less)
    ensures WeakOrder(less)
  {
    forall a, b, c | !less(a, b) && !less(b, c) ensures !less(a, c) {
      if a != b && b != c {
        assert less(b, a) && less(c, b);
      }
    }
  }

  /** Equal multisets have equal elements and agree on distinctness. */
  lemma PermutationElements<T(!new)>(s: seq<T>, t: seq<T>)
    requires multiset(s) == multiset(t)
    ensures Elements(s) == Elements(t) && |s| == |t|
  {
    assert |multiset(s)| == |s| && |multiset(t)| == |t|;
    forall x ensures x in s <==> x in t {
      assert x in s <==> x in multiset(s);
      assert x in t <==> x in multiset(t);
    }
  }

  lemma NoDupCount<T(!new)>(s: seq<T>)
    ensures NoDup(s) <==> forall x :: multiset(s)[x] <= 1
  {
    if NoDup(s) {
      forall x ensures multiset(s)[x] <= 1 {
        CountDistinct(s, x);
      }
    } else {
      var i, j :| 0 <= i < j < |s| && s[i] == s[j];
      assert s == s[..i] + [s[i]] + s[i + 1..j] + [s[j]] + s[j + 1..];
      assert multiset(s)[s[i]] >= 2;
    }
  }

  lemma CountDistinct<T(!new)>(s: seq<T>, x: T)
    requires NoDup(s)
    ensures multiset(s)[x] <= 1
  {
    if s != [] {
      assert s == [s[0]] + s[1..];
      CountDistinct(s[1..], x);
      if x == s[0] { assert x !in s[1..]; }
    }
  }

  lemma {:induction false} DistinctCount<T(!new)>(s: seq<T>)
    requires NoDup(s)
    ensures |Elements(s)| == |s|
  {
    if s != [] {
      SuffixElements(s, 0);
      assert s[0..] == s;
      DistinctCount(s[1..]);
    }
  }

  lemma PermutationNoDup<T(!new)>(s: seq<T>, t: seq<T>)
    requires multiset(s) == multiset(t) && NoDup(s)
    ensures NoDup(t)
  {
    NoDupCount(s);
    NoDupCount(t);
  }

  /** `sort.Slice`: some permutation in which no element precedes a smaller one; ties land anywhere. */
  method SortSlice<T(!new)>(less: (T, T) -> bool, s: seq<T>) returns (r: seq<T>)
    requires WeakOrder(less)
    ensures Sorted(less, r)
    ensures multiset(r) == multiset(s)
  {
    SortSorted(less, s);
    r := Sort(less, s);
  }

  /** The keys of a Go map in the order `range` happens to visit them. */
  method Enumerate<T(!new)>(s: set<T>) returns (r: seq<T>)
    ensures Elements(r) == s && NoDup(r)
  {
    r := [];
    var rest := s;
    while rest != {}
      invariant Elements(r) + rest == s && Elements(r) !! rest && NoDup(r)
      decreases |rest|
    {
      var x :| x in rest;
      assert x !in r;
      rest := rest - {x};
      r := r + [x];
    }
  }

  lemma InsertNew<T(!new)>(less: (T, T) -> bool, x: T, s: seq<T>)
    requires WeakOrder(less) && StrictlySorted(less, s) && x !in s
    requires TotalOn(less, Elements(s) + {x})
    ensures StrictlySorted(less, Insert(less, x, s))
    ensures Elements(Insert(less, x, s)) == Elements(s) + {x}
  {
    var r := Insert(less, x, s);
    InsertSorted(less, x, s);
    PermutationElements(r, [x] + s);
    PermutationNoDup([x] + s, r);
    assert Elements(r) == Elements(s) + {x};
    SortedDistinctIsStrict(less, r);
  }

  /** The strictly sorted enumeration of a set. */
  ghost function SortSet<T(!new)>(less: (T, T) -> bool, s: set<T>): (r: seq<T>)
    requires WeakOrder(less) && TotalOn(less, s)
    ensures StrictlySorted(less, r) && Elements(r) == s
  {
    if s == {} then []
    else
      var x :| x in s;
      var rest := SortSet(less, s - {x});
      assert x !in Elements(rest) && Elements(rest) + {x} == s;
      InsertNew(less, x, rest);
      Insert(less, x, rest)
  }

  /** Collecting a map's keys in any order and sorting them yields the one sorted enumeration. */
  method SortedKeys<T(!new)>(less: (T, T) -> bool, s: set<T>) returns (r: seq<T>)
    requires WeakOrder(less) && TotalOn(less, s)
    ensures r == SortSet(less, s)
  {
    var keys := Enumerate(s);
    r := SortSlice(less, keys);
    PermutationElements(keys, r);
    PermutationNoDup(keys, r);
    SortedDistinctIsStrict(less, r);
    StrictlySortedUnique(less, r, SortSet(less, s));
  }

  lemma CollectAround<A, B>(f: A -> seq<B>, t: seq<A>, k: nat)
    requires k < |t|
    ensures Collect(f, t) == Collect(f, t[..k]) + f(t[k]) + Collect(f, t[k + 1..])
    ensures Collect(f, t[..k] + t[k + 1..]) == Collect(f, t[..k]) + Collect(f, t[k + 1..])
  {
    CollectSplit(f, t, k + 1);
    CollectStep(f, t, k);
    CollectConcat(f, t[..k], t[k + 1..]);
  }

  lemma CollectSplit<A, B>(f: A -> seq<B>, t: seq<A>, k: nat)
    requires k <= |t|
    ensures Collect(f, t) == Collect(f, t[..k]) + Collect(f, t[k..])
  {
    CollectConcat(f, t[..k], t[k..]);
    assert t == t[..k] + t[k..];
  }

  lemma RemovedOnce<A>(t: seq<A>, k: nat)
    requires k < |t|
    ensures multiset(t[..k] + t[k + 1..]) == multiset(t) - multiset{t[k]}
  {
    assert t == t[..k] + [t[k]] + t[k + 1..];
  }

  /** Taking one shared element out of two permutations leaves permutations. */
  lemma WithoutShared<A>(s: seq<A>, t: seq<A>, k: nat)
    requires s != [] && multiset(s) == multiset(t) && k < |t| && t[k] == s[0]
    ensures multiset(s[1..]) == multiset(t[..k] + t[k + 1..])
  {
    RemovedOnce(t, k);
    TailOnce(s);
  }

  lemma TailOnce<A>(s: seq<A>)
    requires s != []
    ensures multiset(s[1..]) == multiset(s) - multiset{s[0]}
  {
    assert s == [s[0]] + s[1..];
  }

  /** What is collected from a permutation is a permutation. */
  lemma {:induction false} CollectPermutation<A(!new), B>(f: A -> seq<B>, s: seq<A>, t: seq<A>)
    requires multiset(s) == multiset(t)
    ensures multiset(Collect(f, s)) == multiset(Collect(f, t))
  {
    if s == [] {
      assert |multiset(t)| == 0;
    } else {
      assert s[0] in multiset(t);
      var k :| 0 <= k < |t| && t[k] == s[0];
      WithoutShared(s, t, k);
      CollectPermutation(f, s[1..], t[..k] + t[k + 1..]);
      CollectAround(f, t, k);
      assert Collect(f, s) == f(s[0]) + Collect(f, s[1..]);
    }
  }
}
