/** What an unstable sort leaves open: the order of elements the comparator does not distinguish. */
module Reorder {
  import opened Order

  predicate Tied<A>(less: (A, A) -> bool, a: A, b: A) {
    !less(a, b) && !less(b, a)
  }

  /** What tied elements contribute may be exchanged. */
  ghost predicate Commuting<A(!new), B(!new)>(less: (A, A) -> bool, f: A -> seq<B>, s: seq<A>) {
    forall a, b :: a in s && b in s && Tied(less, a, b) ==> f(a) + f(b) == f(b) + f(a)
  }

  lemma CommuteStep<B>(g: seq<B>, h: seq<B>, rest: seq<B>)
    requires rest + g == g + rest && h + g == g + h
    ensures h + rest + g == g + (h + rest)
  {
    assert h + rest + g == h + (rest + g);
    assert h + (g + rest) == h + g + rest;
    assert g + (h + rest) == g + h + rest;
  }

  lemma {:induction false} CollectCommute<A, B>(f: A -> seq<B>, g: seq<B>, xs: seq<A>)
    requires forall x :: x in xs ==> f(x) + g == g + f(x)
    ensures Collect(f, xs) + g == g + Collect(f, xs)
  {
    if xs != [] {
      CollectCommute(f, g, xs[1..]);
      CommuteStep(g, f(xs[0]), Collect(f, xs[1..]));
    }
  }

  lemma MoveToFront<B>(p: seq<B>, g: seq<B>, q: seq<B>)
    requires p + g == g + p
    ensures p + g + q == g + (p + q)
  {
    assert g + p + q == g + (p + q);
  }

  /** What stands before an occurrence of a least element is tied with it. */
  lemma BeforeLeast<A(!new)>(less: (A, A) -> bool, s: seq<A>, t: seq<A>, k: nat, x: A)
    requires s != [] && WeakOrder(less) && Sorted(less, s) && Sorted(less, t) && multiset(s) == multiset(t)
    requires k < |t| && t[k] == s[0] && x in t[..k]
    ensures x in s && Tied(less, x, s[0])
  {
    var j :| 0 <= j < k && t[j] == x;
    assert t[j] in multiset(t);
    var i :| 0 <= i < |s| && s[i] == x;
  }

  lemma CommutingTail<A(!new), B(!new)>(less: (A, A) -> bool, f: A -> seq<B>, s: seq<A>)
    requires s != [] && Commuting(less, f, s)
    ensures Commuting(less, f, s[1..])
  {
    assert forall a :: a in s[1..] ==> a in s;
  }

  lemma RemovedSorted<A(!new)>(less: (A, A) -> bool, t: seq<A>, k: nat)
    requires k < |t| && Sorted(less, t)
    ensures Sorted(less, t[..k] + t[k + 1..])
  {
    var r := t[..k] + t[k + 1..];
    forall i, j | 0 <= i < j < |r| ensures !less(r[j], r[i]) {
      assert r[i] == t[if i < k then i else i + 1] && r[j] == t[if j < k then j else j + 1];
    }
  }

  /** Then all sorted orders contribute alike. */
  lemma {:induction false} CommutingCollect<A(!new), B(!new)>(less: (A, A) -> bool, f: A -> seq<B>, s: seq<A>, t: seq<A>)
    requires WeakOrder(less) && Sorted(less, s) && Sorted(less, t) && multiset(s) == multiset(t) && Commuting(less, f, s)
    ensures Collect(f, s) == Collect(f, t)
  {
    if s == [] {
      assert |multiset(t)| == 0;
    } else {
      var a, g := s[0], f(s[0]);
      assert a in multiset(t);
      var k :| 0 <= k < |t| && t[k] == a;
      WithoutShared(s, t, k);
      CommutingTail(less, f, s);
      RemovedSorted(less, t, k);
      CommutingCollect(less, f, s[1..], t[..k] + t[k + 1..]);
      CollectAround(f, t, k);
      FrontCommutes(less, f, s, t, k);
      MoveToFront(Collect(f, t[..k]), g, Collect(f, t[k + 1..]));
    }
  }

  lemma FrontCommutes<A(!new), B(!new)>(less: (A, A) -> bool, f: A -> seq<B>, s: seq<A>, t: seq<A>, k: nat)
    requires s != [] && WeakOrder(less) && Sorted(less, s) && Sorted(less, t) && multiset(s) == multiset(t) && Commuting(less, f, s)
    requires k < |t| && t[k] == s[0]
    ensures Collect(f, t[..k]) + f(s[0]) == f(s[0]) + Collect(f, t[..k])
  {
    forall x | x in t[..k] ensures f(x) + f(s[0]) == f(s[0]) + f(x) {
      BeforeLeast(less, s, t, k, x);
    }
    CollectCommute(f, f(s[0]), t[..k]);
  }

  // ---- Bringing an element to the front of those it is tied with -----------------------------------------------------------

  /** The j-th element moved up to position i. */
  function Promoted<A>(s: seq<A>, i: nat, j: nat): seq<A>
    requires i <= j < |s|
  {
    s[..i] + [s[j]] + s[i..j] + s[j + 1..]
  }

  lemma PromotedAt<A>(s: seq<A>, i: nat, j: nat, k: nat)
    requires i <= j < |s| && k < |s|
    ensures |Promoted(s, i, j)| == |s|
    ensures Promoted(s, i, j)[k] == s[if k < i || k > j then k else if k == i then j else k - 1]
  {
  }

  lemma PromotedPermutes<A>(s: seq<A>, i: nat, j: nat)
    requires i <= j < |s|
    ensures multiset(Promoted(s, i, j)) == multiset(s)
  {
    assert s == s[..i] + (s[i..j] + [s[j]]) + s[j + 1..];
    assert Promoted(s, i, j) == s[..i] + ([s[j]] + s[i..j]) + s[j + 1..];
  }

  lemma PromotedSorted<A(!new)>(less: (A, A) -> bool, s: seq<A>, i: nat, j: nat)
    requires WeakOrder(less) && Sorted(less, s) && i <= j < |s| && !less(s[i], s[j])
    ensures Sorted(less, Promoted(s, i, j))
  {
    var t := Promoted(s, i, j);
    forall a, b | 0 <= a < b < |t| ensures !less(t[b], t[a]) {
      PromotedAt(s, i, j, a);
      PromotedAt(s, i, j, b);
      if a == i && i < b <= j {
        BetweenTied(less, s, i, j, b - 1);
      }
    }
  }

  lemma BetweenTied<A(!new)>(less: (A, A) -> bool, s: seq<A>, i: nat, j: nat, k: nat)
    requires WeakOrder(less) && Sorted(less, s) && i <= k <= j < |s| && !less(s[i], s[j])
    ensures Tied(less, s[k], s[j])
  {
    assert i < k ==> !less(s[k], s[i]);
    assert k < j ==> !less(s[j], s[k]);
  }

  /** Where the elements tied with the j-th begin. */
  lemma {:induction false} TieStart<A(!new)>(less: (A, A) -> bool, s: seq<A>, j: nat, from: nat) returns (i: nat)
    requires WeakOrder(less) && from <= j < |s| && !less(s[from], s[j])
    ensures i <= from && !less(s[i], s[j]) && forall h :: 0 <= h < i ==> less(s[h], s[j])
    decreases from
  {
    if h :| 0 <= h < from && !less(s[h], s[j]) {
      i := TieStart(less, s, j, h);
    } else {
      i := from;
    }
  }

  lemma MiddleSame<B>(before: seq<B>, x: seq<B>, y: seq<B>, after: seq<B>)
    requires before + x + after == before + y + after
    ensures x == y
  {
    var s := before + x + after;
    assert |x| == |y|;
    assert s[|before|..|before| + |x|] == x && (before + y + after)[|before|..|before| + |y|] == y;
  }
}
