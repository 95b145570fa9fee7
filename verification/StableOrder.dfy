/** The stable order of a sequence, as `Array.prototype.sort` produces it for a comparison
    that is a total preorder. */
module StableOrder {

  ghost predicate TotalPreorder<T(!new)>(le: (T, T) -> bool) {
    && (forall a, b :: le(a, b) || le(b, a))
    && (forall a, b, c :: le(a, b) && le(b, c) ==> le(a, c))
  }

  /** Index i comes before index j: a smaller element, or an equal one that stood first. */
  predicate Before<T>(s: seq<T>, le: (T, T) -> bool, i: nat, j: nat)
    requires i < |s| && j < |s|
  {
    le(s[i], s[j]) && (le(s[j], s[i]) ==> i < j)
  }

  predicate Indices(p: seq<nat>, n: nat) {
    forall k :: 0 <= k < |p| ==> p[k] < n
  }

  /** Puts index x before the first index whose element is greater than that of x. */
  function Place<T>(s: seq<T>, le: (T, T) -> bool, p: seq<nat>, x: nat): (q: seq<nat>)
    requires Indices(p, |s|) && x < |s|
    ensures |q| == |p| + 1 && Indices(q, |s|)
    ensures multiset(q) == multiset(p) + multiset{x}
  {
    if p == [] then [x]
    else if le(s[p[0]], s[x]) then
      assert p == [p[0]] + p[1..];
      [p[0]] + Place(s, le, p[1..], x)
    else [x] + p
  }

  /** The first n indices in stable order. */
  function Order<T>(s: seq<T>, le: (T, T) -> bool, n: nat): (p: seq<nat>)
    requires n <= |s|
    ensures |p| == n && Indices(p, |s|)
  {
    if n == 0 then [] else Place(s, le, Order(s, le, n - 1), n - 1)
  }

  function Sorted<T>(s: seq<T>, le: (T, T) -> bool): (r: seq<T>)
    ensures |r| == |s|
  {
    var p := Order(s, le, |s|);
    seq(|s|, k requires 0 <= k < |s| => s[p[k]])
  }

  function Upto(n: nat): (p: seq<nat>)
    ensures |p| == n
    ensures forall k :: 0 <= k < n ==> p[k] == k
  {
    seq(n, k requires 0 <= k < n => k)
  }

  ghost predicate Ordered<T>(s: seq<T>, le: (T, T) -> bool, p: seq<nat>)
    requires Indices(p, |s|)
  {
    forall k, l :: 0 <= k < l < |p| ==> Before(s, le, p[k], p[l])
  }

  /** p arranges all indices of s, each one before the next. */
  ghost predicate IsStableOrder<T>(s: seq<T>, le: (T, T) -> bool, p: seq<nat>, n: nat) {
    && Indices(p, |s|)
    && multiset(p) == multiset(Upto(n))
    && Ordered(s, le, p)
  }

  lemma UptoSnoc(n: nat)
    ensures multiset(Upto(n + 1)) == multiset(Upto(n)) + multiset{n}
  {
    assert Upto(n + 1) == Upto(n) + [n];
  }

  lemma ConsOrdered<T>(s: seq<T>, le: (T, T) -> bool, x: nat, p: seq<nat>)
    requires x < |s| && Indices(p, |s|) && Ordered(s, le, p)
    requires forall l :: 0 <= l < |p| ==> Before(s, le, x, p[l])
    ensures Indices([x] + p, |s|) && Ordered(s, le, [x] + p)
  {
  }

  lemma {:induction false} PlaceKeepsOrder<T(!new)>(s: seq<T>, le: (T, T) -> bool, p: seq<nat>, x: nat)
    requires TotalPreorder(le)
    requires Indices(p, |s|) && x < |s|
    requires forall k :: 0 <= k < |p| ==> p[k] < x
    requires Ordered(s, le, p)
    ensures Ordered(s, le, Place(s, le, p, x))
  {
    if p != [] {
      if le(s[p[0]], s[x]) {
        var rest := Place(s, le, p[1..], x);
        PlaceKeepsOrder(s, le, p[1..], x);
        forall l | 0 <= l < |rest| ensures Before(s, le, p[0], rest[l]) {
          assert rest[l] in multiset(rest);
          if rest[l] != x {
            assert rest[l] in p[1..];
          }
        }
        ConsOrdered(s, le, p[0], rest);
      } else {
        forall l | 0 <= l < |p| ensures Before(s, le, x, p[l]) {
          assert le(s[x], s[p[0]]);
          if l > 0 {
            assert Before(s, le, p[0], p[l]);
          }
        }
        ConsOrdered(s, le, x, p);
      }
    }
  }

  lemma {:induction false} OrderArranges<T>(s: seq<T>, le: (T, T) -> bool, n: nat)
    requires n <= |s|
    ensures multiset(Order(s, le, n)) == multiset(Upto(n))
    ensures forall k :: 0 <= k < n ==> Order(s, le, n)[k] < n
    decreases n
  {
    if n > 0 {
      OrderArranges(s, le, n - 1);
      UptoSnoc(n - 1);
    }
    ArrangedBelow(Order(s, le, n), n);
  }

  lemma ArrangedBelow(p: seq<nat>, n: nat)
    requires multiset(p) == multiset(Upto(n))
    ensures forall k :: 0 <= k < |p| ==> p[k] < n
  {
    forall k | 0 <= k < |p| ensures p[k] < n {
      assert p[k] in multiset(p);
      assert p[k] in Upto(n);
    }
  }

  lemma {:induction false} OrderOrdered<T(!new)>(s: seq<T>, le: (T, T) -> bool, n: nat)
    requires TotalPreorder(le) && n <= |s|
    ensures Ordered(s, le, Order(s, le, n))
    decreases n
  {
    if n > 0 {
      OrderOrdered(s, le, n - 1);
      OrderArranges(s, le, n - 1);
      PlaceKeepsOrder(s, le, Order(s, le, n - 1), n - 1);
    }
  }

  lemma OrderIsStable<T(!new)>(s: seq<T>, le: (T, T) -> bool, n: nat)
    requires TotalPreorder(le) && n <= |s|
    ensures IsStableOrder(s, le, Order(s, le, n), n)
  {
    OrderArranges(s, le, n);
    OrderOrdered(s, le, n);
  }

  /** A stable order is unique, so it does not matter which algorithm finds it. */
  lemma {:induction false} StableOrderUnique<T(!new)>(s: seq<T>, le: (T, T) -> bool, p: seq<nat>, q: seq<nat>, n: nat)
    requires IsStableOrder(s, le, p, n) && IsStableOrder(s, le, q, n)
    ensures p == q
  {
    assert |multiset(p)| == |p| && |multiset(q)| == |q|;
    if p != q {
      var k := FirstDifference(p, q);
      SameRest(p, q, k);
      BeforeTheRest(s, le, p, k, q[k]);
      BeforeTheRest(s, le, q, k, p[k]);
    }
  }

  lemma BeforeTheRest<T>(s: seq<T>, le: (T, T) -> bool, p: seq<nat>, k: nat, x: nat)
    requires Indices(p, |s|) && Ordered(s, le, p)
    requires k < |p| && x in p[k..] && x != p[k]
    ensures x < |s| && Before(s, le, p[k], x)
  {
  }

  lemma {:induction false} FirstDifference<T>(p: seq<T>, q: seq<T>) returns (k: nat)
    requires |p| == |q| && p != q
    ensures k < |p| && p[k] != q[k] && p[..k] == q[..k]
    decreases |p|
  {
    var n := |p| - 1;
    if p[..n] != q[..n] {
      k := FirstDifference(p[..n], q[..n]);
      assert p[..n][..k] == p[..k] && q[..n][..k] == q[..k];
    } else {
      assert p == p[..n] + [p[n]] && q == q[..n] + [q[n]];
      k := n;
    }
  }

  lemma SplitMultiset(p: seq<nat>, k: nat)
    requires k <= |p|
    ensures multiset(p[k..]) == multiset(p) - multiset(p[..k])
  {
    assert p == p[..k] + p[k..];
    assert multiset(p) == multiset(p[..k]) + multiset(p[k..]);
  }

  lemma SameRest(p: seq<nat>, q: seq<nat>, k: nat)
    requires |p| == |q| && k < |p|
    requires multiset(p) == multiset(q) && p[..k] == q[..k]
    ensures multiset(p[k..]) == multiset(q[k..])
    ensures p[k] in q[k..] && q[k] in p[k..]
  {
    SplitMultiset(p, k);
    SplitMultiset(q, k);
    assert p[k] == p[k..][0] && q[k] == q[k..][0];
    assert p[k] in multiset(p[k..]) && q[k] in multiset(q[k..]);
  }

  /** The sorted sequence holds the same elements, in stable order. */
  lemma SortedIsStable<T(!new)>(s: seq<T>, le: (T, T) -> bool)
    requires TotalPreorder(le)
    ensures
      var p := Order(s, le, |s|);
      && IsStableOrder(s, le, p, |s|)
      && forall k, l :: 0 <= k < l < |s| ==> le(Sorted(s, le)[k], Sorted(s, le)[l])
    ensures forall q :: IsStableOrder(s, le, q, |s|) ==> q == Order(s, le, |s|)
  {
    var p := Order(s, le, |s|);
    OrderIsStable(s, le, |s|);
    forall k, l | 0 <= k < l < |s| ensures le(Sorted(s, le)[k], Sorted(s, le)[l]) {
      assert Before(s, le, p[k], p[l]);
    }
    forall q | IsStableOrder(s, le, q, |s|) ensures q == p {
      StableOrderUnique(s, le, q, p, |s|);
    }
  }

  /** The first m of the stable order: different indices, each before the later ones and before
      every index that is not among them. */
  lemma FirstOfOrder<T(!new)>(s: seq<T>, le: (T, T) -> bool, m: nat) returns (p: seq<nat>)
    requires TotalPreorder(le) && m <= |s|
    ensures |p| == m && p <= Order(s, le, |s|)
    ensures forall k, l :: 0 <= k < l < m ==> Before(s, le, p[k], p[l]) && p[k] != p[l]
    ensures forall k, i :: 0 <= k < m && 0 <= i < |s| && i !in p ==> Before(s, le, p[k], i)
  {
    var all := Order(s, le, |s|);
    p := all[..m];
    SortedIsStable(s, le);
    forall k, l | 0 <= k < l < m ensures Before(s, le, all[k], all[l]) && all[k] != all[l] {
      assert le(s[all[k]], s[all[k]]);
    }
    forall k, i | 0 <= k < m && 0 <= i < |s| && i !in all[..m] ensures Before(s, le, all[k], i) {
      var l := PlaceOf(s, le, i);
      assert forall n :: 0 <= n < m ==> all[..m][n] == all[n];
      assert l >= m;
    }
  }

  lemma PlaceOf<T(!new)>(s: seq<T>, le: (T, T) -> bool, i: nat) returns (l: nat)
    requires TotalPreorder(le) && i < |s|
    ensures l < |s| && Order(s, le, |s|)[l] == i
  {
    var p := Order(s, le, |s|);
    SortedIsStable(s, le);
    assert Upto(|s|)[i] == i;
    assert i in multiset(p);
    l :| 0 <= l < |s| && p[l] == i;
  }
}
