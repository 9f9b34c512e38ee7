/** What the pointers of a node must be, said of the set of node keys alone. */
module KeySets {
  import opened BitStrings

  // c is the nearest key below k on side b
  ghost predicate IsChild(K: set<Key>, k: Key, b: bool, c: Key) {
    c in K && Dir(k, b, c) && forall m {:trigger Dir(k, b, m)} | m in K && Dir(k, b, m) :: Covers(c, m)
  }
  ghost predicate NoChild(K: set<Key>, k: Key, b: bool) {
    forall m {:trigger Dir(k, b, m)} | m in K :: !Dir(k, b, m)
  }
  // p is the nearest key above k
  ghost predicate IsParent(K: set<Key>, k: Key, p: Key) {
    p in K && Over(p, k) && forall m | m in K && Over(m, k) :: Covers(m, p)
  }
  ghost predicate IsRoot(K: set<Key>, k: Key) {
    k in K && forall m | m in K :: Covers(k, m)
  }

  // A new key x goes into the free slot b of p.
  ghost predicate FreeSlot(K: set<Key>, p: Key, b: bool, x: Key) {
    p in K && x !in K && Dir(p, b, x) && NoChild(K, p, b)
  }

  lemma SlotAbove(K: set<Key>, p: Key, b: bool, x: Key, k: Key)
    requires FreeSlot(K, p, b, x) && k in K
    ensures Over(k, x) <==> Covers(k, p)
    ensures !(Covers(x, k))
  {
    assert !Dir(p, b, k);
    if Over(k, x) && |p.s| == |k.s| { assert k == p; }
  }

  datatype Link = Nil | To(k: Key)

  // A new key y goes into the edge that leads down to c, from a or from the top; c lies on side b of y.
  ghost predicate FreeEdge(K: set<Key>, a: Link, c: Key, b: bool, y: Key) {
    && c in K && y !in K && Dir(y, b, c)
    && match a {
        case Nil => IsRoot(K, c)
        case To(u) => u in K && Over(u, y) && IsChild(K, u, c.s[|u.s|], c)
      }
  }

  lemma EdgeOrder(K: set<Key>, a: Link, c: Key, b: bool, y: Key, k: Key)
    requires FreeEdge(K, a, c, b, y) && k in K
    ensures Over(y, k) <==> Covers(c, k)
    ensures Over(k, y) <==> Over(k, c)
    ensures a.To? ==> (Over(k, y) <==> Covers(k, a.k))
  {
    if a.To? {
      var u := a.k;
      assert Dir(u, c.s[|u.s|], k) ==> Covers(c, k);
      if |u.s| == |k.s| && Over(k, c) { assert k == u; }
    } else {
      assert Covers(c, k);
    }
  }

  // ---- the place of a key ----

  function Take(x: Key, d: nat): Key
    requires d <= |x.s|
  {
    Key(x.s[..d])
  }


  // no key outside the subtree of k shares a longer prefix with x than k does
  ghost predicate Closest(K: set<Key>, x: Key, k: Key) {
    forall m {:trigger Lcp(x, m)} | m in K :: Covers(k, m) || Lcp(x, m) <= Lcp(x, k)
  }

  // no key shares a longer prefix with x than k does
  ghost predicate Nearest(K: set<Key>, x: Key, k: Key) {
    forall m {:trigger Lcp(x, m)} | m in K :: Lcp(x, m) <= Lcp(x, k)
  }

  // the descent step; past the end of x either side will do
  lemma ClosestStep(K: set<Key>, x: Key, k: Key, b: bool, c: Key)
    requires k in K && IsChild(K, k, b, c) && Closest(K, x, k)
    requires |k.s| < |x.s| ==> b == x.s[|k.s|]
    ensures Closest(K, x, c)
  {
    LcpPrefix(x, k, c);
    forall m | m in K ensures Covers(c, m) || Lcp(x, m) <= Lcp(x, c) {
      if Covers(k, m) {
        LcpPrefix(x, k, m);
        LcpFacts(x, k);
        if Lcp(x, k) == |k.s| < |x.s| && !Dir(k, b, m) {
          LcpIs(x, m, |k.s|);
        }
      }
    }
  }

  lemma NearestStop(K: set<Key>, x: Key, k: Key)
    requires k in K && Closest(K, x, k)
    requires |k.s| < |x.s| ==> NoChild(K, k, x.s[|k.s|])
    ensures Nearest(K, x, k)
  {
    forall m | m in K ensures Lcp(x, m) <= Lcp(x, k) {
      if Covers(k, m) {
        LcpPrefix(x, k, m);
        LcpFacts(x, k);
        if Lcp(x, k) == |k.s| < |x.s| {
          assert !Dir(k, x.s[|k.s|], m);
          LcpIs(x, m, |k.s|);
        }
      }
    }
  }

  lemma NearestSlot(K: set<Key>, x: Key, t: Key, c: Key)
    requires Nearest(K, x, t) && c in K && Covers(c, t) && |c.s| == Lcp(x, t) < |x.s|
    ensures FreeSlot(K, c, x.s[|c.s|], x)
  {
    LcpFacts(x, t);
    assert forall j | 0 <= j < |c.s| :: c.s[j] == t.s[j] == x.s[j];
    assert c == Take(x, |c.s|);
    forall m | m in K ensures !Dir(c, x.s[|c.s|], m) && m != x {
      LcpAbove(x, x, |x.s|);
      TooClose(x, m, |c.s|);
    }
  }

  // the edge above c is where y = Take(x, Lcp(x, t)) belongs
  lemma NearestEdge(K: set<Key>, x: Key, t: Key, c: Key, a: Link)
    requires Nearest(K, x, t) && t in K && c in K && Covers(c, t) && Lcp(x, t) < |c.s|
    requires match a {
               case Nil => IsRoot(K, c)
               case To(u) => u in K && Over(u, c) && |u.s| < Lcp(x, t) && IsChild(K, u, c.s[|u.s|], c)
             }
    ensures FreeEdge(K, a, c, t.s[Lcp(x, t)], Take(x, Lcp(x, t)))
    ensures Lcp(x, t) < |x.s| ==> t.s[Lcp(x, t)] == !x.s[Lcp(x, t)]
  {
    var d := Lcp(x, t);
    var y := Take(x, d);
    LcpFacts(x, t);
    assert forall j | 0 <= j < d :: c.s[j] == t.s[j] == x.s[j];
    match a {
      case Nil =>
        assert y in K ==> Covers(c, y);
      case To(u) =>
        assert y in K ==> Dir(u, c.s[|u.s|], y);
    }
  }

  // under the new branching point the side of x is free
  lemma GlueSlot(K: set<Key>, x: Key, t: Key)
    requires Nearest(K, x, t) && Lcp(x, t) < |x.s| && Take(x, Lcp(x, t)) !in K
    ensures FreeSlot(K + {Take(x, Lcp(x, t))}, Take(x, Lcp(x, t)), x.s[Lcp(x, t)], x)
  {
    var d, b := Lcp(x, t), x.s[Lcp(x, t)];
    forall m | m in K ensures !Dir(Take(x, d), b, m) {
      TooClose(x, m, d);
    }
    LcpAbove(x, x, |x.s|);
  }

  lemma TooClose(x: Key, m: Key, d: nat)
    requires d < |x.s| && Lcp(x, m) <= d
    ensures !Dir(Take(x, d), x.s[d], m)
  {
    LcpFacts(x, m);
    assert Covers(Take(x, d), m) ==> forall j | 0 <= j < d :: Take(x, d).s[j] == m.s[j];
  }
}
