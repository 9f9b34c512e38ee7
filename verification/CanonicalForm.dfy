/** The keys that are stored determine the whole trie; the branching points are fewer than they are. */
module CanonicalForm {
  import opened BitStrings
  import opened KeySets
  import opened TrieValues

  ghost predicate WellFormed(t: Trie) {
    Formed(t) && Full(t, {})
  }

  // ---- which keys a trie has ----

  // k is where two stored keys part
  ghost predicate Parting(S: set<Key>, k: Key) {
    exists a, b | a in S && b in S :: Dir(k, false, a) && Dir(k, true, b)
  }

  // below every node there is a stored key
  lemma {:induction false} StoredBelow(t: Trie, k: Key) returns (s: Key)
    requires WellFormed(t) && k in t.cells
    ensures s in t.stored && Covers(k, s)
    decreases |Sub(t.cells.Keys, k)|
  {
    if k in t.stored { return k; }
    assert Proper(t, k);
    var l := t.cells[k].l.k;
    SubSmaller(t.cells.Keys, k, l);
    s := StoredBelow(t, l);
  }

  ghost function Sub(K: set<Key>, k: Key): set<Key> {
    set m | m in K && Covers(k, m)
  }

  lemma SubSmaller(K: set<Key>, k: Key, c: Key)
    requires k in K && Over(k, c)
    ensures |Sub(K, c)| < |Sub(K, k)|
  {
    assert Sub(K, c) <= Sub(K, k) - {k};
    Smaller(Sub(K, c), Sub(K, k) - {k});
  }

  lemma {:induction false} Smaller<T>(a: set<T>, b: set<T>)
    requires a <= b
    ensures |a| <= |b|
  {
    if a != {} {
      var x :| x in a;
      Smaller(a - {x}, b - {x});
    }
  }

  lemma BranchParts(t: Trie, k: Key)
    requires WellFormed(t) && k in t.cells && k !in t.stored
    ensures Parting(t.stored, k)
  {
    assert Proper(t, k);
    var a := StoredBelow(t, t.cells[k].l.k);
    var b := StoredBelow(t, t.cells[k].r.k);
    assert Dir(k, false, a) && Dir(k, true, b);
  }

  // where two keys part there is a node: climb from c, which is on the left of k, to k itself
  lemma {:induction false} PartingNode(t: Trie, k: Key, c: Key, b: Key)
    requires Formed(t) && c in t.cells && b in t.cells && Dir(k, false, c) && Dir(k, true, b)
    ensures k in t.cells
    decreases |c.s|
  {
    assert Proper(t, c);
    var K, up := t.cells.Keys, t.cells[c].up;
    assert up == Nil ==> Covers(c, b);
    assert !Covers(c, b);
    var p := up.k;
    assert Proper(t, p);
    if |p.s| > |k.s| {
      PartingNode(t, k, p, b);
    } else if |p.s| == |k.s| {
      SameLength(p, k);
    } else {
      var side := k.s[|p.s|];
      Mirror(K, p, side, if side then t.cells[p].r else t.cells[p].l, c, up);
      assert Dir(p, side, c) && Dir(p, side, b);
    }
  }

  // the nodes are the stored keys and the points where two of them part
  lemma KeysDetermined(t: Trie, k: Key)
    requires WellFormed(t)
    ensures k in t.cells <==> k in t.stored || Parting(t.stored, k)
  {
    if k in t.cells && k !in t.stored { BranchParts(t, k); }
    if Parting(t.stored, k) {
      var a, b :| a in t.stored && b in t.stored && Dir(k, false, a) && Dir(k, true, b);
      PartingNode(t, k, a, b);
    }
  }

  // ---- the links follow from the keys ----

  lemma LinkUnique(K: set<Key>, k: Key, b: bool, c: Link, d: Link)
    requires LinkOk(K, k, b, c) && LinkOk(K, k, b, d)
    ensures c == d
  {
    if c.To? && d.To? { CoverBoth(c.k, d.k); }
  }

  lemma CoverBoth(a: Key, b: Key)
    ensures Covers(a, b) && Covers(b, a) ==> a == b
  {
  }

  lemma UpUnique(K: set<Key>, k: Key, p: Link, q: Link)
    requires k in K && UpOk(K, k, p) && UpOk(K, k, q)
    ensures p == q
  {
    if p.To? && q.To? { CoverBoth(p.k, q.k); }
  }

  lemma HeadUnique(K: set<Key>, h: Link, g: Link)
    requires HeadOk(K, h) && HeadOk(K, g)
    ensures h == g
  {
    if h.To? && g.To? { CoverBoth(h.k, g.k); }
  }

  /** Two well-formed tries with the same stored keys are the same: nodes, bit positions, links and all. */
  lemma Canonical(t: Trie, u: Trie)
    requires WellFormed(t) && WellFormed(u) && t.stored == u.stored
    ensures t == u
  {
    forall k ensures k in t.cells <==> k in u.cells {
      KeysDetermined(t, k);
      KeysDetermined(u, k);
    }
    var K := t.cells.Keys;
    assert K == u.cells.Keys;
    forall k | k in K ensures t.cells[k] == u.cells[k] {
      assert Proper(t, k) && Proper(u, k);
      LinkUnique(K, k, false, t.cells[k].l, u.cells[k].l);
      LinkUnique(K, k, true, t.cells[k].r, u.cells[k].r);
      UpUnique(K, k, t.cells[k].up, u.cells[k].up);
    }
    HeadUnique(K, t.head, u.head);
    assert t.cells == u.cells;
  }

  // ---- how many nodes there are ----

  lemma {:induction false} CountBelow(t: Trie, k: Key)
    requires WellFormed(t) && k in t.cells
    ensures |Sub(t.cells.Keys, k)| <= 2 * |Sub(t.stored, k)| - 1
    decreases |Sub(t.cells.Keys, k)|
  {
    var K, S, c := t.cells.Keys, t.stored, t.cells[k];
    assert Proper(t, k);
    SubSplit(K, k, c.l, c.r, K);
    SubSplit(S, k, c.l, c.r, K);
    if c.l.To? { SubSmaller(K, k, c.l.k); CountBelow(t, c.l.k); }
    if c.r.To? { SubSmaller(K, k, c.r.k); CountBelow(t, c.r.k); }
  }

  ghost function SubAt(K: set<Key>, l: Link): set<Key> {
    if l == Nil then {} else Sub(K, l.k)
  }

  // what is below k is k itself and what is below its children
  lemma SubParts(A: set<Key>, k: Key, l: Link, r: Link, K: set<Key>, m: Key)
    requires A <= K && k in K && LinkOk(K, k, false, l) && LinkOk(K, k, true, r)
    ensures m in Sub(A, k) <==> m in SubAt(A, l) || m in SubAt(A, r) || (m == k && m in A)
    ensures !(m in SubAt(A, l) && m in SubAt(A, r)) && (m == k ==> m !in SubAt(A, l) && m !in SubAt(A, r))
  {
    if m in Sub(A, k) && m != k {
      if |m.s| == |k.s| { SameLength(k, m); }
      assert Dir(k, m.s[|k.s|], m);
    }
  }

  lemma Disjoint3(a: set<Key>, b: set<Key>, c: set<Key>, all: set<Key>)
    requires forall m :: m in all <==> m in a || m in b || m in c
    requires forall m :: !(m in a && m in b) && !(m in a && m in c) && !(m in b && m in c)
    ensures |all| == |a| + |b| + |c|
  {
    assert all == a + b + c;
    assert (a + b) * c == {} && a * b == {};
    assert |a + b| == |a| + |b|;
  }

  lemma SubSplit(A: set<Key>, k: Key, l: Link, r: Link, K: set<Key>)
    requires A <= K && k in K && LinkOk(K, k, false, l) && LinkOk(K, k, true, r)
    ensures |Sub(A, k)| == (if k in A then 1 else 0) + |SubAt(A, l)| + |SubAt(A, r)|
  {
    var own := if k in A then {k} else {};
    forall m
      ensures m in Sub(A, k) <==> m in own || m in SubAt(A, l) || m in SubAt(A, r)
      ensures m in own ==> m !in SubAt(A, l) && m !in SubAt(A, r)
      ensures !(m in SubAt(A, l) && m in SubAt(A, r))
    {
      SubParts(A, k, l, r, K, m);
    }
    Disjoint3(own, SubAt(A, l), SubAt(A, r), Sub(A, k));
  }

  /** A trie has fewer than twice as many nodes as stored keys. */
  lemma NodeBound(t: Trie)
    requires WellFormed(t)
    ensures t.stored == {} <==> t.cells.Keys == {}
    ensures t.stored != {} ==> |t.cells.Keys| <= 2 * |t.stored| - 1
  {
    if t.head.To? {
      var h := t.head.k;
      CountBelow(t, h);
      assert Sub(t.cells.Keys, h) == t.cells.Keys && Sub(t.stored, h) == t.stored;
      var s := StoredBelow(t, h);
    }
  }
}
