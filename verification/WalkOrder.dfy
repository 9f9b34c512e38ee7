/** The order of a walk: what is still to be visited, as the keys of the cursor and of the stack. */
module WalkOrder {
  import opened BitStrings
  import opened CanonicalForm
  import opened KeySets
  import opened TrieValues

  // ---- lexicographic order of bit strings: a prefix before what it covers, 0 before 1 ----

  // a and b part at bit d, a to the left
  ghost predicate Parts(a: Key, b: Key, d: nat) {
    d < |a.s| && d < |b.s| && a.s[..d] == b.s[..d] && !a.s[d] && b.s[d]
  }

  ghost predicate Before(a: Key, b: Key) {
    Over(a, b) || exists d: nat :: Parts(a, b, d)
  }

  lemma BeforeTotal(a: Key, b: Key)
    ensures a == b || Before(a, b) || Before(b, a)
  {
    var d := Lcp(a, b);
    LcpFacts(a, b);
    assert a.s[..d] == b.s[..d];
    if d < |a.s| && d < |b.s| {
      assert if b.s[d] then Parts(a, b, d) else Parts(b, a, d);
    } else {
      assert a.s[..d] == a.s || b.s[..d] == b.s;
    }
  }

  lemma BeforeStrict(a: Key, b: Key)
    requires Before(a, b)
    ensures a != b && !Before(b, a)
  {
    if Before(b, a) {
      if d: nat :| Parts(a, b, d) { NotBoth(a, b, d); } else if d: nat :| Parts(b, a, d) { NotBoth(b, a, d); }
    }
  }

  lemma NotBoth(a: Key, b: Key, d: nat)
    requires Parts(a, b, d)
    ensures !Before(b, a) && !Covers(a, b) && !Covers(b, a)
  {
    forall e: nat ensures !Parts(b, a, e) {
      Clash(a, b, d, e);
    }
  }

  lemma Clash(a: Key, b: Key, d: nat, e: nat)
    requires Parts(a, b, d)
    ensures !Parts(b, a, e)
  {
    if e < d {
      assert a.s[..d][e] == b.s[..d][e];
    } else if d < e < |a.s| && e < |b.s| {
      assert a.s[..e][d] != b.s[..e][d];
    }
  }

  lemma BeforeTrans(a: Key, b: Key, c: Key)
    requires Before(a, b) && Before(b, c)
    ensures Before(a, c)
  {
    if Over(a, b) {
      if Over(b, c) {
        assert Over(a, c);
      } else {
        var e: nat :| Parts(b, c, e);
        PartsAfter(a, b, c, e);
      }
    } else {
      var d: nat :| Parts(a, b, d);
      if Over(b, c) {
        assert c.s[..d] == b.s[..d];
        assert Parts(a, c, d);
      } else {
        var e: nat :| Parts(b, c, e);
        PartsTwice(a, b, c, d, e);
      }
    }
  }

  lemma PartsAfter(a: Key, b: Key, c: Key, e: nat)
    requires Over(a, b) && Parts(b, c, e)
    ensures Before(a, c)
  {
    if e < |a.s| {
      assert a.s[..e] == b.s[..e];
      assert Parts(a, c, e);
    } else {
      assert a.s == b.s[..e][..|a.s|] == c.s[..e][..|a.s|] == c.s[..|a.s|];
    }
  }

  lemma PartsTwice(a: Key, b: Key, c: Key, d: nat, e: nat)
    requires Parts(a, b, d) && Parts(b, c, e)
    ensures Before(a, c)
  {
    var m := if d < e then d else e;
    assert a.s[..m] == a.s[..d][..m] == b.s[..d][..m] == b.s[..m] == b.s[..e][..m] == c.s[..e][..m] == c.s[..m];
    if d < e {
      assert b.s[d] == b.s[..e][d] == c.s[..e][d] == c.s[d];
    } else if e < d {
      assert a.s[e] == a.s[..d][e] == b.s[..d][e] == b.s[e];
    }
    assert Parts(a, c, m);
  }

  // ---- the frontier: the last key is the cursor, the others are on the stack ----

  ghost predicate PartAt(f: seq<Key>, ds: seq<nat>, i: int, j: int)
    requires 0 <= i < j < |f| == |ds|
  {
    Parts(f[j], f[i], ds[i]) && (j < |f| - 1 ==> ds[i] < ds[j])
  }

  ghost predicate Frontier(f: seq<Key>, ds: seq<nat>) {
    |ds| == |f| && forall i, j {:trigger PartAt(f, ds, i, j)} | 0 <= i < j < |f| :: PartAt(f, ds, i, j)
  }

  // k is still to be visited
  ghost predicate Under(f: seq<Key>, k: Key) {
    exists i {:trigger Covers(f[i], k)} | 0 <= i < |f| :: Covers(f[i], k)
  }

  ghost predicate Kids(n: Key, l: Link, r: Link) {
    (l.To? ==> Dir(n, false, l.k)) && (r.To? ==> Dir(n, true, r.k))
  }

  ghost function Front(f: seq<Key>): seq<Key>
    requires f != []
  {
    f[..|f| - 1]
  }

  ghost function Last(f: seq<Key>): Key
    requires f != []
  {
    f[|f| - 1]
  }

  // the children take the place of the cursor, the left one on top
  ghost function Onward(f: seq<Key>, l: Link, r: Link): seq<Key>
    requires f != []
  {
    Front(f) + (if r.To? then [r.k] else []) + (if l.To? then [l.k] else [])
  }

  ghost function Depths(f: seq<Key>, ds: seq<nat>, l: Link, r: Link): seq<nat>
    requires f != [] && |ds| == |f|
  {
    ds[..|f| - 1] + (if r.To? then [|Last(f).s|] else []) + (if l.To? then [0] else [])
  }

  lemma PartsBelow(a: Key, b: Key, c: Key, d: nat)
    requires Parts(a, b, d) && Covers(a, c)
    ensures Parts(c, b, d)
  {
    assert c.s[..d] == a.s[..d];
  }

  lemma DirParts(n: Key, l: Key, r: Key)
    requires Dir(n, false, l) && Dir(n, true, r)
    ensures Parts(l, r, |n.s|)
  {
  }

  lemma NextFrontier(f: seq<Key>, ds: seq<nat>, l: Link, r: Link)
    requires f != [] && Frontier(f, ds) && Kids(Last(f), l, r)
    ensures Frontier(Onward(f, l, r), Depths(f, ds, l, r))
  {
    var n, c, g, es := |f| - 1, Last(f), Onward(f, l, r), Depths(f, ds, l, r);
    if l.To? && r.To? { DirParts(c, l.k, r.k); }
    forall i, j | 0 <= i < j < |g| ensures PartAt(g, es, i, j) {
      if i < n {
        assert PartAt(f, ds, i, n);
        if j < n { assert PartAt(f, ds, i, j); }
        if l.To? { PartsBelow(c, f[i], l.k, ds[i]); }
        if r.To? { PartsBelow(c, f[i], r.k, ds[i]); }
      }
    }
  }

  lemma FrontFrontier(f: seq<Key>, ds: seq<nat>)
    requires f != [] && Frontier(f, ds)
    ensures Frontier(Front(f), ds[..|f| - 1])
  {
    var g, es := Front(f), ds[..|f| - 1];
    forall i, j | 0 <= i < j < |g| ensures PartAt(g, es, i, j) {
      assert PartAt(f, ds, i, j);
    }
  }

  // never more entries on the stack than the cursor has bits
  lemma {:induction false} StackBound(f: seq<Key>, ds: seq<nat>, i: nat)
    requires f != [] && Frontier(f, ds) && i < |f| && (0 < i ==> i - 1 <= ds[i - 1])
    ensures |f| - 1 <= |Last(f).s|
    decreases |f| - i
  {
    if i < |f| - 1 {
      assert i > 0 ==> PartAt(f, ds, i - 1, i);
      StackBound(f, ds, i + 1);
    } else if i > 0 {
      assert PartAt(f, ds, i - 1, i);
    }
  }

  // nothing on the stack is related to the cursor
  lemma CursorApart(f: seq<Key>, ds: seq<nat>, i: nat)
    requires f != [] && Frontier(f, ds) && i < |f| - 1
    ensures !Covers(f[i], Last(f)) && !Covers(Last(f), f[i])
    ensures forall k | Covers(Last(f), k) :: !Covers(f[i], k)
  {
    var c := Last(f);
    assert PartAt(f, ds, i, |f| - 1);
    NotBoth(c, f[i], ds[i]);
    forall k | Covers(c, k) ensures !Covers(f[i], k) {
      PartsBelow(c, f[i], k, ds[i]);
      NotBoth(k, f[i], ds[i]);
    }
  }

  // the cursor comes before everything else that is still to be visited
  lemma CursorFirst(f: seq<Key>, ds: seq<nat>, k: Key)
    requires f != [] && Frontier(f, ds) && Under(f, k)
    ensures k == Last(f) || Before(Last(f), k)
  {
    var c := Last(f);
    var i :| 0 <= i < |f| && Covers(f[i], k);
    if i < |f| - 1 {
      assert PartAt(f, ds, i, |f| - 1);
      assert k.s[..ds[i]] == f[i].s[..ds[i]];
      assert Parts(c, k, ds[i]);
    } else if |k.s| == |c.s| {
      SameLength(c, k);
    }
  }

  // a skip leaves the subtree of the cursor out, and nothing else
  lemma SkipUnder(f: seq<Key>, ds: seq<nat>, k: Key)
    requires f != [] && Frontier(f, ds)
    ensures Under(Front(f), k) <==> Under(f, k) && !Covers(Last(f), k)
  {
    if Under(f, k) {
      var i :| 0 <= i < |f| && Covers(f[i], k);
      if i < |f| - 1 {
        assert Front(f)[i] == f[i];
        if Covers(Last(f), k) { CursorApart(f, ds, i); }
      }
    }
    if Under(Front(f), k) {
      var i :| 0 <= i < |f| - 1 && Covers(Front(f)[i], k);
      assert Covers(f[i], k);
      if Covers(Last(f), k) { CursorApart(f, ds, i); }
    }
  }

  // a step leaves the cursor out, and nothing else
  lemma NextUnder(K: set<Key>, f: seq<Key>, ds: seq<nat>, l: Link, r: Link, k: Key)
    requires f != [] && Frontier(f, ds) && k in K && Last(f) in K
    requires LinkOk(K, Last(f), false, l) && LinkOk(K, Last(f), true, r)
    ensures Under(Onward(f, l, r), k) <==> Under(f, k) && k != Last(f)
  {
    var c, g := Last(f), Onward(f, l, r);
    SkipUnder(f, ds, k);
    NextParts(f, l, r, k);
    if Covers(c, k) && k != c {
      if |k.s| == |c.s| { SameLength(c, k); }
      assert Dir(c, k.s[|c.s|], k);
    }
  }

  lemma NextParts(f: seq<Key>, l: Link, r: Link, k: Key)
    requires f != []
    ensures Under(Onward(f, l, r), k) <==> Under(Front(f), k) || (l.To? && Covers(l.k, k)) || (r.To? && Covers(r.k, k))
  {
    var g := Onward(f, l, r);
    if i :| 0 <= i < |f| - 1 && Covers(Front(f)[i], k) {
      assert g[i] == f[i];
    }
    if r.To? { assert g[|f| - 1] == r.k; }
    if l.To? { assert g[|g| - 1] == l.k; }
    if i :| 0 <= i < |g| && Covers(g[i], k) {
      if i < |f| - 1 { assert Front(f)[i] == g[i]; }
    }
  }

  // ---- what a walk has visited ----

  // k is in a subtree that the walk was told to leave out
  ghost predicate Hidden(S: set<Key>, cut: set<Key>, k: Key) {
    exists p | p in S && p in cut :: Over(p, k)
  }

  ghost predicate Ascending(keys: seq<Key>) {
    forall i, j | 0 <= i < j < |keys| :: Before(keys[i], keys[j])
  }

  // the keys visited are those not hidden and not under the frontier, in order and all before the frontier
  ghost predicate Visited(S: set<Key>, cut: set<Key>, f: seq<Key>, keys: seq<Key>) {
    && (forall k | k in keys :: k in S)
    && (forall k | k in S :: k in keys <==> !Under(f, k) && !Hidden(S, cut, k))
    && Ascending(keys)
    && (forall i, k | 0 <= i < |keys| && Under(f, k) :: Before(keys[i], k))
    && (forall p, k | p in S && p in cut && Over(p, k) && Under(f, k) :: Under(f, p))
  }

  // nothing pending is hidden by what is not: a cursor is never hidden
  lemma CursorShown(S: set<Key>, cut: set<Key>, f: seq<Key>, ds: seq<nat>, keys: seq<Key>)
    requires f != [] && Frontier(f, ds) && Visited(S, cut, f, keys)
    ensures !Hidden(S, cut, Last(f))
  {
    var c := Last(f);
    forall p | p in S && p in cut ensures !Over(p, c) {
      if Over(p, c) {
        SelfUnder(f);
        CursorFirst(f, ds, p);
        BeforeStrict(p, c);
      }
    }
  }

  lemma SelfUnder(f: seq<Key>)
    requires f != []
    ensures Under(f, Last(f))
  {
    assert Covers(f[|f| - 1], Last(f));
  }

  lemma VisitStep(K: set<Key>, S: set<Key>, cut: set<Key>, f: seq<Key>, ds: seq<nat>, l: Link, r: Link, keys: seq<Key>)
    requires f != [] && Frontier(f, ds) && Visited(S, cut, f, keys) && S <= K && Last(f) in K && Last(f) !in cut
    requires LinkOk(K, Last(f), false, l) && LinkOk(K, Last(f), true, r)
    ensures Visited(S, cut, Onward(f, l, r), if Last(f) in S then keys + [Last(f)] else keys)
  {
    var c, g := Last(f), Onward(f, l, r);
    CursorShown(S, cut, f, ds, keys);
    SelfUnder(f);
    forall k | k in S ensures Under(g, k) <==> Under(f, k) && k != c {
      NextUnder(K, f, ds, l, r, k);
    }
    forall k | Under(g, k) ensures Under(f, k) && Before(c, k) {
      NextLater(K, f, ds, l, r, k);
    }
  }

  lemma NextLater(K: set<Key>, f: seq<Key>, ds: seq<nat>, l: Link, r: Link, k: Key)
    requires f != [] && Frontier(f, ds) && Under(Onward(f, l, r), k)
    requires LinkOk(K, Last(f), false, l) && LinkOk(K, Last(f), true, r)
    ensures Under(f, k) && Before(Last(f), k)
  {
    NextParts(f, l, r, k);
    SkipUnder(f, ds, k);
    if !Under(Front(f), k) {
      assert Covers(f[|f| - 1], k);
    } else {
      CursorFirst(f, ds, k);
    }
  }

  lemma VisitSkip(S: set<Key>, cut: set<Key>, f: seq<Key>, ds: seq<nat>, keys: seq<Key>)
    requires f != [] && Frontier(f, ds) && Visited(S, cut, f, keys) && Last(f) in cut && Last(f) in S
    ensures Visited(S, cut, Front(f), keys + [Last(f)])
  {
    var c := Last(f);
    CursorShown(S, cut, f, ds, keys);
    SelfUnder(f);
    forall k ensures Under(Front(f), k) <==> Under(f, k) && !Covers(c, k) {
      SkipUnder(f, ds, k);
    }
    forall k | Under(Front(f), k) ensures Before(c, k) {
      CursorFirst(f, ds, k);
    }
    forall k | k in S && Covers(c, k) && k != c ensures Hidden(S, cut, k) {
      if |k.s| == |c.s| { SameLength(c, k); }
      assert Over(c, k);
    }
  }

  // ---- the walk comes to an end ----

  ghost function Pending(K: set<Key>, f: seq<Key>): set<Key> {
    set k | k in K && Under(f, k)
  }

  lemma PendingNext(K: set<Key>, f: seq<Key>, ds: seq<nat>, l: Link, r: Link)
    requires f != [] && Frontier(f, ds) && Last(f) in K
    requires LinkOk(K, Last(f), false, l) && LinkOk(K, Last(f), true, r)
    ensures Pending(K, Onward(f, l, r)) == Pending(K, f) - {Last(f)} && Last(f) in Pending(K, f)
    ensures |Pending(K, Onward(f, l, r))| == |Pending(K, f)| - 1
  {
    SelfUnder(f);
    forall k | k in K ensures Under(Onward(f, l, r), k) <==> Under(f, k) && k != Last(f) {
      NextUnder(K, f, ds, l, r, k);
    }
  }

  lemma PendingSkip(K: set<Key>, f: seq<Key>, ds: seq<nat>)
    requires f != [] && Frontier(f, ds) && Last(f) in K
    ensures |Pending(K, Front(f))| < |Pending(K, f)|
  {
    SelfUnder(f);
    forall k | k in K ensures Under(Front(f), k) ==> Under(f, k) && k != Last(f) {
      SkipUnder(f, ds, k);
    }
    Smaller(Pending(K, Front(f)), Pending(K, f) - {Last(f)});
  }
}
