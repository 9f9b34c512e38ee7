/** Why a walk that ages and deletes as it goes is one update of the whole cache. */
module CacheSweep {
  import opened BitStrings
  import opened KeySets
  import opened MapCache
  import opened TrieValues
  import opened WalkOrder

  // what is pending is as it was, the rest as after the sweep
  ghost predicate Half(m: Cache, e: Cache, f: seq<Key>) {
    && (forall k | k in m || k in e || k in Swept(m) :: At(e, k) == At(if Under(f, k) then m else Swept(m), k))
    && (forall p, k | p in m && m[p].state == Static && Covers(p, k) && Under(f, k) :: Under(f, p))
  }

  lemma HalfStart(m: Cache, f: seq<Key>)
    requires forall k | k in m :: Under(f, k)
    ensures Half(m, m, f)
  {
  }

  lemma HalfDone(m: Cache, e: Cache)
    requires Half(m, e, [])
    ensures e == Swept(m)
  {
    forall k ensures At(e, k) == At(Swept(m), k) {
      assert k in m || k in e || k in Swept(m) ==> At(e, k) == At(Swept(m), k);
    }
    assert forall k :: k in e <==> k in Swept(m);
    forall k | k in e ensures e[k] == Swept(m)[k] {
      assert At(e, k) == Some(e[k]);
    }
  }

  // a cursor that is not static is not under a static entry
  lemma {:induction false} CursorAges(m: Cache, e: Cache, f: seq<Key>, ds: seq<nat>)
    requires f != [] && Frontier(f, ds) && Half(m, e, f)
    ensures At(e, Last(f)) == At(m, Last(f))
    ensures Last(f) in m && m[Last(f)].state != Static ==> !Exempt(m, Last(f))
  {
    var c := Last(f);
    SelfUnder(f);
    forall p | p in m && m[p].state == Static && Covers(p, c) ensures p == c {
      CursorFirst(f, ds, p);
      if p != c { BeforeStrict(c, p); }
      if |p.s| == |c.s| { SameLength(p, c); }
    }
  }

  // PATRICIA_WALK_BREAK at a static entry
  lemma {:induction false} HalfSkip(m: Cache, e: Cache, f: seq<Key>, ds: seq<nat>)
    requires f != [] && Frontier(f, ds) && Half(m, e, f) && Last(f) in e && e[Last(f)].state == Static
    ensures Half(m, e, Front(f))
  {
    var c := Last(f);
    CursorAges(m, e, f, ds);
    forall k ensures Under(Front(f), k) <==> Under(f, k) && !Covers(c, k) {
      SkipUnder(f, ds, k);
    }
    forall k | k in m && Covers(c, k) ensures At(Swept(m), k) == At(m, k) {
      assert Exempt(m, k);
    }
    forall p, k | p in m && m[p].state == Static && Covers(p, k) && Under(Front(f), k) ensures Under(Front(f), p) {
      assert Covers(c, p) ==> Covers(c, k);
    }
  }

  // the entry of the cursor after its turn
  function Aged(e: Cache, c: Key): Cache {
    if c !in e then e
    else if e[c].ttl - TTL_CHECK_INTERVAL <= 0 then e - {c}
    else e[c := e[c].(ttl := e[c].ttl - TTL_CHECK_INTERVAL)]
  }

  // one frontier after the other, as far as the entries of m go
  ghost predicate Follows(m: Cache, f: seq<Key>, c: Key, g: seq<Key>) {
    && (forall k | k in m :: Under(g, k) <==> Under(f, k) && k != c)
    && (forall k | Under(g, k) :: Under(f, k))
  }

  lemma OnwardFollows(m: Cache, e: Cache, f: seq<Key>, ds: seq<nat>, K: set<Key>, l: Link, r: Link)
    requires f != [] && Frontier(f, ds) && Half(m, e, f) && e.Keys <= K && Last(f) in K
    requires LinkOk(K, Last(f), false, l) && LinkOk(K, Last(f), true, r)
    ensures Follows(m, f, Last(f), Onward(f, l, r))
  {
    forall k | Under(Onward(f, l, r), k) ensures Under(f, k) {
      NextLater(K, f, ds, l, r, k);
    }
    forall k | k in m ensures Under(Onward(f, l, r), k) <==> Under(f, k) && k != Last(f) {
      if k in K {
        NextUnder(K, f, ds, l, r, k);
      } else {
        assert At(e, k) == None;
      }
    }
  }

  lemma AgedAt(m: Cache, e: Cache, c: Key, k: Key)
    requires At(e, c) == At(m, c) && (c in m ==> !Exempt(m, c))
    ensures At(Aged(e, c), k) == if k == c then At(Swept(m), k) else At(e, k)
  {
  }

  lemma {:induction false} HalfNext(m: Cache, e: Cache, f: seq<Key>, ds: seq<nat>, K: set<Key>, l: Link, r: Link)
    requires f != [] && Frontier(f, ds) && Half(m, e, f) && (Last(f) in e ==> e[Last(f)].state != Static)
    requires e.Keys <= K && Last(f) in K && LinkOk(K, Last(f), false, l) && LinkOk(K, Last(f), true, r)
    ensures Half(m, Aged(e, Last(f)), Onward(f, l, r))
  {
    CursorAges(m, e, f, ds);
    SelfUnder(f);
    OnwardFollows(m, e, f, ds, K, l, r);
    HalfAged(m, e, f, Last(f), Onward(f, l, r));
  }

  lemma {:induction false} HalfAged(m: Cache, e: Cache, f: seq<Key>, c: Key, g: seq<Key>)
    requires Half(m, e, f) && Follows(m, f, c, g) && Under(f, c) && (c in e ==> e[c].state != Static)
    requires At(e, c) == At(m, c) && (c in m ==> !Exempt(m, c))
    ensures Half(m, Aged(e, c), g)
  {
    var d := Aged(e, c);
    forall k | k in m || k in d || k in Swept(m) ensures At(d, k) == At(if Under(g, k) then m else Swept(m), k) {
      AgedAt(m, e, c, k);
      assert k in e ==> At(e, k) == At(if Under(f, k) then m else Swept(m), k);
    }
  }
}
