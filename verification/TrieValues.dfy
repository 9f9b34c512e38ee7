/** The trie as a value: the keys of its nodes, their links, and which of them are stored. */
module TrieValues {
  import opened BitStrings
  import opened KeySets

  datatype Cell = Cell(l: Link, r: Link, up: Link)

  datatype Trie = Trie(cells: map<Key, Cell>, head: Link, stored: set<Key>)

  ghost predicate LinkOk(K: set<Key>, k: Key, b: bool, c: Link) {
    if c == Nil then NoChild(K, k, b) else IsChild(K, k, b, c.k)
  }

  ghost predicate UpOk(K: set<Key>, k: Key, p: Link) {
    if p == Nil then IsRoot(K, k) else IsParent(K, k, p.k)
  }

  ghost predicate CellOk(K: set<Key>, k: Key, c: Cell) {
    LinkOk(K, k, false, c.l) && LinkOk(K, k, true, c.r) && UpOk(K, k, c.up)
  }

  ghost predicate HeadOk(K: set<Key>, h: Link) {
    if h == Nil then K == {} else IsRoot(K, h.k)
  }

  ghost predicate Proper(t: Trie, k: Key)
    requires k in t.cells
  {
    CellOk(t.cells.Keys, k, t.cells[k])
  }

  // every link leads to the nearest key in its direction
  ghost predicate Formed(t: Trie) {
    && HeadOk(t.cells.Keys, t.head)
    && (forall k {:trigger Proper(t, k)} | k in t.cells :: Proper(t, k))
    && t.stored <= t.cells.Keys
  }

  // a key that is not stored is a branching point, with two children; those in `loose` may lack one
  ghost predicate Full(t: Trie, loose: set<Key>) {
    forall k {:trigger t.cells[k]} | k in t.cells && k !in t.stored && k !in loose ::
      t.cells[k].l.To? && t.cells[k].r.To?
  }

  // ---- a leaf in a free slot ----

  lemma AttachLink(K: set<Key>, p: Key, b: bool, x: Key, k: Key, b': bool, c: Link)
    requires k in K && FreeSlot(K, p, b, x) && (k, b') != (p, b) && LinkOk(K, k, b', c)
    ensures LinkOk(K + {x}, k, b', c)
  {
    SlotAbove(K, p, b, x, k);
    if Covers(k, p) && |k.s| == |p.s| { SameLength(k, p); }
    assert Dir(k, b', x) ==> Dir(k, b', p);
  }

  lemma AttachUp(K: set<Key>, p: Key, b: bool, x: Key, k: Key, q: Link)
    requires k in K && FreeSlot(K, p, b, x) && UpOk(K, k, q)
    ensures UpOk(K + {x}, k, q)
  {
    SlotAbove(K, p, b, x, k);
  }

  lemma AttachNew(K: set<Key>, p: Key, b: bool, x: Key)
    requires FreeSlot(K, p, b, x)
    ensures CellOk(K + {x}, x, Cell(Nil, Nil, To(p)))
  {
    forall m | m in K ensures Over(m, x) ==> Covers(m, p)
      ensures !Covers(x, m)
    {
      SlotAbove(K, p, b, x, m);
    }
  }

  lemma AttachOld(K: set<Key>, p: Key, b: bool, x: Key, k: Key, c: Cell)
    requires k in K && FreeSlot(K, p, b, x) && CellOk(K, k, c)
    ensures CellOk(K + {x}, k, if k != p then c else if b then c.(r := To(x)) else c.(l := To(x)))
  {
    AttachUp(K, p, b, x, k, c.up);
    if k != p || b { AttachLink(K, p, b, x, k, false, c.l); }
    if k != p || !b { AttachLink(K, p, b, x, k, true, c.r); }
  }

  lemma AttachHead(K: set<Key>, p: Key, b: bool, x: Key, h: Link)
    requires FreeSlot(K, p, b, x) && HeadOk(K, h)
    ensures HeadOk(K + {x}, h)
  {
  }

  // ---- a key in the middle of an edge ----

  function Swap(d: Link, from: Key, to: Link): Link {
    if d == To(from) then to else d
  }

  lemma SpliceLink(K: set<Key>, a: Link, c: Key, b: bool, y: Key, k: Key, b': bool, d: Link)
    requires k in K && FreeEdge(K, a, c, b, y) && LinkOk(K, k, b', d)
    ensures LinkOk(K + {y}, k, b', Swap(d, c, To(y)))
  {
    assert Dir(k, b', y) ==> Dir(k, b', c);
    EdgeOrder(K, a, c, b, y, k);
    if d.To? {
      var e := d.k;
      EdgeOrder(K, a, c, b, y, e);
      if e == c {
        forall m | m in K && Dir(k, b', m) ensures Covers(y, m) {
          EdgeOrder(K, a, c, b, y, m);
        }
      } else if Dir(k, b', y) {
        assert Covers(e, c);
        if |e.s| == |c.s| { SameLength(e, c); }
      }
    }
  }

  lemma SpliceUp(K: set<Key>, a: Link, c: Key, b: bool, y: Key, k: Key, q: Link)
    requires k in K && FreeEdge(K, a, c, b, y) && UpOk(K, k, q)
    ensures UpOk(K + {y}, k, if k == c then To(y) else q)
  {
    EdgeOrder(K, a, c, b, y, k);
    forall m | m in K ensures k == c && Over(m, k) ==> Covers(m, y) {
      EdgeOrder(K, a, c, b, y, m);
    }
    if Covers(c, k) && |c.s| == |k.s| { SameLength(c, k); }
    if q.To? { EdgeOrder(K, a, c, b, y, q.k); }
  }

  lemma SpliceNew(K: set<Key>, a: Link, c: Key, b: bool, y: Key)
    requires FreeEdge(K, a, c, b, y)
    ensures CellOk(K + {y}, y, if b then Cell(Nil, To(c), a) else Cell(To(c), Nil, a))
  {
    forall m | m in K ensures Over(y, m) ==> Covers(c, m)
      ensures Over(m, y) ==> a.To? && Covers(m, a.k)
      ensures a == Nil ==> Covers(y, m)
    {
      EdgeOrder(K, a, c, b, y, m);
    }
  }

  lemma SpliceHead(K: set<Key>, a: Link, c: Key, b: bool, y: Key, h: Link)
    requires FreeEdge(K, a, c, b, y) && HeadOk(K, h)
    ensures HeadOk(K + {y}, if a == Nil then To(y) else h)
  {
    if a == Nil { SpliceNew(K, a, c, b, y); } else { EdgeOrder(K, a, c, b, y, h.k); }
  }

  lemma SpliceOld(K: set<Key>, a: Link, c: Key, b: bool, y: Key, k: Key, d: Cell)
    requires k in K && FreeEdge(K, a, c, b, y) && CellOk(K, k, d)
    ensures CellOk(K + {y}, k, Cell(Swap(d.l, c, To(y)), Swap(d.r, c, To(y)), if k == c then To(y) else d.up))
  {
    SpliceLink(K, a, c, b, y, k, false, d.l);
    SpliceLink(K, a, c, b, y, k, true, d.r);
    SpliceUp(K, a, c, b, y, k, d.up);
  }

  // ---- a key with at most one child goes, and the child takes its place ----

  ghost predicate Lone(K: set<Key>, y: Key, c: Link, up: Link) {
    y in K && (CellOk(K, y, Cell(c, Nil, up)) || CellOk(K, y, Cell(Nil, c, up)))
  }

  lemma LoneOrder(K: set<Key>, y: Key, c: Link, up: Link, k: Key)
    requires Lone(K, y, c, up) && k in K && k != y
    ensures Over(y, k) <==> c.To? && Covers(c.k, k)
    ensures Over(k, y) <==> up.To? && Covers(k, up.k)
    ensures up == Nil ==> c.To? && Covers(c.k, k)
  {
    if Covers(y, k) && |y.s| == |k.s| { SameLength(y, k); }
    if Over(y, k) { assert Dir(y, k.s[|y.s|], k); }
  }

  lemma UnlinkLink(K: set<Key>, y: Key, c: Link, up: Link, k: Key, b: bool, d: Link)
    requires Lone(K, y, c, up) && k in K && k != y && LinkOk(K, k, b, d)
    ensures LinkOk(K - {y}, k, b, Swap(d, y, c))
  {
    LoneOrder(K, y, c, up, k);
    if d == To(y) {
      forall m | m in K - {y} ensures Dir(k, b, m) ==> c.To? && Covers(c.k, m) {
        LoneOrder(K, y, c, up, m);
      }
    }
  }

  lemma UnlinkUp(K: set<Key>, y: Key, c: Link, up: Link, k: Key, q: Link)
    requires Lone(K, y, c, up) && k in K && k != y && UpOk(K, k, q)
    ensures UpOk(K - {y}, k, Swap(q, y, up))
    ensures q == To(y) <==> c == To(k)
  {
    LoneOrder(K, y, c, up, k);
    forall m | m in K - {y}
      ensures q == To(y) && Over(m, k) ==> up.To? && Covers(m, up.k)
      ensures up == Nil ==> c.To? && Covers(c.k, m)
    {
      LoneOrder(K, y, c, up, m);
      if Covers(m, y) && |m.s| == |y.s| { SameLength(m, y); }
    }
    if q == To(y) && c.To? {
      var e := c.k;
      assert Covers(e, k) && (Over(e, k) ==> Covers(e, y));
      if |e.s| == |k.s| { SameLength(e, k); }
    }
    if c == To(k) && q.To? {
      var e, b := q.k, k.s[|y.s|];
      if Covers(y, e) && |e.s| == |y.s| { SameLength(y, e); }
      assert Over(y, e) ==> Dir(y, b, e);
    }
  }

  lemma UnlinkHead(K: set<Key>, y: Key, c: Link, up: Link, h: Link)
    requires Lone(K, y, c, up) && HeadOk(K, h)
    ensures h == To(y) <==> up == Nil
    ensures HeadOk(K - {y}, Swap(h, y, c))
  {
    if h != To(y) {
      LoneOrder(K, y, c, up, h.k);
    } else {
      forall m | m in K - {y} ensures c.To? && Covers(c.k, m) {
        LoneOrder(K, y, c, up, m);
      }
    }
  }

  lemma UnlinkOld(K: set<Key>, y: Key, c: Link, up: Link, k: Key, d: Cell)
    requires Lone(K, y, c, up) && k in K && k != y && CellOk(K, k, d)
    ensures CellOk(K - {y}, k, Cell(Swap(d.l, y, c), Swap(d.r, y, c), Swap(d.up, y, up)))
    ensures d.up == To(y) <==> c == To(k)
  {
    UnlinkLink(K, y, c, up, k, false, d.l);
    UnlinkLink(K, y, c, up, k, true, d.r);
    UnlinkUp(K, y, c, up, k, d.up);
  }

  // A child link and the child's parent link are mirror images.
  lemma Mirror(K: set<Key>, p: Key, b: bool, d: Link, c: Key, up: Link)
    requires p in K && c in K && LinkOk(K, p, b, d) && UpOk(K, c, up)
    ensures d == To(c) <==> up == To(p) && Dir(p, b, c)
  {
    assert Dir(p, b, c) ==> d.To? && Covers(d.k, c);
    if d == To(c) {
      assert up.To? && Covers(p, up.k);
      var u := up.k;
      assert p == u || |p.s| < |u.s| || |p.s| == |u.s|;
      if |p.s| == |u.s| { SameLength(p, u); }
      assert p != u ==> Dir(p, b, u);
    } else if up == To(p) && d.To? {
      var e := d.k;
      assert Over(e, c) ==> Covers(e, p);
      if Covers(e, c) && |e.s| == |c.s| { SameLength(e, c); }
    }
  }
}
