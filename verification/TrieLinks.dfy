/** What the pointers of a node must be: each leads to the node of the nearest key in its direction. */
module TrieLinks {
  import opened BitStrings
  import opened KeySets
  import opened TrieNodes
  import opened TrieValues

  type NodeMap = map<Key, Node>

  ghost function LinkTo(n: Node?): Link {
    if n == null then Nil else To(n.key)
  }

  ghost predicate Has(nodes: NodeMap, n: Node) {
    n.key in nodes && nodes[n.key] == n
  }

  ghost predicate Known(nodes: NodeMap, n: Node?) {
    n == null || Has(nodes, n)
  }

  ghost predicate Wired(nodes: NodeMap, k: Key, l: Node?, r: Node?, up: Node?) {
    && Known(nodes, l) && Known(nodes, r) && Known(nodes, up)
    && CellOk(nodes.Keys, k, Cell(LinkTo(l), LinkTo(r), LinkTo(up)))
  }

  ghost predicate Headed(nodes: NodeMap, head: Node?) {
    Known(nodes, head) && HeadOk(nodes.Keys, LinkTo(head))
  }

  function Put(d: Node?, from: Node, to: Node?): Node? {
    if d == from then to else d
  }

  // ---- x goes into the free slot b of p ----

  ghost predicate Slot(nodes: NodeMap, p: Node, b: bool, x: Node) {
    Has(nodes, p) && FreeSlot(nodes.Keys, p.key, b, x.key)
  }

  lemma AttachWired(nodes: NodeMap, p: Node, b: bool, x: Node, k: Key, l: Node?, r: Node?, up: Node?)
    requires k in nodes && Slot(nodes, p, b, x) && Wired(nodes, k, l, r, up)
    ensures k != p.key ==> Wired(nodes[x.key := x], k, l, r, up)
    ensures k == p.key && b ==> Wired(nodes[x.key := x], k, l, x, up)
    ensures k == p.key && !b ==> Wired(nodes[x.key := x], k, x, r, up)
  {
    var K := nodes.Keys;
    assert nodes[x.key := x].Keys == K + {x.key};
    AttachOld(K, p.key, b, x.key, k, Cell(LinkTo(l), LinkTo(r), LinkTo(up)));
  }

  lemma AttachSelf(nodes: NodeMap, p: Node, b: bool, x: Node, h: Node?)
    requires Slot(nodes, p, b, x) && Headed(nodes, h)
    ensures Wired(nodes[x.key := x], x.key, null, null, p)
    ensures Headed(nodes[x.key := x], h)
  {
    assert nodes[x.key := x].Keys == nodes.Keys + {x.key};
    AttachNew(nodes.Keys, p.key, b, x.key);
    AttachHead(nodes.Keys, p.key, b, x.key, LinkTo(h));
  }

  // ---- y goes into the edge from `up` down to c, which comes to lie on side b of y ----

  ghost predicate Edge(nodes: NodeMap, up: Node?, c: Node, b: bool, y: Node) {
    Has(nodes, c) && Known(nodes, up) && FreeEdge(nodes.Keys, LinkTo(up), c.key, b, y.key)
  }

  lemma SpliceWired(nodes: NodeMap, up: Node?, c: Node, b: bool, y: Node, k: Key, l: Node?, r: Node?, q: Node?)
    requires k in nodes && Edge(nodes, up, c, b, y) && Wired(nodes, k, l, r, q)
    ensures Wired(nodes[y.key := y], k, Put(l, c, y), Put(r, c, y), if k == c.key then y else q)
  {
    assert nodes[y.key := y].Keys == nodes.Keys + {y.key};
    SpliceOld(nodes.Keys, LinkTo(up), c.key, b, y.key, k, Cell(LinkTo(l), LinkTo(r), LinkTo(q)));
  }

  lemma SpliceSelf(nodes: NodeMap, up: Node?, c: Node, b: bool, y: Node, h: Node?)
    requires Edge(nodes, up, c, b, y) && Headed(nodes, h)
    ensures Wired(nodes[y.key := y], y.key, if b then null else c, if b then c else null, up)
    ensures Headed(nodes[y.key := y], if up == null then y else h)
  {
    assert nodes[y.key := y].Keys == nodes.Keys + {y.key};
    SpliceNew(nodes.Keys, LinkTo(up), c.key, b, y.key);
    SpliceHead(nodes.Keys, LinkTo(up), c.key, b, y.key, LinkTo(h));
  }

  // ---- y, with at most the one child c, goes ----

  ghost predicate AtMost(nodes: NodeMap, y: Node, c: Node?, up: Node?) {
    Has(nodes, y) && (Wired(nodes, y.key, c, null, up) || Wired(nodes, y.key, null, c, up))
  }

  lemma UnlinkWired(nodes: NodeMap, y: Node, c: Node?, up: Node?, k: Key, l: Node?, r: Node?, q: Node?)
    requires AtMost(nodes, y, c, up) && k in nodes && k != y.key && Wired(nodes, k, l, r, q)
    ensures Wired(nodes - {y.key}, k, Put(l, y, c), Put(r, y, c), Put(q, y, up))
    ensures q == y <==> c != null && k == c.key
  {
    assert (nodes - {y.key}).Keys == nodes.Keys - {y.key};
    UnlinkOld(nodes.Keys, y.key, LinkTo(c), LinkTo(up), k, Cell(LinkTo(l), LinkTo(r), LinkTo(q)));
  }

  lemma UnlinkHeaded(nodes: NodeMap, y: Node, c: Node?, up: Node?, h: Node?)
    requires AtMost(nodes, y, c, up) && Headed(nodes, h)
    ensures h == y <==> up == null
    ensures Headed(nodes - {y.key}, Put(h, y, c))
  {
    assert (nodes - {y.key}).Keys == nodes.Keys - {y.key};
    UnlinkHead(nodes.Keys, y.key, LinkTo(c), LinkTo(up), LinkTo(h));
  }

  // ---- a child link and the child's parent link are mirror images ----

  lemma LinksMirror(nodes: NodeMap, p: Node, l: Node?, r: Node?, q: Node?, c: Node, cl: Node?, cr: Node?, up: Node?)
    requires Has(nodes, p) && Has(nodes, c) && Wired(nodes, p.key, l, r, q) && Wired(nodes, c.key, cl, cr, up)
    ensures l == c <==> up == p && Dir(p.key, false, c.key)
    ensures r == c <==> up == p && Dir(p.key, true, c.key)
    ensures up == p ==> (l == c || r == c) && !(l == c && r == c)
    ensures up == p ==> Over(p.key, c.key) && IsChild(nodes.Keys, p.key, c.key.s[|p.key.s|], c.key)
  {
    Mirror(nodes.Keys, p.key, false, LinkTo(l), c.key, LinkTo(up));
    Mirror(nodes.Keys, p.key, true, LinkTo(r), c.key, LinkTo(up));
  }
}
