/** The shape of the trie in memory is a function of the prefixes that are stored in it. */
module TrieShape {
  import opened BitStrings
  import opened CanonicalForm
  import opened PatriciaTrie
  import opened TrieLinks
  import opened TrieNodes
  import opened TrieValues

  ghost function CellAt(n: Node): Cell
    reads n`l, n`r, n`parent
  {
    Cell(LinkTo(n.l), LinkTo(n.r), LinkTo(n.parent))
  }

  // nodes, bit positions, links and prefixes, without the addresses of the nodes
  ghost function Value(t: Patricia): Trie
    reads t, t.nodes.Values
  {
    Trie(map k | k in t.nodes :: CellAt(t.nodes[k]), LinkTo(t.head), t.Stored())
  }

  lemma ValueFormed(t: Patricia)
    requires t.Valid()
    ensures WellFormed(Value(t))
  {
    forall k | k in t.nodes
      ensures Proper(Value(t), k)
      ensures k !in t.Stored() ==> Value(t).cells[k].l.To? && Value(t).cells[k].r.To?
    {
      CellFormed(t, k);
    }
    assert Value(t).cells.Keys == t.nodes.Keys;
  }

  lemma CellFormed(t: Patricia, k: Key)
    requires t.Valid() && k in t.nodes
    ensures Proper(Value(t), k)
    ensures k !in t.Stored() ==> Value(t).cells[k].l.To? && Value(t).cells[k].r.To?
  {
    assert Value(t).cells.Keys == t.nodes.Keys;
    assert t.NodeOk(k) && t.TagOk(k, {});
  }

  /** Two tries with the same stored prefixes have the same shape, whatever calls built them. */
  lemma SameShape(t: Patricia, u: Patricia)
    requires t.Valid() && u.Valid() && t.Stored() == u.Stored()
    ensures Value(t) == Value(u) && t.numActive == u.numActive
  {
    ValueFormed(t);
    ValueFormed(u);
    Canonical(Value(t), Value(u));
    assert t.nodes.Keys == Value(t).cells.Keys && u.nodes.Keys == Value(u).cells.Keys;
  }

  /** A trie that stores what it stored before has the shape it had before. */
  twostate lemma ShapeRestored(t: Patricia)
    requires old(t.Valid()) && t.Valid() && t.Stored() == old(t.Stored())
    ensures Value(t) == old(Value(t)) && t.numActive == old(t.numActive)
  {
    ValueFormed(t);
    OldFormed(t);
    Canonical(Value(t), old(Value(t)));
    assert t.nodes.Keys == Value(t).cells.Keys && old(t.nodes).Keys == old(Value(t)).cells.Keys;
  }

  twostate lemma OldFormed(t: Patricia)
    requires old(t.Valid())
    ensures WellFormed(old(Value(t)))
  {
    ghost var v := old(Value(t));
    assert v.cells.Keys == old(t.nodes).Keys;
    forall k | k in v.cells
      ensures Proper(v, k)
      ensures k !in v.stored ==> v.cells[k].l.To? && v.cells[k].r.To?
    {
      assert old(t.NodeOk(k)) && old(t.TagOk(k, {}));
    }
  }

  // `num_active_node` against the number of stored prefixes
  lemma ActiveBound(t: Patricia)
    requires t.Valid()
    ensures t.Stored() == {} <==> t.numActive == 0
    ensures t.Stored() != {} ==> t.numActive <= 2 * |t.Stored()| - 1
  {
    ValueFormed(t);
    NodeBound(Value(t));
    assert t.nodes.Keys == Value(t).cells.Keys;
    assert |t.nodes| == |t.nodes.Keys|;
  }

  // ---- the nodes are what can be reached from the head ----

  ghost predicate Reached(t: Patricia, n: Node, path: seq<Node>)
    reads t`head, path
  {
    && path != [] && path[0] == t.head && path[|path| - 1] == n
    && forall i | 0 < i < |path| :: path[i - 1].l == path[i] || path[i - 1].r == path[i]
  }

  lemma {:induction false} PathTo(t: Patricia, n: Node) returns (path: seq<Node>)
    requires t.Linked() && Has(t.nodes, n)
    ensures Reached(t, n, path)
    decreases |n.key.s|
  {
    assert t.NodeOk(n.key);
    if n.parent == null {
      CoverBoth(n.key, t.head.key);
      return [n];
    }
    t.HasOneParent(n);
    path := PathTo(t, n.parent);
    path := path + [n];
    assert t.nodes[n.parent.key] == n.parent;
  }

  lemma {:induction false} OnlyNodes(t: Patricia, n: Node, path: seq<Node>)
    requires t.Linked() && Reached(t, n, path)
    ensures Has(t.nodes, n)
    decreases |path|
  {
    if |path| > 1 {
      var p, before := path[|path| - 2], path[..|path| - 1];
      OnlyNodes(t, p, before);
      assert t.NodeOk(p.key);
    }
  }

  // a lookup of a new prefix, undone
  method LookupRemoved(t: Patricia, prefix: Prefix)
    requires t.Valid() && t.Counted() && prefix.Ok() && prefix.bitlen <= t.maxbits && prefix.key !in t.Stored()
    modifies t`head, t`nodes, t`numActive, prefix`refCount
    modifies t.nodes.Values`l, t.nodes.Values`r, t.nodes.Values`parent, t.nodes.Values`prefix, t.nodes.Values`data
    ensures t.Valid() && t.Counted() && Value(t) == old(Value(t)) && t.numActive == old(t.numActive)
  {
    var node := t.Lookup(prefix);
    t.Remove(node);
    ShapeRestored(t);
  }
}
