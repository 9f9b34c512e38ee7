/** The Patricia trie: `patricia_lookup` and `patricia_remove`. */
module PatriciaTrie {
  import opened Addresses
  import opened BitStrings
  import opened KeySets
  import opened TrieLinks
  import opened TrieNodes

  class Patricia {
    var head: Node?
    const maxbits: nat
    var numActive: int
    ghost var nodes: NodeMap       // every node, by its key

    // New_Patricia
    constructor (maxbits: nat)
      requires maxbits <= 128
      ensures Valid() && Counted() && Stored() == {} && this.maxbits == maxbits && nodes == map[]
    {
      this.maxbits := maxbits;
      head, numActive, nodes := null, 0, map[];
    }

    // every pointer leads to the nearest key in its direction among the keys of m
    ghost predicate NodeIn(m: NodeMap, k: Key)
      reads m.Values`l, m.Values`r, m.Values`parent
      requires k in m
    {
      var n := m[k];
      n.key == k && n.bit == |k.s| <= maxbits && Wired(m, k, n.l, n.r, n.parent)
    }

    ghost predicate NodeOk(k: Key)
      reads this`nodes, nodes.Values`l, nodes.Values`r, nodes.Values`parent
      requires k in nodes
    {
      NodeIn(nodes, k)
    }

    // every pointer leads to the nearest key in its direction
    ghost predicate Linked()
      reads this`nodes, this`head, nodes.Values`l, nodes.Values`r, nodes.Values`parent
    {
      && Headed(nodes, head)
      && (forall k {:trigger NodeOk(k)} | k in nodes :: NodeOk(k))
    }

    // a node without prefix is a branching point with two children and no data; those in `loose` may
    // lack a child
    ghost predicate TagOk(k: Key, loose: set<Key>)
      reads this`nodes, nodes.Values
      requires k in nodes
    {
      var n := nodes[k];
      && (n.prefix == null ==> n.data == null && (k in loose || (n.l != null && n.r != null)))
      && (n.prefix != null ==> n.prefix.key == k && n.prefix.Ok())
    }

    ghost predicate Tags(loose: set<Key>)
      reads this`nodes, nodes.Values
    {
      forall k {:trigger TagOk(k, loose)} | k in nodes :: TagOk(k, loose)
    }

    ghost predicate Valid()
      reads this, nodes.Values
    {
      Linked() && Tags({}) && numActive == |nodes| && maxbits <= 128
    }

    ghost function Stored(): set<Key>
      reads this`nodes, nodes.Values`prefix
    {
      set k | k in nodes && nodes[k].prefix != null
    }

    ghost function Child(n: Node, right: bool): Node?
      reads n
    {
      if right then n.r else n.l
    }

    // ---- pointer writes ----

    method Hang(p: Node, x: Node, right: bool)
      modifies this`numActive, p`l, p`r, x`parent
      ensures numActive == old(numActive) + 1
      ensures x.parent == p
      ensures if right then p.r == x && p.l == old(p.l) else p.l == x && p.r == old(p.r)
    {
      numActive := numActive + 1;
      x.parent := p;
      if right {
        p.r := x;
      } else {
        p.l := x;
      }
    }

    // the one node that links to c is c's parent, or else the head is c
    ghost predicate OneParent(c: Node)
      reads this`nodes, this`head, nodes.Values`l, nodes.Values`r, c`parent
    {
      && Known(nodes, c.parent) && (c.parent == null ==> head == c)
      && forall k | k in nodes ::
        && (nodes[k].l == c ==> c.parent == nodes[k] && nodes[k].r != c)
        && (nodes[k].r == c ==> c.parent == nodes[k] && nodes[k].l != c)
        && (c.parent == nodes[k] ==> nodes[k].l == c || nodes[k].r == c)
    }

    // `to` is hung where `from` hangs
    method Rewire(from: Node, to: Node?)
      requires OneParent(from)
      modifies this`head, nodes.Values`l, nodes.Values`r
      ensures head == if from.parent == null then to else old(head)
      ensures forall k | k in nodes :: nodes[k].l == Put(old(nodes[k].l), from, to)
      ensures forall k | k in nodes :: nodes[k].r == Put(old(nodes[k].r), from, to)
    {
      var parent := from.parent;
      if parent == null {
        assert head == from;
        head := to;
      } else if parent.r == from {
        parent.r := to;
      } else {
        assert parent.l == from;
        parent.l := to;
      }
    }

    // y comes between c and c's parent
    method Interpose(y: Node, c: Node, right: bool)
      requires OneParent(c) && Has(nodes, c) && y !in nodes.Values && y.l == null && y.r == null
      modifies this`head, this`numActive, y`l, y`r, y`parent, nodes.Values`l, nodes.Values`r, nodes.Values`parent
      ensures numActive == old(numActive) + 1
      ensures y.l == (if right then null else c) && y.r == (if right then c else null) && y.parent == old(c.parent)
      ensures head == if old(c.parent) == null then y else old(head)
      ensures forall k | k in nodes :: nodes[k].l == Put(old(nodes[k].l), c, y)
      ensures forall k | k in nodes :: nodes[k].r == Put(old(nodes[k].r), c, y)
      ensures forall k | k in nodes :: nodes[k].parent == if nodes[k] == c then y else old(nodes[k].parent)
    {
      numActive := numActive + 1;
      Rewire(c, y);
      if right {
        y.r := c;
      } else {
        y.l := c;
      }
      y.parent := c.parent;
      c.parent := y;
    }

    // y is taken out, and its only child, if any, is hung in its place
    method Bypass(y: Node, child: Node?)
      requires OneParent(y) && Has(nodes, y) && child != y && Known(nodes, child)
      modifies this`head, this`numActive, nodes.Values`l, nodes.Values`r, nodes.Values`parent
      ensures numActive == old(numActive) - 1
      ensures head == if old(y.parent) == null then child else old(head)
      ensures y.parent == old(y.parent)
      ensures forall k | k in nodes :: nodes[k].l == Put(old(nodes[k].l), y, child)
      ensures forall k | k in nodes :: nodes[k].r == Put(old(nodes[k].r), y, child)
      ensures forall k | k in nodes ::
                nodes[k].parent == if nodes[k] == child then old(y.parent) else old(nodes[k].parent)
    {
      numActive := numActive - 1;
      if child != null {
        child.parent := y.parent;
      }
      Rewire(y, child);
    }

    lemma HasOneParent(c: Node)
      requires Linked() && Has(nodes, c)
      ensures OneParent(c)
    {
      assert NodeOk(c.key);
      if c.parent == null {
        assert Covers(c.key, head.key) && Covers(head.key, c.key);
        assert head.key == c.key;
      }
      forall k | k in nodes
        ensures nodes[k].l == c ==> c.parent == nodes[k] && nodes[k].r != c
        ensures nodes[k].r == c ==> c.parent == nodes[k] && nodes[k].l != c
        ensures c.parent == nodes[k] ==> nodes[k].l == c || nodes[k].r == c
      {
        assert NodeOk(k);
        var n := nodes[k];
        LinksMirror(nodes, n, n.l, n.r, n.parent, c, c.l, c.r, c.parent);
      }
    }

    // ---- the links stay right ----

    method LinkLeaf(p: Node, x: Node, right: bool)
      requires Linked() && Slot(nodes, p, right, x) && x !in nodes.Values
      requires x.l == null && x.r == null && x.bit == |x.key.s| <= maxbits
      modifies this`nodes, this`numActive, p`l, p`r, x`parent
      ensures Linked() && nodes == old(nodes)[x.key := x]
      ensures numActive == old(numActive) + 1
      ensures if right then p.r == x && p.l == old(p.l) else p.l == x && p.r == old(p.r)
    {
      Hang(p, x, right);
      ghost var before := nodes;
      nodes := nodes[x.key := x];
      AttachSelf(before, p, right, x, head);
      forall k | k in nodes ensures NodeOk(k) {
        if k != x.key {
          assert old(NodeOk(k));
          ghost var n := nodes[k];
          AttachWired(before, p, right, x, k, old(n.l), old(n.r), old(n.parent));
        }
      }
    }

    method InterposeWired(y: Node, c: Node, right: bool)
      requires Linked() && Edge(nodes, c.parent, c, right, y) && y !in nodes.Values
      requires y.l == null && y.r == null && y.bit == |y.key.s| <= maxbits
      modifies this`head, this`numActive, y`l, y`r, y`parent
      modifies nodes.Values`l, nodes.Values`r, nodes.Values`parent
      ensures var m := nodes[y.key := y]; Headed(m, head) && forall k {:trigger NodeIn(m, k)} | k in m :: NodeIn(m, k)
      ensures numActive == old(numActive) + 1
      ensures y.l == (if right then null else c) && y.r == (if right then c else null)
      ensures forall k | k in nodes :: nodes[k].l == Put(old(nodes[k].l), c, y)
      ensures forall k | k in nodes :: nodes[k].r == Put(old(nodes[k].r), c, y)
    {
      HasOneParent(c);
      ghost var up, m := c.parent, nodes[y.key := y];
      Interpose(y, c, right);
      SpliceSelf(nodes, up, c, right, y, old(head));
      forall k | k in m ensures NodeIn(m, k) {
        if k != y.key {
          assert old(NodeOk(k));
          ghost var n := nodes[k];
          SpliceWired(nodes, up, c, right, y, k, old(n.l), old(n.r), old(n.parent));
        }
      }
    }

    method LinkAbove(y: Node, c: Node, right: bool)
      requires Linked() && Edge(nodes, c.parent, c, right, y) && y !in nodes.Values
      requires y.l == null && y.r == null && y.bit == |y.key.s| <= maxbits
      modifies this`nodes, this`head, this`numActive, y`l, y`r, y`parent
      modifies nodes.Values`l, nodes.Values`r, nodes.Values`parent
      ensures Linked() && nodes == old(nodes)[y.key := y]
      ensures numActive == old(numActive) + 1
      ensures y.l == (if right then null else c) && y.r == (if right then c else null)
      ensures forall k | k in old(nodes) :: nodes[k].l == Put(old(nodes[k].l), c, y)
      ensures forall k | k in old(nodes) :: nodes[k].r == Put(old(nodes[k].r), c, y)
    {
      assert y.key !in nodes;
      InterposeWired(y, c, right);
      nodes := nodes[y.key := y];
      forall k | k in nodes ensures NodeOk(k) { assert NodeIn(nodes, k); }
    }

    method UnlinkNode(y: Node)
      requires Linked() && Has(nodes, y) && (y.l == null || y.r == null)
      modifies this`nodes, this`head, this`numActive, nodes.Values`l, nodes.Values`r, nodes.Values`parent
      ensures Linked() && nodes == old(nodes) - {y.key}
      ensures numActive == old(numActive) - 1
      ensures y.l == old(y.l) && y.r == old(y.r) && y.parent == old(y.parent)
      ensures var child := if old(y.r) != null then old(y.r) else old(y.l);
        forall k | k in nodes ::
          nodes[k].l == Put(old(nodes[k].l), y, child) && nodes[k].r == Put(old(nodes[k].r), y, child)
    {
      HasOneParent(y);
      assert NodeOk(y.key);
      var child := if y.r != null then y.r else y.l;
      ghost var before, up := nodes, y.parent;
      assert child != y;
      Bypass(y, child);
      nodes := nodes - {y.key};
      UnlinkHeaded(before, y, child, up, old(head));
      forall k | k in nodes ensures NodeOk(k) {
        assert old(NodeOk(k));
        ghost var n := before[k];
        UnlinkWired(before, y, child, up, k, old(n.l), old(n.r), old(n.parent));
      }
    }
  
    // ---- the tags stay right ----

    ghost predicate Single(x: Node)
      reads this`nodes, x
    {
      && x !in nodes.Values && x.l == null && x.r == null && x.bit == |x.key.s| <= maxbits
      && (x.prefix == null ==> x.data == null)
      && (x.prefix != null ==> x.prefix.key == x.key && x.prefix.Ok())
    }

    method AddLeaf(p: Node, x: Node, right: bool, ghost loose: set<Key>)
      requires Linked() && Tags(loose) && Single(x) && x.prefix != null
      requires Slot(nodes, p, right, x) && Child(p, right) == null
      requires loose <= {p.key} && (loose == {} || Child(p, !right) != null)
      modifies this`nodes, this`numActive, p`l, p`r, x`parent
      ensures Linked() && Tags({}) && nodes == old(nodes)[x.key := x]
      ensures numActive == old(numActive) + 1
    {
      LinkLeaf(p, x, right);
      forall k | k in nodes ensures TagOk(k, {}) {
        if k != x.key { assert old(TagOk(k, loose)); }
      }
    }

    method AddAbove(x: Node, c: Node, right: bool)
      requires Linked() && Tags({}) && Single(x) && Edge(nodes, c.parent, c, right, x)
      modifies this`nodes, this`head, this`numActive, x`l, x`r, x`parent
      modifies nodes.Values`l, nodes.Values`r, nodes.Values`parent
      ensures Linked() && Tags(if x.prefix == null then {x.key} else {}) && nodes == old(nodes)[x.key := x]
      ensures numActive == old(numActive) + 1
      ensures Child(x, right) == c && Child(x, !right) == null
    {
      LinkAbove(x, c, right);
      ghost var loose := if x.prefix == null then {x.key} else {};
      forall k | k in nodes ensures TagOk(k, loose) {
        if k != x.key { assert old(TagOk(k, {})); }
      }
    }
  
    // ---- patricia_lookup ----

    lemma Below(n: Node, right: bool)
      requires Linked() && Has(nodes, n)
      ensures n.bit == |n.key.s| <= maxbits
      ensures var c := Child(n, right);
        c != null ==> Has(nodes, c) && n.bit < c.bit == |c.key.s| <= maxbits && IsChild(nodes.Keys, n.key, right, c.key)
      ensures Child(n, right) == null ==> NoChild(nodes.Keys, n.key, right)
    {
      assert NodeOk(n.key);
      var c := Child(n, right);
      if c != null { assert NodeOk(c.key); }
    }

    lemma DownTo(x: Key, n: Node, right: bool)
      requires Linked() && Has(nodes, n) && Closest(nodes.Keys, x, n.key)
      requires |n.key.s| < |x.s| ==> right == x.s[|n.key.s|]
      ensures n.bit == |n.key.s| <= maxbits
      ensures var c := Child(n, right);
        c != null ==> Has(nodes, c) && n.bit < c.bit == |c.key.s| <= maxbits && Closest(nodes.Keys, x, c.key)
      ensures Child(n, right) == null || |n.key.s| >= |x.s| ==> Nearest(nodes.Keys, x, n.key)
    {
      Below(n, right);
      var c := Child(n, right);
      if c != null { ClosestStep(nodes.Keys, x, n.key, right, c.key); }
      if c == null || |n.key.s| >= |x.s| { NearestStop(nodes.Keys, x, n.key); }
    }

    // the first loop: down to a prefix node, branching on host bits too once past bitlen
    method Descend(addr: Addr, bitlen: nat) returns (node: Node)
      requires Valid() && head != null && bitlen <= maxbits
      ensures Has(nodes, node) && node.prefix != null && node.bit == |node.key.s| <= maxbits
      ensures Nearest(nodes.Keys, Cut(addr, bitlen), node.key)
    {
      ghost var x := Cut(addr, bitlen);
      node := head;
      Below(head, false);
      while node.bit < bitlen || node.prefix == null
        invariant Has(nodes, node) && Closest(nodes.Keys, x, node.key) && node.bit == |node.key.s| <= maxbits
        decreases 128 - node.bit
      {
        assert TagOk(node.key, {});
        var right := false;
        if node.bit < maxbits {
          right := AddrBit(addr, node.bit);
        }
        DownTo(x, node, right);
        if right {
          if node.r == null {
            break;
          }
          node := node.r;
        } else {
          if node.l == null {
            break;
          }
          node := node.l;
        }
      }
      DownTo(x, node, node.bit < bitlen && Bits(addr)[node.bit]);
    }

    // the second loop: up to the highest node at or below the differing bit
    method Climb(start: Node, differ: nat) returns (node: Node)
      requires Linked() && Has(nodes, start) && differ <= start.bit
      ensures Has(nodes, node) && Covers(node.key, start.key) && differ <= node.bit
      ensures node.parent != null ==> node.parent.bit < differ
    {
      node := start;
      var parent := node.parent;
      assert NodeOk(node.key);
      while parent != null && parent.bit >= differ
        invariant Has(nodes, node) && Covers(node.key, start.key) && differ <= node.bit && parent == node.parent
        decreases node.bit
      {
        assert NodeOk(node.key) && NodeOk(parent.key);
        node := parent;
        parent := node.parent;
      }
    }

    // where the loops stop: t is as near to x as any key, node is the highest key above t that is not
    // shorter than what t shares with x
    ghost predicate Place(x: Key, t: Key, node: Node)
      reads this`nodes, node, node.parent
    {
      && t in nodes && Nearest(nodes.Keys, x, t) && Has(nodes, node) && Covers(node.key, t) && Lcp(x, t) <= node.bit
      && (node.parent != null ==> node.parent.bit < Lcp(x, t))
    }

    // the first node at or below bit d on the way to a is that on the way to any b that shares d bits with a
    lemma PlaceAbove(x: Key, a: Key, n: Node, b: Key, m: Node)
      requires Linked() && Place(x, a, n) && Place(x, b, m) && Lcp(x, a) == Lcp(x, b)
      ensures Covers(n.key, m.key)
    {
      assert NodeOk(n.key) && NodeOk(m.key);
      var d, p := Lcp(x, a), n.parent;
      LcpFacts(x, a);
      LcpFacts(x, b);
      assert forall j | 0 <= j < d :: n.key.s[j] == a.s[j] == x.s[j];
      assert forall j | 0 <= j < d :: m.key.s[j] == b.s[j] == x.s[j];
      if p != null {
        assert NodeOk(p.key);
        LinksMirror(nodes, p, p.l, p.r, p.parent, n, n.l, n.r, p);
        assert forall j | 0 <= j < |p.key.s| :: p.key.s[j] == n.key.s[j] == m.key.s[j];
        assert Dir(p.key, n.key.s[|p.key.s|], m.key);
      }
    }

    /** The place of a key is one node and one bit, so lookup does not depend on the host bits it branches on. */
    lemma PlaceUnique(x: Key, a: Key, n: Node, b: Key, m: Node)
      requires Linked() && Place(x, a, n) && Place(x, b, m)
      ensures Lcp(x, a) == Lcp(x, b) && n == m
    {
      assert Lcp(x, a) <= Lcp(x, b) && Lcp(x, b) <= Lcp(x, a);
      PlaceAbove(x, a, n, b, m);
      PlaceAbove(x, b, m, a, n);
      assert n.key == m.key;
    }

    lemma PlaceFound(x: Key, t: Key, node: Node)
      requires Linked() && Place(x, t, node) && Lcp(x, t) == |x.s| == node.bit
      ensures node.key == x
    {
      assert NodeOk(node.key);
      LcpFacts(x, t);
      assert forall j | 0 <= j < |x.s| :: node.key.s[j] == t.s[j] == x.s[j];
      assert node.key.s == x.s;
    }

    lemma PlaceSlot(x: Node, t: Key, node: Node)
      requires Linked() && Place(x.key, t, node) && node.bit == Lcp(x.key, t) < |x.key.s|
      ensures Slot(nodes, node, x.key.s[node.bit], x) && Child(node, x.key.s[node.bit]) == null
    {
      assert NodeOk(node.key);
      NearestSlot(nodes.Keys, x.key, t, node.key);
    }

    lemma PlaceEdge(x: Key, y: Node, t: Key, node: Node)
      requires Linked() && Place(x, t, node) && Lcp(x, t) < node.bit && y.key == Take(x, Lcp(x, t))
      ensures Lcp(x, t) < |t.s| && Edge(nodes, node.parent, node, t.s[Lcp(x, t)], y)
      ensures Lcp(x, t) < |x.s| ==> t.s[Lcp(x, t)] == !x.s[Lcp(x, t)]
      ensures Lcp(x, t) < |x.s| ==> FreeSlot(nodes.Keys + {y.key}, y.key, x.s[Lcp(x, t)], x)
      ensures Lcp(x, t) < |x.s| ==> x !in nodes
    {
      assert NodeOk(node.key);
      var n, up := node, node.parent;
      if up != null {
        assert NodeOk(up.key);
        LinksMirror(nodes, up, up.l, up.r, up.parent, n, n.l, n.r, up);
      }
      NearestEdge(nodes.Keys, x, t, node.key, LinkTo(up));
      if Lcp(x, t) < |x.s| { GlueSlot(nodes.Keys, x, t); }
    }

    // the bit test that guards every step, `bit < maxbits && BIT_TEST (...)`
    method GoesRight(addr: Addr, bit: nat) returns (right: bool)
      requires bit <= maxbits <= 128
      ensures right <==> bit < maxbits && Bits(addr)[bit]
    {
      right := false;
      if bit < maxbits {
        right := AddrBit(addr, bit);
      }
    }

    ghost predicate Sited(x: Node, node: Node, t: Key)
      reads this`nodes, x, node, node.parent
    {
      Single(x) && x.prefix != null && Place(x.key, t, node)
    }

    // the new node becomes a child of the node above it
    method AddChild(x: Node, node: Node, addr: Addr, ghost t: Key)
      requires Valid() && Sited(x, node, t) && x.key == Cut(addr, x.bit)
      requires node.bit == Lcp(x.key, t) < x.bit
      modifies this`nodes, this`numActive, node`l, node`r, x`parent
      ensures Valid() && x.key !in old(nodes) && Has(nodes, x)
      ensures forall k | k in old(nodes) :: k in nodes && nodes[k] == old(nodes)[k]
      ensures forall k | k in nodes && k !in old(nodes) :: k == x.key
    {
      assert NodeOk(node.key);
      var right := GoesRight(addr, node.bit);
      PlaceSlot(x, t, node);
      AddLeaf(node, x, right, {});
    }

    lemma ParentEdge(x: Node, node: Node, testAddr: Addr, t: Key)
      requires Linked() && maxbits <= 128 && Sited(x, node, t) && |t.s| <= 128 && t == Cut(testAddr, |t.s|)
      requires Lcp(x.key, t) == x.bit < node.bit
      ensures x.bit < maxbits && Edge(nodes, node.parent, node, Bits(testAddr)[x.bit], x)
    {
      assert Take(x.key, x.bit) == x.key;
      PlaceEdge(x.key, x, t, node);
      assert NodeOk(t);
    }

    // the new node becomes the parent of the node below it
    method AddParent(x: Node, node: Node, testAddr: Addr, ghost t: Key)
      requires Valid() && Sited(x, node, t) && |t.s| <= 128 && t == Cut(testAddr, |t.s|)
      requires Lcp(x.key, t) == x.bit < node.bit
      modifies this`nodes, this`head, this`numActive, x`l, x`r, x`parent
      modifies nodes.Values`l, nodes.Values`r, nodes.Values`parent
      ensures Valid() && x.key !in old(nodes) && Has(nodes, x)
      ensures forall k | k in old(nodes) :: k in nodes && nodes[k] == old(nodes)[k]
      ensures forall k | k in nodes && k !in old(nodes) :: k == x.key
    {
      var right := GoesRight(testAddr, x.bit);
      ParentEdge(x, node, testAddr, t);
      AddAbove(x, node, right);
    }

    // a branching point is put above `node`; the side of x under it is free
    method RaiseGlue(x: Node, glue: Node, node: Node, addr: Addr, ghost t: Key) returns (right: bool)
      requires Valid() && Sited(x, node, t) && x.key == Cut(addr, x.bit) && Single(glue) && glue.prefix == null
      requires glue.bit == Lcp(x.key, t) && glue.bit < x.bit && glue.bit < node.bit && glue.key == Take(x.key, glue.bit)
      modifies this`head, this`nodes, this`numActive, glue`l, glue`r, glue`parent
      modifies nodes.Values`l, nodes.Values`r, nodes.Values`parent
      ensures Linked() && Tags({glue.key}) && nodes == old(nodes)[glue.key := glue] && numActive == |nodes|
      ensures glue.key !in old(nodes)
      ensures Slot(nodes, glue, right, x) && Child(glue, right) == null && Child(glue, !right) != null
    {
      right := GoesRight(addr, glue.bit);
      PlaceEdge(x.key, glue, t, node);
      ghost var K := nodes.Keys;
      AddAbove(glue, node, !right);
      assert nodes.Keys == K + {glue.key};
    }

    // a branching point is put above both
    method AddBranch(x: Node, glue: Node, node: Node, addr: Addr, ghost t: Key)
      requires Valid() && Sited(x, node, t) && x.key == Cut(addr, x.bit)
      requires Single(glue) && glue.prefix == null && glue != x
      requires glue.bit == Lcp(x.key, t) && glue.bit < x.bit && glue.bit < node.bit && glue.key == Take(x.key, glue.bit)
      modifies this`nodes, this`head, this`numActive, x`parent, glue`l, glue`r, glue`parent
      modifies nodes.Values`l, nodes.Values`r, nodes.Values`parent
      ensures Valid() && x.key !in old(nodes) && Has(nodes, x)
      ensures forall k | k in old(nodes) :: k in nodes && nodes[k] == old(nodes)[k]
      ensures forall k | k in nodes && k !in old(nodes) :: k == x.key || nodes[k] == glue
    {
      var right := RaiseGlue(x, glue, node, addr, t);
      AddLeaf(glue, x, right, {glue.key});
    }

    // the search for the place of a prefix: both loops and the bit comparison between them
    method FindPlace(prefix: Prefix) returns (node: Node, testAddr: Addr, differ: nat, ghost t: Key)
      requires Valid() && head != null && prefix.Ok() && prefix.bitlen <= maxbits
      ensures Place(prefix.key, t, node) && node.bit == |node.key.s| && differ == Lcp(prefix.key, t)
      ensures |t.s| <= 128 && t == Cut(testAddr, |t.s|)
    {
      var start := Descend(prefix.addr, prefix.bitlen);
      assert TagOk(start.key, {});
      testAddr := start.prefix.addr;
      differ := DifferBit(prefix.addr, testAddr, if start.bit < prefix.bitlen then start.bit else prefix.bitlen);
      t := start.key;
      LcpBits(prefix.addr, testAddr, prefix.bitlen, start.bit);
      node := Climb(start, differ);
      assert NodeOk(node.key);
    }

    // p is what Ref_Prefix returned for the prefix
    twostate predicate Taken(prefix: Prefix, new p: Prefix?)
      reads prefix, p
    {
      && (old(prefix.refCount) == 0 ==> p != null && fresh(p) && p.refCount == 1 && prefix.refCount == 0)
      && (old(prefix.refCount) > 0 ==> p == prefix && prefix.refCount == old(prefix.refCount) + 1)
    }

    method First(prefix: Prefix) returns (node: Node)
      requires Valid() && head == null && prefix.Ok() && prefix.bitlen <= maxbits
      modifies this`head, this`nodes, this`numActive, prefix`refCount
      ensures Valid() && Gained(node, prefix)
    {
      var p := prefix.Ref();
      node := new Node(prefix.bitlen, p, prefix.key);
      head := node;
      numActive := numActive + 1;
      nodes := nodes[prefix.key := node];
      assert NodeOk(prefix.key);
    }

    // a branching point becomes a prefix node
    method Fill(node: Node, prefix: Prefix)
      requires Valid() && Has(nodes, node) && node.prefix == null && prefix.Ok() && prefix.key == node.key
      modifies node`prefix, prefix`refCount
      ensures Valid() && Gained(node, prefix)
    {
      assert TagOk(node.key, {});
      assert node.data == null;
      node.prefix := prefix.Ref();
      forall k | k in nodes ensures TagOk(k, {}) {
        assert old(TagOk(k, {}));
        assert NodeOk(k);
      }
      Apart(node);
    }

    // the three ways to add a node
    method Site(x: Node, node: Node, addr: Addr, testAddr: Addr, differ: nat, ghost t: Key)
      requires Valid() && Sited(x, node, t) && x.key == Cut(addr, x.bit) && node.bit == |node.key.s|
      requires |t.s| <= 128 && t == Cut(testAddr, |t.s|) && differ == Lcp(x.key, t)
      requires !(differ == x.bit && node.bit == x.bit)
      modifies this`head, this`nodes, this`numActive, x`l, x`r, x`parent
      modifies nodes.Values`l, nodes.Values`r, nodes.Values`parent
      ensures Valid() && x.key !in old(nodes) && Has(nodes, x)
      ensures forall k | k in old(nodes) :: k in nodes && nodes[k] == old(nodes)[k]
      ensures forall k | k in nodes && k !in old(nodes) :: k == x.key || (fresh(nodes[k]) && nodes[k].prefix == null)
    {
      if node.bit == differ {
        AddChild(x, node, addr, t);
      } else if x.bit == differ {
        AddParent(x, node, testAddr, t);
      } else {
        var glue := new Node(differ, null, Take(x.key, differ));
        AddBranch(x, glue, node, addr, t);
      }
    }

    // a node that is in no trie yet
    method NewNode(prefix: Prefix) returns (x: Node)
      requires Valid() && prefix.Ok() && prefix.bitlen <= maxbits
      modifies prefix`refCount
      ensures Valid() && fresh(x) && Single(x) && x.key == prefix.key && x.bit == prefix.bitlen
      ensures x.prefix != null && Taken(prefix, x.prefix) && x.data == null
    {
      var p := prefix.Ref();
      x := new Node(prefix.bitlen, p, prefix.key);
    }

    // x is a new node of the trie, with the prefix that Ref_Prefix gave; any other new node is a branching point
    twostate predicate Entered(new x: Node, prefix: Prefix)
      reads this`nodes, nodes.Values`prefix, prefix, x, x.prefix
    {
      && Has(nodes, x) && x.key == prefix.key && x.key !in old(nodes) && fresh(x)
      && x.prefix != null && Taken(prefix, x.prefix) && x.data == null
      && (forall k | k in old(nodes) :: k in nodes && nodes[k] == old(nodes)[k])
      && (forall k | k in nodes && k !in old(nodes) :: k == x.key || (fresh(nodes[k]) && nodes[k].prefix == null))
    }

    twostate lemma EnteredGained(new x: Node, prefix: Prefix)
      requires Entered(x, prefix)
      requires forall k | k in old(nodes) :: old(nodes)[k].prefix == old(nodes[k].prefix)
      ensures Gained(x, prefix)
    {
    }

    method Enter(prefix: Prefix, node: Node, testAddr: Addr, differ: nat, ghost t: Key) returns (x: Node)
      requires Valid() && prefix.Ok() && prefix.bitlen <= maxbits
      requires Place(prefix.key, t, node) && node.bit == |node.key.s| && differ == Lcp(prefix.key, t)
      requires |t.s| <= 128 && t == Cut(testAddr, |t.s|)
      requires !(differ == prefix.bitlen && node.bit == prefix.bitlen)
      modifies this`head, this`nodes, this`numActive, prefix`refCount
      modifies nodes.Values`l, nodes.Values`r, nodes.Values`parent
      ensures Valid() && Entered(x, prefix)
    {
      x := NewNode(prefix);
      Site(x, node, prefix.addr, testAddr, differ, t);
    }

    method EnterNew(prefix: Prefix, node: Node, testAddr: Addr, differ: nat, ghost t: Key) returns (x: Node)
      requires Valid() && prefix.Ok() && prefix.bitlen <= maxbits
      requires Place(prefix.key, t, node) && node.bit == |node.key.s| && differ == Lcp(prefix.key, t)
      requires |t.s| <= 128 && t == Cut(testAddr, |t.s|)
      requires !(differ == prefix.bitlen && node.bit == prefix.bitlen)
      modifies this`head, this`nodes, this`numActive, prefix`refCount
      modifies nodes.Values`l, nodes.Values`r, nodes.Values`parent
      ensures Valid() && Gained(x, prefix)
    {
      x := Enter(prefix, node, testAddr, differ, t);
      EnteredGained(x, prefix);
    }

    // the node of the prefix is there; it may have been a branching point
    method TakeFound(prefix: Prefix, node: Node)
      requires Valid() && Has(nodes, node) && node.key == prefix.key && prefix.Ok()
      modifies node`prefix, prefix`refCount
      ensures Valid() && Gained(node, prefix)
    {
      Apart(node);
      if node.prefix == null {
        Fill(node, prefix);
      }
    }

    method AddBelow(prefix: Prefix) returns (node: Node)
      requires Valid() && head != null && prefix.Ok() && prefix.bitlen <= maxbits
      modifies this`head, this`nodes, this`numActive, prefix`refCount
      modifies nodes.Values`l, nodes.Values`r, nodes.Values`parent, nodes.Values`prefix
      ensures Valid() && Gained(node, prefix)
    {
      var testAddr, differ;
      ghost var t;
      node, testAddr, differ, t := FindPlace(prefix);
      if differ == prefix.bitlen && node.bit == prefix.bitlen {
        PlaceFound(prefix.key, t, node);
        TakeFound(prefix, node);
      } else {
        node := EnterNew(prefix, node, testAddr, differ, t);
      }
    }

    method FindOrAdd(prefix: Prefix) returns (node: Node)
      requires Valid() && prefix.Ok() && prefix.bitlen <= maxbits
      modifies this`head, this`nodes, this`numActive, prefix`refCount
      modifies nodes.Values`l, nodes.Values`r, nodes.Values`parent, nodes.Values`prefix
      ensures Valid() && Gained(node, prefix)
    {
      if head == null {
        node := First(prefix);
      } else {
        node := AddBelow(prefix);
      }
    }

    // ---- patricia_remove ----

    // what a branching point above a removed leaf lacks
    ghost function Loose(up: Node?, child: Node?): set<Key>
      reads if up != null then {up} else {}
    {
      if child == null && up != null && up.prefix == null then {up.key} else {}
    }

    method Drop(y: Node, ghost loose: set<Key>)
      requires Linked() && Has(nodes, y) && loose <= {y.key} && Tags(loose) && (y.l == null || y.r == null)
      modifies this`nodes, this`head, this`numActive, nodes.Values`l, nodes.Values`r, nodes.Values`parent
      ensures Linked() && nodes == old(nodes) - {y.key} && numActive == old(numActive) - 1
      ensures y.l == old(y.l) && y.r == old(y.r) && y.parent == old(y.parent)
      ensures Tags(Loose(y.parent, if y.r != null then y.r else y.l))
      ensures y.parent != null ==> Has(nodes, y.parent)
      ensures var child := if y.r != null then y.r else y.l;
        y.parent != null ==> y.parent.l == child || y.parent.r == child
      ensures y.parent != null ==> y.parent.l == old(y.parent.l) || y.parent.r == old(y.parent.r)
    {
      ghost var up, child := y.parent, if y.r != null then y.r else y.l;
      HasOneParent(y);
      assert NodeOk(y.key);
      if up != null { assert up == nodes[up.key]; }
      UnlinkNode(y);
      ghost var after := Loose(up, child);
      forall k | k in nodes ensures TagOk(k, after) {
        assert old(TagOk(k, loose));
        assert NodeOk(k);
      }
    }
  
    // a prefix node with two children becomes a branching point
    method Demote(node: Node)
      requires Valid() && Has(nodes, node) && node.r != null && node.l != null
      modifies node`prefix, node`data
      ensures Valid() && node.prefix == null
      ensures forall k | k in nodes && k != node.key :: nodes[k].prefix == old(nodes[k].prefix)
    {
      node.prefix := null;
      node.data := null;
      forall k | k in nodes ensures TagOk(k, {}) && (k != node.key ==> nodes[k] != node) {
        assert old(TagOk(k, {}));
        assert NodeOk(k);
      }
    }

    lemma Gone(n: Node)
      requires Linked() && n.key !in nodes
      ensures n !in nodes.Values
    {
      forall k | k in nodes ensures nodes[k] != n { assert NodeOk(k); }
    }

    method DropLeaf(node: Node, parent: Node)
      requires Valid() && Has(nodes, node) && node.prefix != null && node.r == null && node.l == null
      requires parent == node.parent && parent.prefix == null
      modifies this`nodes, this`head, this`numActive, nodes.Values`l, nodes.Values`r, nodes.Values`parent
      ensures Linked() && Tags({parent.key}) && nodes == old(nodes) - {node.key} && numActive == |nodes|
      ensures Has(nodes, parent) && (parent.l == null || parent.r == null) && parent.l != parent.r
      ensures node !in nodes.Values && node.l == null && node.r == null
    {
      assert TagOk(node.key, {}) && NodeOk(node.key);
      assert TagOk(parent.key, {});
      Drop(node, {});
      Gone(node);
    }

    // a branching point that is left with one child
    method DropBranch(y: Node)
      requires Linked() && Has(nodes, y) && Tags({y.key}) && (y.l == null || y.r == null) && y.l != y.r
      modifies this`nodes, this`head, this`numActive, nodes.Values`l, nodes.Values`r, nodes.Values`parent
      ensures Linked() && Tags({}) && nodes == old(nodes) - {y.key} && numActive == old(numActive) - 1
    {
      Drop(y, {y.key});
    }

    // a leaf goes, and with it the branching point above it
    method PruneBranch(node: Node, parent: Node)
      requires Valid() && Has(nodes, node) && node.prefix != null && node.r == null && node.l == null
      requires parent == node.parent && parent.prefix == null
      modifies this`head, this`nodes, this`numActive
      modifies nodes.Values`l, nodes.Values`r, nodes.Values`parent
      ensures Valid()
      ensures nodes == old(nodes) - {node.key} - {parent.key}
      ensures node.l == null && node.r == null
    {
      DropLeaf(node, parent);
      DropBranch(parent);
    }

    method Prune(node: Node)
      requires Valid() && Has(nodes, node) && node.prefix != null && node.r == null && node.l == null
      modifies this`head, this`nodes, this`numActive
      modifies nodes.Values`l, nodes.Values`r, nodes.Values`parent
      ensures Valid()
      ensures nodes == old(nodes) - {node.key} - old(Loose(node.parent, null))
      ensures node.l == null && node.r == null
    {
      assert TagOk(node.key, {}) && NodeOk(node.key);
      var parent := node.parent;
      if parent != null && parent.prefix == null {
        PruneBranch(node, parent);
      } else {
        Drop(node, {});
      }
    }

    // the keys whose nodes a removal frees
    ghost function Leaving(node: Node): set<Key>
      reads node, if node.parent != null then {node.parent} else {}
    {
      if node.r != null && node.l != null then {}
      else if node.r == null && node.l == null then {node.key} + Loose(node.parent, null)
      else {node.key}
    }

    // the node is gone from the prefix nodes, and nothing else is
    twostate predicate Lost(node: Node)
      reads this`nodes, nodes.Values`prefix, node
    {
      && (forall k :: k in nodes <==> k in old(nodes) && k !in old(Leaving(node)))
      && (forall k | k in nodes :: nodes[k] == old(nodes)[k])
      && (node.key in nodes ==> nodes[node.key].prefix == null)
      && (forall k | k in nodes && k != node.key :: nodes[k].prefix == old(nodes[k].prefix))
      && (forall k | k in old(nodes) && k !in nodes && k != node.key :: old(nodes[k].prefix) == null)
      && node.l == old(node.l) && node.r == old(node.r)
    }

    lemma LooseParent(node: Node)
      requires Linked() && Has(nodes, node)
      ensures forall k | k in Leaving(node) && k in nodes && k != node.key :: nodes[k].prefix == null
    {
      assert NodeOk(node.key);
    }

    // the three cases
    method Excise(node: Node)
      requires Valid() && Has(nodes, node)
      modifies this`head, this`nodes, this`numActive, node`prefix, node`data
      modifies nodes.Values`l, nodes.Values`r, nodes.Values`parent
      ensures Valid() && Lost(node)
    {
      assert TagOk(node.key, {});
      Apart(node);
      LooseParent(node);
      if node.r != null && node.l != null {
        Demote(node);
      } else if node.r == null && node.l == null {
        Prune(node);
      } else {
        Drop(node, {});
      }
    }

    lemma Apart(n: Node)
      requires Linked() && Has(nodes, n)
      ensures forall k | k in nodes && k != n.key :: nodes[k] != n
    {
      forall k | k in nodes && k != n.key ensures nodes[k] != n { assert NodeOk(k); }
    }
  
    // ---- reference counts ----

    ghost function HeldAt(p: Prefix): set<Key>
      reads this`nodes, nodes.Values`prefix
    {
      set k | k in nodes && nodes[k].prefix == p
    }

    ghost function Holders(p: Prefix): nat
      reads this`nodes, nodes.Values`prefix
    {
      |HeldAt(p)|
    }

    ghost function Held(): set<Prefix?>
      reads this`nodes, nodes.Values`prefix
    {
      set k | k in nodes :: nodes[k].prefix
    }

    // every prefix in the trie has a count that covers the nodes that hold it
    ghost predicate Counted()
      reads this`nodes, nodes.Values`prefix, Held()
    {
      forall p: Prefix | p in Held() :: Holders(p) <= p.refCount
    }

    // nobody but the nodes holds a reference
    ghost predicate Exact()
      reads this`nodes, nodes.Values`prefix, Held()
    {
      forall p: Prefix | p in Held() :: p.refCount == Holders(p)
    }

    // at most the node of the prefix is new to the prefix nodes
    twostate predicate Gained(new node: Node, prefix: Prefix)
      reads this`nodes, nodes.Values`prefix, nodes.Values`data, prefix, node, node.prefix
    {
      && Has(nodes, node) && node.key == prefix.key && node.prefix != null
      && (forall k | k in old(nodes) :: k in nodes && nodes[k] == old(nodes)[k])
      && (forall k | k in old(nodes) && k != node.key :: nodes[k].prefix == old(nodes[k].prefix))
      && (forall k | k in nodes && k !in old(nodes) :: fresh(nodes[k]) && (k == node.key || nodes[k].prefix == null))
      && (node.key in old(Stored()) ==>
            node.prefix == old(nodes[prefix.key].prefix) && prefix.refCount == old(prefix.refCount))
      && (node.key !in old(Stored()) ==> Taken(prefix, node.prefix) && node.data == null)
    }

    // what is new is newly allocated, but for the prefix p
    twostate predicate Grown(new p: Prefix?)
      reads this`nodes, nodes.Values`prefix
    {
      && (forall k | k in nodes :: fresh(nodes[k]) || nodes[k] in old(nodes).Values)
      && (forall q: Prefix | q in Held() :: q == p || fresh(q) || q in old(Held()))
    }

    twostate lemma GainedGrown(new node: Node, prefix: Prefix)
      requires Gained(node, prefix)
      ensures Grown(prefix)
    {
    }

    twostate lemma LostGrown(node: Node)
      requires Lost(node)
      ensures Grown(null)
    {
    }

    twostate lemma StoredGained(new node: Node, prefix: Prefix)
      requires Gained(node, prefix)
      ensures Stored() == old(Stored()) + {node.key}
    {
    }

    twostate lemma HeldGained(new node: Node, prefix: Prefix)
      requires Gained(node, prefix)
      ensures forall p: Prefix | old(allocated(p)) ::
                HeldAt(p) == old(HeldAt(p)) + if p == node.prefix && node.key !in old(Stored()) then {node.key} else {}
    {
    }

    twostate lemma RefsGained(new node: Node, prefix: Prefix)
      requires Gained(node, prefix)
      requires forall p: Prefix | old(allocated(p)) && p != prefix :: p.refCount == old(p.refCount)
      ensures forall p: Prefix | old(allocated(p)) :: p.refCount - Holders(p) == old(p.refCount) - old(Holders(p))
    {
      HeldGained(node, prefix);
      assert node.key !in old(Stored()) ==> forall p: Prefix | old(allocated(p)) :: node.key !in old(HeldAt(p));
    }

    lemma Unheld(p: Prefix)
      requires p !in Held()
      ensures Holders(p) == 0
    {
      assert HeldAt(p) == {};
    }

    twostate lemma CountedGained(new node: Node, prefix: Prefix)
      requires Gained(node, prefix) && old(Counted())
      requires forall p: Prefix | old(allocated(p)) :: p.refCount - Holders(p) == old(p.refCount) - old(Holders(p))
      ensures Counted()
    {
      forall p: Prefix | p in Held() ensures Holders(p) <= p.refCount {
        if old(allocated(p)) {
          if p !in old(Held()) { assert old(HeldAt(p)) == {}; }
        } else {
          assert HeldAt(p) <= {node.key};
          assert p == node.prefix;
          assert HeldAt(p) == {node.key};
        }
      }
    }

    // the copy that Ref_Prefix makes of an uncounted prefix has one reference, the node's
    twostate lemma ExactGained(new node: Node, prefix: Prefix)
      requires Gained(node, prefix) && old(Exact()) && old(prefix.refCount) == 0
      requires forall p: Prefix | old(allocated(p)) :: p.refCount - Holders(p) == old(p.refCount) - old(Holders(p))
      ensures Exact()
    {
      forall p: Prefix | p in Held() ensures p.refCount == Holders(p) {
        if old(allocated(p)) {
          assert p in old(Held());
        } else {
          assert HeldAt(p) <= {node.key};
          assert p == node.prefix;
          assert HeldAt(p) == {node.key};
        }
      }
    }

    method Lookup(prefix: Prefix) returns (node: Node)
      requires Valid() && Counted() && prefix.Ok() && prefix.bitlen <= maxbits
      modifies this`head, this`nodes, this`numActive, prefix`refCount
      modifies nodes.Values`l, nodes.Values`r, nodes.Values`parent, nodes.Values`prefix
      ensures Valid() && Counted() && Gained(node, prefix)
      ensures Stored() == old(Stored()) + {prefix.key}
      ensures forall p: Prefix | old(allocated(p)) :: p.refCount - Holders(p) == old(p.refCount) - old(Holders(p))
      ensures old(Exact()) && old(prefix.refCount) == 0 ==> Exact()
    {
      node := FindOrAdd(prefix);
      StoredGained(node, prefix);
      RefsGained(node, prefix);
      CountedGained(node, prefix);
      if old(Exact()) && old(prefix.refCount) == 0 { ExactGained(node, prefix); }
    }
  
    twostate lemma StoredLost(node: Node)
      requires Lost(node)
      ensures Stored() == old(Stored()) - {node.key}
    {
    }

    twostate lemma HeldLost(node: Node)
      requires Lost(node) && old(Has(nodes, node))
      ensures forall p: Prefix | old(allocated(p)) ::
                old(HeldAt(p)) == HeldAt(p) + if p == old(node.prefix) then {node.key} else {}
      ensures forall p: Prefix | old(allocated(p)) :: node.key !in HeldAt(p)
    {
    }

    twostate lemma RefsLost(node: Node)
      requires Lost(node) && old(Has(nodes, node))
      requires forall p: Prefix | old(allocated(p)) && p != old(node.prefix) :: p.refCount == old(p.refCount)
      requires old(node.prefix) != null ==> old(node.prefix).refCount == old(node.prefix.refCount) - 1
      ensures forall p: Prefix | old(allocated(p)) :: p.refCount - Holders(p) == old(p.refCount) - old(Holders(p))
    {
      HeldLost(node);
    }

    twostate lemma CountedLost(node: Node)
      requires Lost(node) && old(Counted())
      requires forall p: Prefix | old(allocated(p)) :: p.refCount - Holders(p) == old(p.refCount) - old(Holders(p))
      ensures Counted()
    {
    }

    twostate lemma ExactLost(node: Node)
      requires Lost(node) && old(Exact())
      requires forall p: Prefix | old(allocated(p)) :: p.refCount - Holders(p) == old(p.refCount) - old(Holders(p))
      ensures Exact()
    {
    }

    lemma HolderCounted(node: Node)
      requires Counted() && Has(nodes, node) && node.prefix != null
      ensures node.prefix.refCount > 0
    {
      assert node.prefix in Held();
      assert node.key in HeldAt(node.prefix);
    }

    // one reference less for the prefix of the node, one node less that holds it
    method Release(node: Node, prefix: Prefix?)
      requires Valid() && Has(nodes, node) && prefix == node.prefix && (prefix != null ==> prefix.refCount > 0)
      modifies this`head, this`nodes, this`numActive, node`prefix, node`data
      modifies (if prefix != null then {prefix} else {})`refCount
      modifies nodes.Values`l, nodes.Values`r, nodes.Values`parent
      ensures Valid() && Lost(node)
      ensures prefix != null ==> prefix.refCount == old(prefix.refCount) - 1
    {
      Excise(node);
      if prefix != null {
        prefix.Deref();
      }
    }

    method Remove(node: Node)
      requires Valid() && Counted() && Has(nodes, node)
      modifies this`head, this`nodes, this`numActive, node`prefix, node`data
      modifies (if node.prefix != null then {node.prefix} else {})`refCount
      modifies nodes.Values`l, nodes.Values`r, nodes.Values`parent
      ensures Valid() && Counted() && Lost(node)
      ensures Stored() == old(Stored()) - {node.key}
      ensures old(Exact()) ==> Exact()
      ensures forall p: Prefix | old(allocated(p)) :: p.refCount - Holders(p) == old(p.refCount) - old(Holders(p))
    {
      if node.prefix != null {
        HolderCounted(node);
      }
      Release(node, node.prefix);
      StoredLost(node);
      RefsLost(node);
      CountedLost(node);
      if old(Exact()) { ExactLost(node); }
    }
  }
}
