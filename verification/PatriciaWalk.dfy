/** `PATRICIA_WALK` with its stack, `patricia_walk_inorder`, and `Clear_Patricia`. */
module PatriciaWalk {
  import opened BitStrings
  import opened KeySets
  import opened PatriciaTrie
  import opened TrieLinks
  import opened TrieNodes
  import opened TrieValues
  import opened WalkOrder

  // the stack and the cursor hold the nodes of the frontier
  ghost predicate Cursor(nodes: NodeMap, stack: array<Node?>, sp: nat, cur: Node?, f: seq<Key>)
    reads stack
  {
    && stack.Length == 129 && sp <= 129 && |f| == sp + (if cur == null then 0 else 1) && (cur == null ==> sp == 0)
    && (cur != null ==> cur.key == f[sp] && Has(nodes, cur))
    && forall i | 0 <= i < sp :: f[i] in nodes && stack[i] == nodes[f[i]]
  }

  ghost predicate Named(nodes: NodeMap) {
    forall k | k in nodes :: nodes[k].key == k
  }

  // the stack holds the nodes of all of the frontier but the cursor
  ghost predicate Stacked(nodes: NodeMap, stack: array<Node?>, sp: nat, f: seq<Key>)
    reads stack
  {
    && stack.Length == 129 && |f| == sp + 1 <= 130 && Named(nodes)
    && forall i | 0 <= i < sp :: f[i] in nodes && stack[i] == nodes[f[i]]
  }

  ghost predicate Offspring(nodes: NodeMap, k: Key, l: Node?, r: Node?) {
    && Known(nodes, l) && Known(nodes, r) && Kids(k, LinkTo(l), LinkTo(r))
    && (l != null ==> |l.key.s| <= 128)
  }

  // PATRICIA_WALK_BREAK: on to what is on top of the stack
  method WalkBreak(stack: array<Node?>, sp: nat, ghost nodes: NodeMap, ghost f: seq<Key>, ghost ds: seq<nat>)
    returns (sp': nat, next: Node?, ghost ds': seq<nat>)
    requires Stacked(nodes, stack, sp, f) && Frontier(f, ds)
    ensures Cursor(nodes, stack, sp', next, Front(f)) && Frontier(Front(f), ds')
  {
    FrontFrontier(f, ds);
    ds' := ds[..|f| - 1];
    if sp != 0 {
      sp' := sp - 1;
      next := stack[sp'];
    } else {
      sp', next := 0, null;
    }
  }

  // PATRICIA_WALK_END: on to the left child, with the right one on the stack
  method WalkEnd(stack: array<Node?>, sp: nat, l: Node?, r: Node?, ghost nodes: NodeMap, ghost f: seq<Key>,
      ghost ds: seq<nat>)
    returns (sp': nat, next: Node?, ghost ds': seq<nat>)
    requires Stacked(nodes, stack, sp, f) && Frontier(f, ds)
    requires Offspring(nodes, Last(f), l, r)
    modifies stack
    ensures Cursor(nodes, stack, sp', next, Onward(f, LinkTo(l), LinkTo(r)))
    ensures Frontier(Onward(f, LinkTo(l), LinkTo(r)), ds')
  {
    StackBound(f, ds, 0);
    NextFrontier(f, ds, LinkTo(l), LinkTo(r));
    ds' := Depths(f, ds, LinkTo(l), LinkTo(r));
    sp' := sp;
    if l != null {
      if r != null {
        stack[sp'] := r;
        sp' := sp' + 1;
      }
      next := l;
    } else if r != null {
      next := r;
    } else {
      ghost var ds2;
      assert Onward(f, LinkTo(l), LinkTo(r)) == Front(f);
      sp', next, ds2 := WalkBreak(stack, sp, nodes, f, ds);
    }
  }

  ghost function CutKeys(nodes: NodeMap, S: set<Key>, stop: Node -> bool): set<Key> {
    set k | k in S && k in nodes && stop(nodes[k])
  }

  lemma Own(t: Patricia)
    requires t.Linked()
    ensures Named(t.nodes)
  {
    forall k | k in t.nodes ensures t.nodes[k].key == k { assert t.NodeOk(k); }
  }

  // what a node tells the walk
  lemma Down(t: Patricia, n: Node)
    requires t.Linked() && t.maxbits <= 128 && Has(t.nodes, n)
    ensures Offspring(t.nodes, n.key, n.l, n.r)
    ensures LinkOk(t.nodes.Keys, n.key, false, LinkTo(n.l)) && LinkOk(t.nodes.Keys, n.key, true, LinkTo(n.r))
    ensures |n.key.s| <= 128
  {
    assert t.NodeOk(n.key);
    t.Below(n, false);
  }

  // the frontier at the start
  ghost function Root(head: Node?): seq<Key> {
    if head == null then [] else [head.key]
  }

  ghost function RootDepth(head: Node?): seq<nat> {
    if head == null then [] else [0]
  }

  lemma Start(t: Patricia, cut: set<Key>)
    requires t.Linked()
    ensures Frontier(Root(t.head), RootDepth(t.head)) && Visited(t.Stored(), cut, Root(t.head), [])
    ensures forall k | k in t.nodes :: Under(Root(t.head), k)
  {
    forall k | k in t.nodes ensures Under(Root(t.head), k) {
      assert Covers(Root(t.head)[0], k);
    }
  }

  // the nodes visited, and their keys
  ghost predicate Listed(nodes: NodeMap, out: seq<Node>, keys: seq<Key>) {
    |keys| == |out| && forall i | 0 <= i < |out| :: keys[i] in nodes && out[i] == nodes[keys[i]]
  }

  // the end of the loop body, by PATRICIA_WALK_BREAK or by PATRICIA_WALK_END
  method Step(t: Patricia, stack: array<Node?>, sp: nat, node: Node, halt: bool,
              ghost S: set<Key>, ghost cut: set<Key>, ghost f: seq<Key>, ghost ds: seq<nat>, ghost keys: seq<Key>)
    returns (sp': nat, next: Node?, ghost f': seq<Key>, ghost ds': seq<nat>)
    requires t.Valid() && S == t.Stored()
    requires Cursor(t.nodes, stack, sp, node, f) && Frontier(f, ds) && Visited(S, cut, f, keys)
    requires halt ==> node.prefix != null
    requires node.key in cut <==> halt
    modifies stack
    ensures Cursor(t.nodes, stack, sp', next, f') && Frontier(f', ds')
    ensures Visited(S, cut, f', if node.prefix != null then keys + [node.key] else keys)
    ensures |Pending(t.nodes.Keys, f')| < |Pending(t.nodes.Keys, f)|
  {
    ghost var K, l, r := t.nodes.Keys, LinkTo(node.l), LinkTo(node.r);
    Own(t);
    Down(t, node);
    assert Last(f) == node.key;
    StackBound(f, ds, 0);
    if halt {
      VisitSkip(S, cut, f, ds, keys);
      PendingSkip(K, f, ds);
      sp', next, ds' := WalkBreak(stack, sp, t.nodes, f, ds);
      f' := Front(f);
    } else {
      VisitStep(K, S, cut, f, ds, l, r, keys);
      PendingNext(K, f, ds, l, r);
      sp', next, ds' := WalkEnd(stack, sp, node.l, node.r, t.nodes, f, ds);
      f' := Onward(f, l, r);
    }
  }

  method Visit(t: Patricia, node: Node, stop: Node -> bool, out: seq<Node>, ghost keys: seq<Key>)
    returns (out': seq<Node>, halt: bool, ghost keys': seq<Key>)
    requires t.Valid() && Has(t.nodes, node) && Listed(t.nodes, out, keys)
    ensures Listed(t.nodes, out', keys') && keys' == if node.prefix != null then keys + [node.key] else keys
    ensures halt <==> node.prefix != null && stop(node)
  {
    out', keys', halt := out, keys, false;
    if node.prefix != null {
      out' := out + [node];
      keys' := keys + [node.key];
      halt := stop(node);
    }
  }

  // the state of a walk
  ghost predicate Walking(nodes: NodeMap, stack: array<Node?>, sp: nat, cur: Node?, S: set<Key>, cut: set<Key>,
                          f: seq<Key>, ds: seq<nat>, out: seq<Node>, keys: seq<Key>)
    reads stack
  {
    Cursor(nodes, stack, sp, cur, f) && Frontier(f, ds) && Visited(S, cut, f, keys) && Listed(nodes, out, keys)
  }

  // the loop body
  method Round(t: Patricia, stop: Node -> bool, stack: array<Node?>, sp: nat, node: Node, out: seq<Node>,
               ghost S: set<Key>, ghost cut: set<Key>, ghost f: seq<Key>, ghost ds: seq<nat>, ghost keys: seq<Key>)
    returns (sp': nat, next: Node?, out': seq<Node>, ghost f': seq<Key>, ghost ds': seq<nat>, ghost keys': seq<Key>)
    requires t.Valid() && S == t.Stored() && cut == CutKeys(t.nodes, S, stop)
    requires Walking(t.nodes, stack, sp, node, S, cut, f, ds, out, keys)
    modifies stack
    ensures Walking(t.nodes, stack, sp', next, S, cut, f', ds', out', keys')
    ensures |Pending(t.nodes.Keys, f')| < |Pending(t.nodes.Keys, f)|
  {
    var halt;
    out', halt, keys' := Visit(t, node, stop, out, keys);
    sp', next, f', ds' := Step(t, stack, sp, node, halt, S, cut, f, ds, keys);
  }

  method WalkAll(t: Patricia, stop: Node -> bool, stack: array<Node?>, ghost S: set<Key>, ghost cut: set<Key>)
    returns (out: seq<Node>, ghost keys: seq<Key>)
    requires t.Valid() && S == t.Stored() && cut == CutKeys(t.nodes, S, stop)
    requires Walking(t.nodes, stack, 0, t.head, S, cut, Root(t.head), RootDepth(t.head), [], [])
    modifies stack
    ensures Listed(t.nodes, out, keys) && Visited(S, cut, [], keys)
  {
    var sp, node := 0, t.head;
    out, keys := [], [];
    ghost var f, ds := Root(t.head), RootDepth(t.head);
    while node != null
      invariant Walking(t.nodes, stack, sp, node, S, cut, f, ds, out, keys)
      decreases |Pending(t.nodes.Keys, f)|
    {
      sp, node, out, f, ds, keys := Round(t, stop, stack, sp, node, out, S, cut, f, ds, keys);
    }
  }

  lemma WalkDone(S: set<Key>, cut: set<Key>, keys: seq<Key>)
    requires Visited(S, cut, [], keys)
    ensures Ascending(keys)
    ensures forall k :: k in keys <==> k in S && !Hidden(S, cut, k)
  {
  }

  /** The walk over the prefix nodes; where `stop` holds, the body ends in PATRICIA_WALK_BREAK. */
  method Walk(t: Patricia, stop: Node -> bool) returns (out: seq<Node>, ghost keys: seq<Key>)
    requires t.Valid()
    ensures Listed(t.nodes, out, keys) && Ascending(keys)
    ensures forall k :: k in keys <==> k in t.Stored() && !Hidden(t.Stored(), CutKeys(t.nodes, t.Stored(), stop), k)
  {
    ghost var S, cut := t.Stored(), CutKeys(t.nodes, t.Stored(), stop);
    Start(t, cut);
    var stack := new Node?[129];
    out, keys := WalkAll(t, stop, stack, S, cut);
    WalkDone(S, cut, keys);
  }

  /** `patricia_process`: every stored prefix once, in lexicographic order. */
  method Process(t: Patricia) returns (out: seq<Node>, ghost keys: seq<Key>)
    requires t.Valid()
    ensures Listed(t.nodes, out, keys) && Ascending(keys)
    ensures forall k :: k in keys <==> k in t.Stored()
  {
    out, keys := Walk(t, n => false);
    forall k ensures k in keys <==> k in t.Stored() {
      assert CutKeys(t.nodes, t.Stored(), n => false) == {};
    }
  }

  // ---- patricia_walk_inorder ----

  // the order of the recursion: what is left of a prefix, the prefix itself, what is right of it
  ghost predicate Infix(a: Key, b: Key) {
    Dir(b, false, a) || Dir(a, true, b) || exists d: nat :: Parts(a, b, d)
  }

  ghost predicate InOrder(keys: seq<Key>) {
    forall i, j | 0 <= i < j < |keys| :: Infix(keys[i], keys[j])
  }

  ghost predicate AllDir(k: Key, b: bool, keys: seq<Key>) {
    forall m | m in keys :: Dir(k, b, m)
  }

  lemma InOrderJoin(k: Key, left: seq<Key>, self: seq<Key>, right: seq<Key>)
    requires InOrder(left) && InOrder(right) && AllDir(k, false, left) && AllDir(k, true, right)
    requires self == [] || self == [k]
    ensures InOrder(left + self + right)
  {
    forall a, b | a in left && b in right ensures Infix(a, b) {
      DirParts(k, a, b);
    }
  }

  lemma InfixOnce(keys: seq<Key>, i: nat, j: nat)
    requires InOrder(keys) && i < j < |keys|
    ensures keys[i] != keys[j]
  {
    assert Infix(keys[i], keys[j]);
  }

  lemma {:induction false} CountOnce(keys: seq<Key>)
    requires InOrder(keys)
    ensures |set k | k in keys| == |keys|
  {
    if keys != [] {
      var front, last := keys[..|keys| - 1], keys[|keys| - 1];
      CountOnce(front);
      forall i | 0 <= i < |front| ensures front[i] != last { InfixOnce(keys, i, |keys| - 1); }
      assert (set k | k in keys) == (set k | k in front) + {last};
    }
  }

  // what is stored in the subtree of node
  ghost function StoredUnder(t: Patricia, node: Node): set<Key>
    reads t, t.nodes.Values
  {
    set k | k in t.Stored() && Covers(node.key, k)
  }

  lemma CountUnder(t: Patricia, node: Node, keys: seq<Key>)
    requires InOrder(keys) && forall k :: k in keys <==> Within(t, node, k)
    ensures |StoredUnder(t, node)| == |keys|
  {
    CountOnce(keys);
    assert StoredUnder(t, node) == set k | k in keys;
  }

  // from the head, that is all there is
  lemma AllUnder(t: Patricia)
    requires t.Linked() && t.head != null
    ensures StoredUnder(t, t.head) == t.Stored()
  {
  }

  // k is stored in the subtree of node
  ghost predicate Within(t: Patricia, node: Node, k: Key)
    reads t, t.nodes.Values
  {
    k in t.Stored() && Covers(node.key, k)
  }

  lemma WithinParts(t: Patricia, node: Node, k: Key)
    requires t.Linked() && t.maxbits <= 128 && Has(t.nodes, node) && Within(t, node, k)
    ensures (k == node.key && node.prefix != null)
         || (node.l != null && Within(t, node.l, k)) || (node.r != null && Within(t, node.r, k))
  {
    Down(t, node);
    if |k.s| == |node.key.s| {
      SameLength(node.key, k);
    } else {
      assert Dir(node.key, k.s[|node.key.s|], k);
    }
  }

  lemma WithinAll(t: Patricia, node: Node, left: seq<Key>, self: seq<Key>, right: seq<Key>)
    requires t.Linked() && t.maxbits <= 128 && Has(t.nodes, node)
    requires forall k :: k in left <==> node.l != null && Within(t, node.l, k)
    requires forall k :: k in right <==> node.r != null && Within(t, node.r, k)
    requires self == if node.prefix != null then [node.key] else []
    ensures forall k :: k in left + self + right <==> Within(t, node, k)
    ensures AllDir(node.key, false, left) && AllDir(node.key, true, right)
  {
    Down(t, node);
    forall k ensures k in left + self + right <==> Within(t, node, k) {
      if Within(t, node, k) { WithinParts(t, node, k); }
    }
  }

  lemma ListedJoin(nodes: NodeMap, a: seq<Node>, b: seq<Node>, ka: seq<Key>, kb: seq<Key>)
    requires Listed(nodes, a, ka) && Listed(nodes, b, kb)
    ensures Listed(nodes, a + b, ka + kb)
  {
  }

  method WalkInorder(t: Patricia, node: Node) returns (n: nat, out: seq<Node>, ghost keys: seq<Key>)
    requires t.Valid() && Has(t.nodes, node)
    ensures n == |out| == |StoredUnder(t, node)| && (node == t.head ==> n == |t.Stored()|)
    ensures Listed(t.nodes, out, keys) && InOrder(keys)
    ensures forall k :: k in keys <==> Within(t, node, k)
    decreases 128 - node.bit
  {
    n, out := 0, [];
    t.Below(node, false);
    t.Below(node, true);
    ghost var left, self, right: seq<Key> := [], [], [];
    if node.l != null {
      n, out, left := WalkInorder(t, node.l);
    }
    if node.prefix != null {
      self := [node.key];
      ListedJoin(t.nodes, out, [node], left, self);
      out := out + [node];
      n := n + 1;
    }
    if node.r != null {
      var m, more;
      m, more, right := WalkInorder(t, node.r);
      ListedJoin(t.nodes, out, more, left + self, right);
      out, n := out + more, n + m;
    }
    keys := left + self + right;
    WithinAll(t, node, left, self, right);
    InOrderJoin(node.key, left, self, right);
    CountUnder(t, node, keys);
    if node == t.head { AllUnder(t); }
  }

  // ---- Clear_Patricia ----

  // the keys at which a prefix is held, for every prefix of the trie
  ghost predicate Holding(t: Patricia, held: map<Prefix, set<Key>>)
    reads t`nodes, t.nodes.Values`prefix
  {
    && (forall p | p in held :: held[p] == t.HeldAt(p))
    && (forall k | k in t.nodes && t.nodes[k].prefix != null :: t.nodes[k].prefix in held)
  }

  // what the count of each prefix will be once the nodes that are still to be freed have let go of it
  ghost predicate OwedAt(held: map<Prefix, set<Key>>, f: seq<Key>, due: map<Prefix, int>, p: Prefix)
    requires p in held
    reads p`refCount
  {
    p in due && p.refCount - |Pending(held[p], f)| == due[p] >= 0
  }

  ghost predicate Owed(held: map<Prefix, set<Key>>, f: seq<Key>, due: map<Prefix, int>)
    reads held.Keys`refCount
  {
    forall p {:trigger OwedAt(held, f, due, p)} | p in held :: OwedAt(held, f, due, p)
  }

  // from the frontier f to the frontier g, the key c is freed
  ghost predicate DropsAt(held: map<Prefix, set<Key>>, c: Key, f: seq<Key>, g: seq<Key>, p: Prefix)
    requires p in held
  {
    |Pending(held[p], g)| == |Pending(held[p], f)| - if c in held[p] then 1 else 0
  }

  ghost predicate Drops(held: map<Prefix, set<Key>>, c: Key, f: seq<Key>, g: seq<Key>) {
    forall p {:trigger DropsAt(held, c, f, g, p)} | p in held :: DropsAt(held, c, f, g, p)
  }

  lemma PendingStep(K: set<Key>, A: set<Key>, f: seq<Key>, ds: seq<nat>, l: Link, r: Link)
    requires f != [] && Frontier(f, ds) && A <= K && Last(f) in K
    requires LinkOk(K, Last(f), false, l) && LinkOk(K, Last(f), true, r)
    ensures Last(f) in A ==> |Pending(A, Onward(f, l, r))| == |Pending(A, f)| - 1
    ensures Last(f) !in A ==> |Pending(A, Onward(f, l, r))| == |Pending(A, f)|
  {
    var c, g := Last(f), Onward(f, l, r);
    SelfUnder(f);
    forall k | k in A ensures Under(g, k) <==> Under(f, k) && k != c {
      NextUnder(K, f, ds, l, r, k);
    }
    if c in A {
      assert Pending(A, f) == Pending(A, g) + {c};
    } else {
      assert Pending(A, f) == Pending(A, g);
    }
  }

  lemma FreedStep(K: set<Key>, held: map<Prefix, set<Key>>, f: seq<Key>, ds: seq<nat>, l: Link, r: Link,
      freed: seq<Key>)
    requires f != [] && Frontier(f, ds) && Visited(K, {}, f, freed) && Last(f) in K
    requires LinkOk(K, Last(f), false, l) && LinkOk(K, Last(f), true, r)
    requires forall p | p in held :: held[p] <= K
    ensures Visited(K, {}, Onward(f, l, r), freed + [Last(f)])
    ensures |Pending(K, Onward(f, l, r))| == |Pending(K, f)| - 1
    ensures Drops(held, Last(f), f, Onward(f, l, r))
  {
    VisitStep(K, K, {}, f, ds, l, r, freed);
    PendingStep(K, K, f, ds, l, r);
    forall p | p in held ensures DropsAt(held, Last(f), f, Onward(f, l, r), p) {
      PendingStep(K, held[p], f, ds, l, r);
    }
  }

  // one node is freed, and lets go of its prefix
  method Free(t: Patricia, node: Node, ghost held: map<Prefix, set<Key>>, ghost f: seq<Key>, ghost g: seq<Key>,
              ghost due: map<Prefix, int>)
    requires Owed(held, f, due) && Drops(held, node.key, f, g)
    requires node.prefix != null ==> node.prefix in held && node.key in held[node.prefix]
    requires forall p | p in held && node.key in held[p] :: p == node.prefix
    modifies t`numActive, held.Keys`refCount
    ensures Owed(held, g, due) && t.numActive == old(t.numActive) - 1
  {
    if node.prefix != null {
      assert OwedAt(held, f, due, node.prefix) && DropsAt(held, node.key, f, g, node.prefix);
      node.prefix.Deref();
    }
    t.numActive := t.numActive - 1;
    forall p | p in held ensures OwedAt(held, g, due, p) {
      assert old(OwedAt(held, f, due, p)) && DropsAt(held, node.key, f, g, p);
    }
  }

  lemma HolderOf(t: Patricia, node: Node, held: map<Prefix, set<Key>>)
    requires Holding(t, held) && Has(t.nodes, node)
    ensures node.prefix != null ==> node.prefix in held && node.key in held[node.prefix]
    ensures forall p | p in held && node.key in held[p] :: p == node.prefix
    ensures forall p | p in held :: held[p] <= t.nodes.Keys
  {
  }

  // what the cursor and the stack say of the frontier
  lemma CursorPlace(t: Patricia, stack: array<Node?>, sp: nat, node: Node, f: seq<Key>, ds: seq<nat>)
    requires t.Linked() && t.maxbits <= 128 && Cursor(t.nodes, stack, sp, node, f) && Frontier(f, ds)
    ensures f != [] && Last(f) == node.key && Stacked(t.nodes, stack, sp, f)
    ensures Offspring(t.nodes, node.key, node.l, node.r)
    ensures LinkOk(t.nodes.Keys, node.key, false, LinkTo(node.l))
    ensures LinkOk(t.nodes.Keys, node.key, true, LinkTo(node.r))
  {
    assert Last(f) == node.key;
    Own(t);
    Down(t, node);
    StackBound(f, ds, 0);
  }

  // the state of the clearing, but for the stack
  ghost predicate Freeing(t: Patricia, f: seq<Key>, freed: seq<Key>, held: map<Prefix, set<Key>>, due: map<Prefix, int>)
    reads t, t.nodes.Values, held.Keys`refCount
  {
    && t.Linked() && t.maxbits <= 128 && Holding(t, held) && Owed(held, f, due)
    && Visited(t.nodes.Keys, {}, f, freed) && t.numActive == |Pending(t.nodes.Keys, f)|
  }

  // the loop body up to the end of the node
  method FreeTurn(t: Patricia, node: Node, ghost f: seq<Key>, ghost ds: seq<nat>, ghost l: Link, ghost r: Link,
                  ghost freed: seq<Key>, ghost held: map<Prefix, set<Key>>, ghost due: map<Prefix, int>)
    requires Freeing(t, f, freed, held, due) && f != [] && Frontier(f, ds) && Last(f) == node.key && Has(t.nodes, node)
    requires LinkOk(t.nodes.Keys, node.key, false, l) && LinkOk(t.nodes.Keys, node.key, true, r)
    modifies t`numActive, held.Keys`refCount
    ensures Freeing(t, Onward(f, l, r), freed + [node.key], held, due)
    ensures |Pending(t.nodes.Keys, Onward(f, l, r))| < |Pending(t.nodes.Keys, f)|
  {
    HolderOf(t, node, held);
    FreedStep(t.nodes.Keys, held, f, ds, l, r, freed);
    Free(t, node, held, f, Onward(f, l, r), due);
  }

  ghost predicate Cleared(t: Patricia, stack: array<Node?>, sp: nat, cur: Node?, f: seq<Key>, ds: seq<nat>,
      freed: seq<Key>, held: map<Prefix, set<Key>>, due: map<Prefix, int>)
    reads stack, t, t.nodes.Values, held.Keys`refCount
  {
    Freeing(t, f, freed, held, due) && Cursor(t.nodes, stack, sp, cur, f) && Frontier(f, ds)
  }

  method FreeCursor(t: Patricia, stack: array<Node?>, sp: nat, node: Node, ghost f: seq<Key>, ghost ds: seq<nat>,
                    ghost l: Link, ghost r: Link, ghost freed: seq<Key>, ghost held: map<Prefix, set<Key>>,
                    ghost due: map<Prefix, int>)
    requires Cleared(t, stack, sp, node, f, ds, freed, held, due) && l == LinkTo(node.l) && r == LinkTo(node.r)
    modifies t`numActive, held.Keys`refCount
    ensures f != [] && Freeing(t, Onward(f, l, r), freed + [node.key], held, due)
    ensures |Pending(t.nodes.Keys, Onward(f, l, r))| < |Pending(t.nodes.Keys, f)|
    ensures Stacked(t.nodes, stack, sp, f) && Last(f) == node.key && Offspring(t.nodes, node.key, node.l, node.r)
  {
    CursorPlace(t, stack, sp, node, f, ds);
    FreeTurn(t, node, f, ds, l, r, freed, held, due);
  }

  // the children are read before the node is freed
  method FreeNext(t: Patricia, stack: array<Node?>, sp: nat, node: Node, ghost f: seq<Key>, ghost ds: seq<nat>,
                  ghost freed: seq<Key>, ghost held: map<Prefix, set<Key>>, ghost due: map<Prefix, int>)
    returns (sp': nat, next: Node?, ghost f': seq<Key>, ghost ds': seq<nat>, ghost freed': seq<Key>)
    requires Cleared(t, stack, sp, node, f, ds, freed, held, due)
    modifies stack, t`numActive, held.Keys`refCount
    ensures Cleared(t, stack, sp', next, f', ds', freed', held, due)
    ensures |Pending(t.nodes.Keys, f')| < |Pending(t.nodes.Keys, f)|
  {
    var l, r := node.l, node.r;
    FreeCursor(t, stack, sp, node, f, ds, LinkTo(l), LinkTo(r), freed, held, due);
    f', freed' := Onward(f, LinkTo(l), LinkTo(r)), freed + [node.key];
    sp', next, ds' := FreeMove(t, stack, sp, l, r, f, ds, freed', held, due);
  }

  method FreeMove(t: Patricia, stack: array<Node?>, sp: nat, l: Node?, r: Node?, ghost f: seq<Key>, ghost ds: seq<nat>,
                  ghost freed: seq<Key>, ghost held: map<Prefix, set<Key>>, ghost due: map<Prefix, int>)
    returns (sp': nat, next: Node?, ghost ds': seq<nat>)
    requires f != [] && Frontier(f, ds) && Stacked(t.nodes, stack, sp, f) && Offspring(t.nodes, Last(f), l, r)
    requires Freeing(t, Onward(f, LinkTo(l), LinkTo(r)), freed, held, due)
    modifies stack
    ensures Cleared(t, stack, sp', next, Onward(f, LinkTo(l), LinkTo(r)), ds', freed, held, due)
  {
    sp', next, ds' := WalkEnd(stack, sp, l, r, t.nodes, f, ds);
  }

  method FreeAll(t: Patricia, stack: array<Node?>, ghost held: map<Prefix, set<Key>>, ghost due: map<Prefix, int>)
    returns (ghost freed: seq<Key>)
    requires Cleared(t, stack, 0, t.head, Root(t.head), RootDepth(t.head), [], held, due)
    modifies stack, t`numActive, held.Keys`refCount
    ensures Owed(held, [], due) && Visited(t.nodes.Keys, {}, [], freed) && t.numActive == 0
  {
    freed := [];
    ghost var f, ds := Root(t.head), RootDepth(t.head);
    var sp, node := 0, t.head;
    while node != null
      invariant Cleared(t, stack, sp, node, f, ds, freed, held, due)
      decreases |Pending(t.nodes.Keys, f)|
    {
      sp, node, f, ds, freed := FreeNext(t, stack, sp, node, f, ds, freed, held, due);
    }
    assert f == [] && Pending(t.nodes.Keys, []) == {};
  }

  /** `Clear_Patricia`: every node is freed once, and every prefix loses the references of its nodes. */
  method Clear(t: Patricia) returns (ghost freed: seq<Key>)
    requires t.Valid() && t.Counted()
    modifies t`numActive, t.Held()`refCount
    ensures t.numActive == 0
    ensures EachOnce(t.nodes.Keys, freed)
    ensures forall p: Prefix | p in old(t.Held()) :: p.refCount == old(p.refCount) - old(t.Holders(p))
  {
    ghost var held := map p: Prefix | p in t.Held() :: t.HeldAt(p);
    ghost var due := map p: Prefix | p in t.Held() :: p.refCount - t.Holders(p);
    freed := [];
    StartAll(t, held, due);
    if t.head != null {
      freed := ClearNew(t, held, due);
    }
    Settled(t.nodes.Keys, held, due, freed);
  }

  method ClearNew(t: Patricia, ghost held: map<Prefix, set<Key>>, ghost due: map<Prefix, int>)
    returns (ghost freed: seq<Key>)
    requires Freeing(t, Root(t.head), [], held, due) && Frontier(Root(t.head), RootDepth(t.head))
    modifies t`numActive, held.Keys`refCount
    ensures Owed(held, [], due) && Visited(t.nodes.Keys, {}, [], freed) && t.numActive == 0
  {
    var stack := new Node?[129];
    freed := FreeAll(t, stack, held, due);
  }

  ghost predicate EachOnce(K: set<Key>, keys: seq<Key>) {
    Ascending(keys) && forall k :: k in keys <==> k in K
  }

  lemma StartAll(t: Patricia, held: map<Prefix, set<Key>>, due: map<Prefix, int>)
    requires t.Valid() && t.Counted()
    requires held == map p: Prefix | p in t.Held() :: t.HeldAt(p)
    requires due == map p: Prefix | p in t.Held() :: p.refCount - t.Holders(p)
    ensures Freeing(t, Root(t.head), [], held, due) && Frontier(Root(t.head), RootDepth(t.head))
  {
    var f := Root(t.head);
    Start(t, {});
    assert Pending(t.nodes.Keys, f) == t.nodes.Keys;
    forall p | p in held ensures OwedAt(held, f, due, p) {
      assert Pending(held[p], f) == t.HeldAt(p);
    }
  }

  lemma Settled(K: set<Key>, held: map<Prefix, set<Key>>, due: map<Prefix, int>, freed: seq<Key>)
    requires Owed(held, [], due) && Visited(K, {}, [], freed)
    ensures EachOnce(K, freed)
    ensures forall p | p in held :: p in due && p.refCount == due[p]
  {
    forall p | p in held ensures p in due && p.refCount == due[p] {
      assert OwedAt(held, [], due, p) && Pending(held[p], []) == {};
    }
  }
}
