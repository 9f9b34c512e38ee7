/** The ageing sweep of `lisp_maptable_thread`, which deletes from the trie while it walks it. */
module MapSweep {
  import opened BitStrings
  import opened CacheSweep
  import CanonicalForm
  import opened KeySets
  import opened MapCache
  import opened MapTable
  import opened PatriciaWalk
  import opened TrieLinks
  import opened TrieNodes
  import opened TrieValues
  import opened WalkOrder

  lemma EntryAt(t: Table, pn: Node)
    requires t.Valid() && Has(t.tree.nodes, pn) && pn.prefix != null
    ensures pn.key in t.content && pn.data == t.content[pn.key] && t.content[pn.key].key == pn.key
    ensures pn.key in t.Entries() && Best(t.Entries(), pn.key) == To(pn.key)
    ensures pn.prefix.key == pn.key && pn.prefix.Ok()
  {
    assert pn.key in t.tree.Stored();
    assert t.DataOk(pn.key) && t.tree.TagOk(pn.key, {});
  }

  method Decrement(t: Table, mn: MapNode)
    requires t.Valid() && mn.key in t.content && t.content[mn.key] == mn
    modifies mn`ttl
    ensures t.Valid() && mn.ttl == old(mn.ttl) - TTL_CHECK_INTERVAL
    ensures t.Entries() == old(t.Entries())[mn.key := old(t.Entries())[mn.key].(ttl := mn.ttl)]
  {
    mn.ttl := mn.ttl - TTL_CHECK_INTERVAL;
    forall k | k in t.content && k != mn.key ensures t.content[k] != mn {
      assert t.DataOk(k);
    }
  }

  // delete_mapnode, called with the prefix of the node itself
  method DeleteOwn(t: Table, pn: Node)
    requires t.Valid() && Has(t.tree.nodes, pn) && pn.prefix != null
    modifies t`content, t.tree`head, t.tree`nodes, t.tree`numActive, t.tree.Held()`refCount
    modifies t.tree.nodes.Values`l, t.tree.nodes.Values`r, t.tree.nodes.Values`parent
    modifies t.tree.nodes.Values`prefix, t.tree.nodes.Values`data
    ensures t.Valid() && t.Entries() == old(t.Entries()) - {pn.key}
    ensures pn.l == old(pn.l) && pn.r == old(pn.r) && t.Kept(pn.key)
    ensures forall k | k in t.content :: k in old(t.content) && t.content[k] == old(t.content)[k]
  {
    EntryAt(t, pn);
    var gone, data := t.DeleteBest(pn.prefix);
  }

  lemma AgedTwice(e: Cache, c: Key, d: Cache, a: Cache)
    requires c in e && d == e[c := e[c].(ttl := e[c].ttl - TTL_CHECK_INTERVAL)]
    requires d[c].ttl <= 0 ==> a == d - {c}
    requires d[c].ttl > 0 ==> a == d
    ensures a == Aged(e, c)
  {
  }

  // the entry goes when its time is over
  method Expire(t: Table, pn: Node, mn: MapNode)
    requires t.Valid() && Has(t.tree.nodes, pn) && pn.prefix != null && pn.data == mn
    modifies t`content, t.tree`head, t.tree`nodes, t.tree`numActive, t.tree.Held()`refCount
    modifies t.tree.nodes.Values`l, t.tree.nodes.Values`r, t.tree.nodes.Values`parent
    modifies t.tree.nodes.Values`prefix, t.tree.nodes.Values`data
    ensures t.Valid()
    ensures mn.ttl <= 0 ==> t.Entries() == old(t.Entries()) - {pn.key}
    ensures mn.ttl > 0 ==> t.Entries() == old(t.Entries())
    ensures pn.l == old(pn.l) && pn.r == old(pn.r) && t.Kept(pn.key)
    ensures forall k | k in t.content :: k in old(t.content) && t.content[k] == old(t.content)[k]
  {
    if mn.ttl <= 0 {
      DeleteOwn(t, pn);
    }
  }

  // the body of the walk at an entry that is not static
  method AgeEntry(t: Table, pn: Node)
    requires t.Valid() && Has(t.tree.nodes, pn) && pn.prefix != null
    modifies t`content, t.content.Values`ttl, t.tree`head, t.tree`nodes, t.tree`numActive, t.tree.Held()`refCount
    modifies t.tree.nodes.Values`l, t.tree.nodes.Values`r, t.tree.nodes.Values`parent
    modifies t.tree.nodes.Values`prefix, t.tree.nodes.Values`data
    ensures t.Valid() && t.Entries() == Aged(old(t.Entries()), pn.key)
    ensures pn.l == old(pn.l) && pn.r == old(pn.r) && t.Kept(pn.key)
    ensures forall k | k in t.content :: k in old(t.content) && t.content[k] == old(t.content)[k]
  {
    EntryAt(t, pn);
    var mn := pn.data as MapNode;
    Decrement(t, mn);
    ghost var d := t.Entries();
    Expire(t, pn, mn);
    AgedTwice(old(t.Entries()), pn.key, d, t.Entries());
  }

  // what the sweep may write to
  ghost predicate Confined(t: Table, N: set<Node>, C: set<MapNode>, P: set<Prefix?>, K: set<Key>)
    reads t, t.tree, t.tree.nodes.Values`prefix
  {
    && (forall k | k in t.tree.nodes :: k in K && t.tree.nodes[k] in N)
    && (forall k | k in t.tree.nodes && t.tree.nodes[k].prefix != null :: t.tree.nodes[k].prefix in P)
    && (forall k | k in t.content :: t.content[k] in C)
  }

  // true at a static entry, where the walk turns away
  method SweepBody(t: Table, pn: Node, ghost N: set<Node>, ghost C: set<MapNode>, ghost P: set<Prefix?>,
      ghost K: set<Key>)
    returns (halt: bool)
    requires t.Valid() && Has(t.tree.nodes, pn) && Confined(t, N, C, P, K)
    modifies t`content, t.tree`head, t.tree`nodes, t.tree`numActive, C`ttl, P`refCount
    modifies N`l, N`r, N`parent, N`prefix, N`data
    ensures t.Valid() && Confined(t, N, C, P, K)
    ensures halt ==> pn.key in t.Entries() && t.Entries()[pn.key].state == Static && t.Entries() == old(t.Entries())
    ensures !halt ==> pn.key in old(t.Entries()) ==> old(t.Entries())[pn.key].state != Static
    ensures !halt ==> t.Entries() == Aged(old(t.Entries()), pn.key)
    ensures pn.l == old(pn.l) && pn.r == old(pn.r) && t.Kept(pn.key)
  {
    if pn.prefix != null {
      EntryAt(t, pn);
      if (pn.data as MapNode).state == Static {
        return true;
      }
      AgeEntry(t, pn);
    } else {
      assert pn.key in t.content ==> t.DataOk(pn.key);
    }
    return false;
  }

  lemma PendingLess(K: set<Key>, f: seq<Key>, g: seq<Key>)
    requires f != [] && Last(f) in K && !Under(g, Last(f)) && forall k | Under(g, k) :: Under(f, k)
    ensures |Pending(K, g)| < |Pending(K, f)|
  {
    SelfUnder(f);
    CanonicalForm.Smaller(Pending(K, g), Pending(K, f) - {Last(f)});
  }

  lemma OnwardLess(N: set<Key>, K: set<Key>, f: seq<Key>, ds: seq<nat>, l: Link, r: Link)
    requires f != [] && Frontier(f, ds) && Last(f) in N && N <= K
    requires LinkOk(N, Last(f), false, l) && LinkOk(N, Last(f), true, r)
    ensures |Pending(K, Onward(f, l, r))| < |Pending(K, f)|
  {
    forall k | Under(Onward(f, l, r), k) ensures Under(f, k) && k != Last(f) {
      NextLater(N, f, ds, l, r, k);
      BeforeStrict(Last(f), k);
    }
    PendingLess(K, f, Onward(f, l, r));
  }

  // what the removal of the cursor leaves: the rest of the frontier and the children
  lemma StillThere(nodes: NodeMap, after: NodeMap, f: seq<Key>, ds: seq<nat>, l: Node?, r: Node?)
    requires f != [] && Frontier(f, ds) && Named(nodes)
    requires forall k | k in after :: k in nodes && after[k] == nodes[k]
    requires forall k | k in nodes && !Covers(k, Last(f)) :: k in after
    requires Offspring(nodes, Last(f), l, r)
    ensures Offspring(after, Last(f), l, r) && Named(after)
    ensures forall i | 0 <= i < |f| - 1 && f[i] in nodes :: f[i] in after && after[f[i]] == nodes[f[i]]
  {
    forall i | 0 <= i < |f| - 1 ensures !Covers(f[i], Last(f)) {
      CursorApart(f, ds, i);
    }
  }

  // the state of the sweep
  ghost predicate Sweeping(t: Table, m: Cache, stack: array<Node?>, sp: nat, pn: Node?, f: seq<Key>, ds: seq<nat>)
    reads t, t.tree, t.content.Values, stack
  {
    Cursor(t.tree.nodes, stack, sp, pn, f) && Frontier(f, ds) && Half(m, t.Entries(), f)
  }

  // the frontier once the cursor has had its turn
  ghost function After(f: seq<Key>, halt: bool, l: Node?, r: Node?): seq<Key>
    requires f != []
  {
    if halt then Front(f) else Onward(f, LinkTo(l), LinkTo(r))
  }

  lemma TurnOrder(m: Cache, e: Cache, f: seq<Key>, ds: seq<nat>, nodes: NodeMap, K: set<Key>, l: Node?,
      r: Node?, halt: bool)
    requires f != [] && Frontier(f, ds) && Half(m, e, f) && e.Keys <= nodes.Keys <= K && Last(f) in nodes
    requires LinkOk(nodes.Keys, Last(f), false, LinkTo(l)) && LinkOk(nodes.Keys, Last(f), true, LinkTo(r))
    requires halt ==> Last(f) in e && e[Last(f)].state == Static
    requires !halt && Last(f) in e ==> e[Last(f)].state != Static
    ensures Half(m, if halt then e else Aged(e, Last(f)), After(f, halt, l, r))
    ensures |Pending(K, After(f, halt, l, r))| < |Pending(K, f)|
  {
    if halt {
      HalfSkip(m, e, f, ds);
      PendingSkip(K, f, ds);
    } else {
      HalfNext(m, e, f, ds, nodes.Keys, LinkTo(l), LinkTo(r));
      OnwardLess(nodes.Keys, K, f, ds, LinkTo(l), LinkTo(r));
    }
  }

  method SweepTurn(t: Table, stack: array<Node?>, sp: nat, pn: Node, ghost m: Cache, ghost f: seq<Key>,
      ghost ds: seq<nat>,
                   ghost N: set<Node>, ghost C: set<MapNode>, ghost P: set<Prefix?>, ghost K: set<Key>)
    returns (halt: bool)
    requires t.Valid() && Confined(t, N, C, P, K) && Sweeping(t, m, stack, sp, pn, f, ds)
    modifies t`content, t.tree`head, t.tree`nodes, t.tree`numActive, C`ttl, P`refCount
    modifies N`l, N`r, N`parent, N`prefix, N`data
    ensures t.Valid() && Confined(t, N, C, P, K)
    ensures Half(m, t.Entries(), After(f, halt, pn.l, pn.r))
    ensures |Pending(K, After(f, halt, pn.l, pn.r))| < |Pending(K, f)|
    ensures Stacked(t.tree.nodes, stack, sp, f) && Last(f) == pn.key
    ensures Offspring(t.tree.nodes, pn.key, pn.l, pn.r)
  {
    ghost var nodes, e, l, r := t.tree.nodes, t.Entries(), pn.l, pn.r;
    Own(t.tree);
    Down(t.tree, pn);
    assert Last(f) == pn.key;
    StackBound(f, ds, 0);
    EntryKeys(t);
    halt := SweepBody(t, pn, N, C, P, K);
    StillThere(nodes, t.tree.nodes, f, ds, l, r);
    TurnOrder(m, e, f, ds, nodes, K, l, r, halt);
  }

  lemma EntryKeys(t: Table)
    requires t.Valid()
    ensures t.Entries().Keys <= t.tree.nodes.Keys
  {
    forall k | k in t.content ensures k in t.tree.nodes { assert t.DataOk(k); }
  }

  // the end of the loop body, by PATRICIA_WALK_BREAK or by PATRICIA_WALK_END
  method Move(stack: array<Node?>, sp: nat, halt: bool, l: Node?, r: Node?, ghost nodes: NodeMap, ghost f: seq<Key>,
              ghost ds: seq<nat>)
    returns (sp': nat, next: Node?, ghost ds': seq<nat>)
    requires f != [] && Frontier(f, ds) && Stacked(nodes, stack, sp, f) && Offspring(nodes, Last(f), l, r)
    modifies stack
    ensures Cursor(nodes, stack, sp', next, After(f, halt, l, r)) && Frontier(After(f, halt, l, r), ds')
  {
    if halt {
      sp', next, ds' := WalkBreak(stack, sp, nodes, f, ds);
    } else {
      sp', next, ds' := WalkEnd(stack, sp, l, r, nodes, f, ds);
    }
  }

  method SweepMove(t: Table, stack: array<Node?>, sp: nat, halt: bool, l: Node?, r: Node?, ghost m: Cache,
      ghost f: seq<Key>,
                   ghost ds: seq<nat>, ghost N: set<Node>, ghost C: set<MapNode>, ghost P: set<Prefix?>,
                   ghost K: set<Key>)
    returns (sp': nat, next: Node?, ghost ds': seq<nat>)
    requires t.Valid() && Confined(t, N, C, P, K) && f != [] && Frontier(f, ds)
    requires Half(m, t.Entries(), After(f, halt, l, r))
    requires Stacked(t.tree.nodes, stack, sp, f) && Offspring(t.tree.nodes, Last(f), l, r)
    modifies stack
    ensures t.Valid() && Confined(t, N, C, P, K) && Sweeping(t, m, stack, sp', next, After(f, halt, l, r), ds')
  {
    sp', next, ds' := Move(stack, sp, halt, l, r, t.tree.nodes, f, ds);
  }

  method SweepStep(t: Table, stack: array<Node?>, sp: nat, pn: Node, ghost m: Cache, ghost f: seq<Key>,
      ghost ds: seq<nat>,
                   ghost N: set<Node>, ghost C: set<MapNode>, ghost P: set<Prefix?>, ghost K: set<Key>)
    returns (sp': nat, next: Node?, ghost f': seq<Key>, ghost ds': seq<nat>)
    requires t.Valid() && Confined(t, N, C, P, K) && Sweeping(t, m, stack, sp, pn, f, ds)
    modifies stack, t`content, t.tree`head, t.tree`nodes, t.tree`numActive, C`ttl, P`refCount
    modifies N`l, N`r, N`parent, N`prefix, N`data
    ensures t.Valid() && Confined(t, N, C, P, K) && Sweeping(t, m, stack, sp', next, f', ds')
    ensures |Pending(K, f')| < |Pending(K, f)|
  {
    var halt := SweepTurn(t, stack, sp, pn, m, f, ds, N, C, P, K);
    f' := After(f, halt, pn.l, pn.r);
    sp', next, ds' := SweepMove(t, stack, sp, halt, pn.l, pn.r, m, f, ds, N, C, P, K);
  }

  lemma SweepStart(t: Table, stack: array<Node?>)
    requires t.Valid() && stack.Length == 129
    ensures Sweeping(t, t.Entries(), stack, 0, t.tree.head, Root(t.tree.head), RootDepth(t.tree.head))
  {
    Start(t.tree, {});
    EntryKeys(t);
    HalfStart(t.Entries(), Root(t.tree.head));
  }

  // the loop, with all that it may write to given in advance
  method SweepAll(t: Table, stack: array<Node?>, ghost N: set<Node>, ghost C: set<MapNode>,
      ghost P: set<Prefix?>, ghost K: set<Key>)
    requires t.Valid() && Confined(t, N, C, P, K) && stack.Length == 129
    modifies stack, t`content, t.tree`head, t.tree`nodes, t.tree`numActive, C`ttl, P`refCount
    modifies N`l, N`r, N`parent, N`prefix, N`data
    ensures t.Valid() && t.Entries() == Swept(old(t.Entries())) && Confined(t, N, C, P, K)
  {
    var sp, pn := 0, t.tree.head;
    ghost var m := t.Entries();
    ghost var f, ds := Root(t.tree.head), RootDepth(t.tree.head);
    SweepStart(t, stack);
    while pn != null
      invariant t.Valid() && Confined(t, N, C, P, K) && Sweeping(t, m, stack, sp, pn, f, ds)
      decreases |Pending(K, f)|
    {
      sp, pn, f, ds := SweepStep(t, stack, sp, pn, m, f, ds, N, C, P, K);
    }
    HalfDone(m, t.Entries());
  }

  method SweepNew(t: Table, ghost N: set<Node>, ghost C: set<MapNode>, ghost P: set<Prefix?>, ghost K: set<Key>)
    requires t.Valid() && Confined(t, N, C, P, K)
    modifies t`content, t.tree`head, t.tree`nodes, t.tree`numActive, C`ttl, P`refCount
    modifies N`l, N`r, N`parent, N`prefix, N`data
    ensures t.Valid() && t.Entries() == Swept(old(t.Entries())) && Confined(t, N, C, P, K)
  {
    var stack := new Node?[129];
    SweepAll(t, stack, N, C, P, K);
  }

  lemma ConfineAll(t: Table, P: set<Prefix?>)
    requires t.Valid() && P == t.tree.Held()
    ensures Confined(t, t.tree.nodes.Values, t.content.Values, P, t.tree.nodes.Keys)
  {
    forall k | k in t.tree.nodes && t.tree.nodes[k].prefix != null ensures t.tree.nodes[k].prefix in P {
      assert t.tree.nodes[k].prefix in t.tree.Held();
    }
  }

  /** One sweep: whatever it deletes on the way, it comes to one update of the whole cache. */
  method SweepTable(t: Table)
    requires t.Valid()
    modifies t`content, t.content.Values`ttl, t.tree`head, t.tree`nodes, t.tree`numActive, t.tree.Held()`refCount
    modifies t.tree.nodes.Values`l, t.tree.nodes.Values`r, t.tree.nodes.Values`parent
    modifies t.tree.nodes.Values`prefix, t.tree.nodes.Values`data
    ensures t.Valid() && t.Entries() == Next(old(t.Entries()), Sweep) && t.Grown(null)
  {
    ghost var P := t.tree.Held();
    ConfineAll(t, P);
    SweepNew(t, t.tree.nodes.Values, t.content.Values, P, t.tree.nodes.Keys);
  }
}
