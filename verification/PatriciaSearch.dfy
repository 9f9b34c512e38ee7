/** `patricia_search_exact` and `patricia_search_best2`. */
module PatriciaSearch {
  import opened Addresses
  import opened BitStrings
  import opened PatriciaTrie
  import opened TrieLinks
  import opened TrieNodes

  lemma CutCovers(a: Addr, b: Addr, m: nat, n: nat)
    requires m <= n <= 128
    ensures Covers(Cut(a, m), Cut(b, n)) <==> CompWithMask(a, b, m)
  {
    CompBits(a, b, m);
    assert Bits(b)[..n][..m] == Bits(b)[..m];
  }

  // where the bit test leads, a key that is below the node and covers x is not lost
  lemma Toward(t: Patricia, n: Node, x: Key)
    requires t.Linked() && Has(t.nodes, n) && |n.key.s| < |x.s|
    ensures var c := t.Child(n, x.s[|n.key.s|]);
      && (c != null ==> Has(t.nodes, c) && n.bit < c.bit == |c.key.s| <= t.maxbits)
      && forall k | k in t.nodes && Covers(n.key, k) && Covers(k, x) && k != n.key :: c != null && Covers(c.key, k)
  {
    var right := x.s[|n.key.s|];
    t.Below(n, right);
    forall k | k in t.nodes && Covers(n.key, k) && Covers(k, x) && k != n.key
      ensures t.Child(n, right) != null && Covers(t.Child(n, right).key, k)
    {
      if |k.s| == |n.key.s| { SameLength(n.key, k); }
      assert Dir(n.key, right, k);
    }
  }

  method SearchExact(t: Patricia, prefix: Prefix) returns (found: Node?)
    requires t.Valid() && prefix.Ok() && prefix.bitlen <= t.maxbits
    ensures prefix.key in t.Stored() ==> found != null && Has(t.nodes, found) && found.key == prefix.key
    ensures prefix.key !in t.Stored() ==> found == null
  {
    found := null;
    if t.head == null {
      return;
    }
    var node: Node := t.head;
    var addr, bitlen := prefix.addr, prefix.bitlen;
    ghost var x := prefix.key;
    t.Below(node, false);
    while node.bit < bitlen
      invariant Has(t.nodes, node) && node.bit == |node.key.s| <= t.maxbits
      invariant x in t.nodes ==> Covers(node.key, x)
      decreases 128 - node.bit
    {
      var right := AddrBit(addr, node.bit);
      Toward(t, node, x);
      var next := if right then node.r else node.l;
      if next == null {
        return;
      }
      node := next;
    }
    assert t.TagOk(node.key, {});
    assert x in t.nodes && node.bit == |x.s| ==> node.key == x;
    if node.bit > bitlen || node.prefix == null {
      return;
    }
    assert node.bit == bitlen && node.bit == node.prefix.bitlen;
    CutCovers(node.prefix.addr, addr, bitlen, bitlen);
    if CompWithMask(node.prefix.addr, addr, bitlen) {
      SameLength(node.key, x);
      found := node;
    }
  }

  // k is a stored prefix that matches x, and is no longer than it, or shorter when not inclusive
  ghost predicate Candidate(t: Patricia, x: Key, inclusive: bool, k: Key)
    reads t, t.nodes.Values
  {
    k in t.nodes && t.nodes[k].prefix != null && Covers(k, x) && (inclusive || k != x)
  }

  // the stack holds the prefix nodes of these keys
  ghost predicate OnStack(t: Patricia, stack: array<Node?>, keys: seq<Key>)
    reads t, t.nodes.Values, stack
  {
    && |keys| <= stack.Length
    && forall i | 0 <= i < |keys| ::
        keys[i] in t.nodes && stack[i] == t.nodes[keys[i]] && t.nodes[keys[i]].prefix != null
  }

  ghost predicate Longer(keys: seq<Key>, bit: nat) {
    && (forall i | 0 <= i < |keys| :: |keys[i].s| < bit)
    && (forall i, j | 0 <= i < j < |keys| :: |keys[i].s| < |keys[j].s|)
  }

  // every candidate is among the keys or below the cursor
  ghost predicate InReach(t: Patricia, x: Key, inclusive: bool, keys: seq<Key>, node: Node?)
    reads t, t.nodes.Values
  {
    forall k {:trigger Candidate(t, x, inclusive, k)} | Candidate(t, x, inclusive, k) ::
      k in keys || (node != null && Covers(node.key, k))
  }

  lemma Advance(t: Patricia, x: Key, inclusive: bool, keys: seq<Key>, node: Node)
    requires t.Linked() && Has(t.nodes, node) && |node.key.s| < |x.s| && InReach(t, x, inclusive, keys, node)
    ensures var more := if node.prefix != null then keys + [node.key] else keys;
      InReach(t, x, inclusive, more, t.Child(node, x.s[|node.key.s|]))
  {
    Toward(t, node, x);
    var more := if node.prefix != null then keys + [node.key] else keys;
    forall k | Candidate(t, x, inclusive, k)
      ensures k in more || (t.Child(node, x.s[|node.key.s|]) != null && Covers(t.Child(node, x.s[|node.key.s|]).key, k))
    {
      if k in keys { assert k in more; }
    }
  }

  method Push(t: Patricia, stack: array<Node?>, cnt: nat, node: Node, ghost keys: seq<Key>)
    returns (cnt': nat, ghost keys': seq<Key>)
    requires OnStack(t, stack, keys) && cnt == |keys| < stack.Length && Longer(keys, |node.key.s|)
    requires Has(t.nodes, node)
    modifies stack
    ensures OnStack(t, stack, keys') && cnt' == |keys'| <= cnt + 1 && Longer(keys', |node.key.s| + 1)
    ensures keys' == if node.prefix != null then keys + [node.key] else keys
  {
    cnt', keys' := cnt, keys;
    if node.prefix != null {
      stack[cnt] := node;
      cnt' := cnt + 1;
      keys' := keys + [node.key];
    }
  }

  // the state of the descent: the keys are those of at most lim bits
  ghost predicate OnPath(t: Patricia, x: Key, inclusive: bool, stack: array<Node?>, node: Node?, cnt: nat,
      keys: seq<Key>, lim: nat)
    reads t, t.nodes.Values, stack
  {
    && (node != null ==> Has(t.nodes, node) && lim <= node.bit == |node.key.s| <= t.maxbits)
    && cnt == |keys| <= lim <= |x.s| && Longer(keys, lim) && OnStack(t, stack, keys)
    && InReach(t, x, inclusive, keys, node)
  }

  // the loop body of the descent
  method StepDown(t: Patricia, prefix: Prefix, inclusive: bool, stack: array<Node?>, node: Node, cnt: nat,
      ghost keys: seq<Key>, ghost lim: nat)
    returns (next: Node?, cnt': nat, ghost keys': seq<Key>, ghost lim': nat)
    requires t.Valid() && prefix.Ok() && prefix.bitlen <= t.maxbits && stack.Length == 129 && node.bit < prefix.bitlen
    requires OnPath(t, prefix.key, inclusive, stack, node, cnt, keys, lim)
    modifies stack
    ensures OnPath(t, prefix.key, inclusive, stack, next, cnt', keys', lim')
    ensures next != null ==> node.bit < next.bit
  {
    var right := AddrBit(prefix.addr, node.bit);
    t.Below(node, right);
    Advance(t, prefix.key, inclusive, keys, node);
    next := if right then node.r else node.l;
    lim' := node.bit + 1;
    cnt', keys' := Push(t, stack, cnt, node, keys);
  }

  // the descent: every prefix node on the way to x goes on the stack
  method PushPath(t: Patricia, prefix: Prefix, inclusive: bool, stack: array<Node?>)
    returns (node: Node?, cnt: nat, ghost keys: seq<Key>)
    requires t.Valid() && t.head != null && prefix.Ok() && prefix.bitlen <= t.maxbits && stack.Length == 129
    modifies stack
    ensures OnStack(t, stack, keys) && cnt == |keys| <= 128
    ensures Longer(keys, prefix.bitlen) && InReach(t, prefix.key, inclusive, keys, node)
    ensures node != null ==> Has(t.nodes, node) && t.maxbits >= node.bit == |node.key.s| >= prefix.bitlen
  {
    cnt := 0;
    keys := [];
    node := t.head;
    ghost var lim := 0;
    t.Below(t.head, false);
    while node != null && node.bit < prefix.bitlen
      invariant OnPath(t, prefix.key, inclusive, stack, node, cnt, keys, lim)
      decreases if node != null then 129 - node.bit else 0
    {
      node, cnt, keys, lim := StepDown(t, prefix, inclusive, stack, node, cnt, keys, lim);
    }
  }

  ghost predicate Collected(t: Patricia, x: Key, inclusive: bool, keys: seq<Key>)
    reads t, t.nodes.Values
  {
    forall k {:trigger Candidate(t, x, inclusive, k)} | Candidate(t, x, inclusive, k) :: k in keys
  }

  lemma Collect(t: Patricia, x: Key, inclusive: bool, keys: seq<Key>, node: Node?)
    requires InReach(t, x, inclusive, keys, node)
    requires node != null ==> Has(t.nodes, node) && |node.key.s| >= |x.s|
    ensures var more := if inclusive && node != null && node.prefix != null then keys + [node.key] else keys;
      Collected(t, x, inclusive, more)
  {
    forall k | Candidate(t, x, inclusive, k) && k !in keys ensures inclusive && node != null && k == node.key {
      SameLength(node.key, k);
      SameLength(k, x);
    }
  }

  // the longest stored prefix that matches is the answer
  ghost predicate IsBest(t: Patricia, x: Key, inclusive: bool, found: Node?)
    reads t, t.nodes.Values
  {
    && (found != null ==> Has(t.nodes, found) && Candidate(t, x, inclusive, found.key))
    && (forall k {:trigger Candidate(t, x, inclusive, k)} | Candidate(t, x, inclusive, k) ::
          found != null && Covers(k, found.key))
  }

  // the test of the second loop
  method PrefixMatches(p: Prefix, x: Prefix) returns (matches: bool)
    requires p.Ok() && x.Ok()
    ensures matches <==> Covers(p.key, x.key)
  {
    if p.bitlen <= x.bitlen { CutCovers(p.addr, x.addr, p.bitlen, x.bitlen); }
    matches := CompWithMask(p.addr, x.addr, p.bitlen) && p.bitlen <= x.bitlen;
  }

  // the second loop: the topmost node on the stack that matches
  method PopBest(t: Patricia, prefix: Prefix, inclusive: bool, stack: array<Node?>, top: nat, ghost keys: seq<Key>)
    returns (found: Node?)
    requires t.Valid() && prefix.Ok() && prefix.bitlen <= t.maxbits && top == |keys|
    requires OnStack(t, stack, keys) && Longer(keys, 129) && Collected(t, prefix.key, inclusive, keys)
    requires !inclusive ==> Longer(keys, prefix.bitlen)
    ensures IsBest(t, prefix.key, inclusive, found)
  {
    ghost var x := prefix.key;
    found := null;
    var cnt := top;
    while cnt > 0
      invariant 0 <= cnt <= top
      invariant forall i | cnt <= i < top :: !Covers(keys[i], x)
    {
      cnt := cnt - 1;
      var node: Node := stack[cnt];
      assert t.NodeOk(keys[cnt]) && t.TagOk(keys[cnt], {});
      var matches := PrefixMatches(node.prefix, prefix);
      if matches {
        found := node;
        return;
      }
    }
  }

  method SearchBest2(t: Patricia, prefix: Prefix, inclusive: bool) returns (found: Node?)
    requires t.Valid() && prefix.Ok() && prefix.bitlen <= t.maxbits
    ensures IsBest(t, prefix.key, inclusive, found)
  {
    if t.head == null {
      return null;
    }
    var stack := new Node?[129];
    var node, cnt;
    ghost var keys;
    node, cnt, keys := PushPath(t, prefix, inclusive, stack);
    Collect(t, prefix.key, inclusive, keys, node);
    if inclusive && node != null {
      cnt, keys := Push(t, stack, cnt, node, keys);
    }
    found := PopBest(t, prefix, inclusive, stack, cnt, keys);
  }

  /** There is at most one best match, so the answer depends on the first `bitlen` bits of the query only. */
  lemma BestUnique(t: Patricia, x: Key, inclusive: bool, f: Node?, g: Node?)
    requires IsBest(t, x, inclusive, f) && IsBest(t, x, inclusive, g)
    ensures f == g
  {
    if f != null && g != null {
      SameLength(f.key, g.key);
    }
  }

  /** A stored prefix is its own best match. */
  lemma BestOfStored(t: Patricia, x: Key, f: Node?)
    requires t.Linked() && x in t.Stored()
    ensures IsBest(t, x, true, f) <==> f == t.nodes[x]
  {
    assert t.NodeOk(x);
    assert Candidate(t, x, true, x);
    if IsBest(t, x, true, f) {
      SameLength(x, f.key);
    }
  }

  // ---- make_and_lookup and lookup_then_remove, after the text has been read ----

  // a lookup with the caller's counted prefix leaves one reference over, the caller's
  method LookupCounted(t: Patricia, prefix: Prefix) returns (node: Node)
    requires t.Valid() && t.Exact() && prefix.Ok() && prefix.bitlen <= t.maxbits
    requires prefix.refCount == 1 && prefix !in t.Held()
    modifies t`head, t`nodes, t`numActive, prefix`refCount
    modifies t.nodes.Values`l, t.nodes.Values`r, t.nodes.Values`parent, t.nodes.Values`prefix
    ensures t.Valid() && Has(t.nodes, node) && node.key == prefix.key && node.prefix != null
    ensures t.Stored() == old(t.Stored()) + {prefix.key}
    ensures prefix.refCount == t.Holders(prefix) + 1
    ensures prefix.key in old(t.Stored()) ==> prefix.refCount == 1
    ensures prefix.key !in old(t.Stored()) ==> prefix.refCount == 2
    ensures forall p: Prefix | p in t.Held() && p != prefix :: p.refCount == t.Holders(p)
    ensures t.Grown(prefix)
  {
    t.Unheld(prefix);
    node := t.Lookup(prefix);
    t.GainedGrown(node, prefix);
    forall p: Prefix | p in t.Held() && p != prefix ensures p.refCount == t.Holders(p) && old(allocated(p)) {
      assert p in old(t.Held());
    }
  }

  // the caller lets go of its prefix
  method LetGo(t: Patricia, prefix: Prefix)
    requires t.Valid() && prefix.refCount == t.Holders(prefix) + 1
    requires forall p: Prefix | p in t.Held() && p != prefix :: p.refCount == t.Holders(p)
    modifies prefix`refCount
    ensures t.Valid() && t.Exact() && prefix.refCount == old(prefix.refCount) - 1
  {
    prefix.Deref();
  }

  method MakeAndLookup(t: Patricia, family: Family, addr: Addr, bitlen: nat) returns (node: Node, ghost prefix: Prefix)
    requires t.Valid() && t.Exact() && bitlen <= MaxLen(family) && bitlen <= t.maxbits
    modifies t`head, t`nodes, t`numActive
    modifies t.nodes.Values`l, t.nodes.Values`r, t.nodes.Values`parent, t.nodes.Values`prefix
    ensures t.Valid() && t.Exact() && Has(t.nodes, node) && node.key == Cut(addr, bitlen) && node.prefix != null
    ensures t.Stored() == old(t.Stored()) + {Cut(addr, bitlen)} && fresh(prefix) && t.Grown(null)
    ensures Cut(addr, bitlen) in old(t.Stored()) ==> prefix.refCount == 0
    ensures Cut(addr, bitlen) !in old(t.Stored()) ==> prefix.refCount == 1
  {
    CopyBits(family, addr, bitlen);
    var p := new Prefix(family, addr, bitlen);
    node := LookupCounted(t, p);
    LetGo(t, p);
    prefix := p;
  }

  // the prefix that is made for the search is released after it
  method TrySearchExact(t: Patricia, family: Family, addr: Addr, bitlen: nat)
    returns (node: Node?, ghost prefix: Prefix)
    requires t.Valid() && bitlen <= MaxLen(family) && bitlen <= t.maxbits
    ensures fresh(prefix) && prefix.refCount == 0
    ensures Cut(addr, bitlen) in t.Stored() ==> node != null && Has(t.nodes, node) && node.key == Cut(addr, bitlen)
    ensures Cut(addr, bitlen) !in t.Stored() ==> node == null
  {
    CopyBits(family, addr, bitlen);
    var p := new Prefix(family, addr, bitlen);
    node := SearchExact(t, p);
    p.Deref();
    prefix := p;
  }

  method LookupThenRemove(t: Patricia, family: Family, addr: Addr, bitlen: nat) returns (ghost prefix: Prefix)
    requires t.Valid() && t.Exact() && bitlen <= MaxLen(family) && bitlen <= t.maxbits
    modifies t`head, t`nodes, t`numActive, t.nodes.Values`l, t.nodes.Values`r, t.nodes.Values`parent
    modifies t.nodes.Values`prefix, t.nodes.Values`data, t.Held()`refCount
    ensures t.Valid() && t.Exact() && t.Stored() == old(t.Stored()) - {Cut(addr, bitlen)}
    ensures fresh(prefix) && prefix.refCount == 0 && t.Grown(null)
  {
    var node;
    node, prefix := TrySearchExact(t, family, addr, bitlen);
    if node != null {
      RemoveExact(t, node);
    }
  }

  method RemoveExact(t: Patricia, node: Node)
    requires t.Valid() && t.Exact() && Has(t.nodes, node)
    modifies t`head, t`nodes, t`numActive, t.nodes.Values`l, t.nodes.Values`r, t.nodes.Values`parent
    modifies node`prefix, node`data, t.Held()`refCount
    ensures t.Valid() && t.Exact() && t.Stored() == old(t.Stored()) - {node.key} && t.Grown(null)
  {
    t.Remove(node);
    t.LostGrown(node);
  }
}
