/** The map cache kept in the trie: `maptable.c` and the cache steps of `map.c`. */
module MapTable {
  import opened BitStrings
  import opened KeySets
  import opened MapCache
  import opened PatriciaSearch
  import opened PatriciaTrie
  import opened TrieLinks
  import opened TrieNodes

  class MapNode {
    var state: State
    var ttl: int
    var addr: Rloc
    ghost var key: Key       // where it is installed

    constructor (state: State, ttl: int, addr: Rloc)
      ensures Value() == Entry(state, ttl, addr)
    {
      this.state, this.ttl, this.addr := state, ttl, addr;
      key := Key([]);
    }

    ghost function Value(): Entry
      reads this`state, this`ttl, this`addr
    {
      Entry(state, ttl, addr)
    }
  }

  ghost function Values(content: map<Key, MapNode>): Cache
    reads content.Values
  {
    map k | k in content :: content[k].Value()
  }

  class Table {
    const tree: Patricia
    ghost var content: map<Key, MapNode>     // the data of every prefix node

    ghost predicate DataOk(k: Key)
      reads this, tree, tree.nodes.Values, content.Values`key
      requires k in content
    {
      k in tree.nodes && tree.nodes[k].prefix != null && tree.nodes[k].data == content[k] && content[k].key == k
    }

    // the data of the prefix nodes, each with its own
    ghost predicate Loaded()
      reads this, tree, tree.nodes.Values, content.Values`key
    {
      && (forall k {:trigger DataOk(k)} | k in content :: DataOk(k))
      && (forall k | k in tree.Stored() :: k in content)
    }

    ghost predicate Valid()
      reads this, tree, tree.nodes.Values, tree.Held(), content.Values`key
    {
      tree.Valid() && tree.Counted() && tree.maxbits == 128 && Loaded()
    }

    ghost function Entries(): Cache
      reads this, content.Values
    {
      Values(content)
    }

    constructor ()
      ensures Valid() && fresh(tree) && Entries() == map[] && content == map[] && tree.nodes == map[]
    {
      tree := new Patricia(128);
      content := map[];
    }

    // the data of all prefix nodes but x is in place
    ghost predicate LoadedBut(x: Key)
      reads this, tree, tree.nodes.Values, content.Values`key
    {
      && (forall k {:trigger DataOk(k)} | k in content && k != x :: DataOk(k))
      && (forall k | k in tree.Stored() && k != x :: k in content)
    }

    lemma SameEntries(before: Cache)
      requires before.Keys == content.Keys && forall k | k in content :: before[k] == content[k].Value()
      ensures Entries() == before
    {
    }

    // a prefix node may have any data
    method SetNodeData(pn: Node, mn: MapNode)
      requires tree.Valid() && LoadedBut(pn.key) && Has(tree.nodes, pn) && pn.prefix != null
      modifies pn`data
      ensures tree.Valid() && LoadedBut(pn.key) && pn.data == mn && Entries() == old(Entries())
    {
      ghost var before := Entries();
      pn.data := mn;
      SameEntries(before);
      forall k | k in tree.nodes ensures tree.TagOk(k, {}) {
        assert old(tree.TagOk(k, {}));
      }
      forall k | k in content && k != pn.key ensures DataOk(k) {
        assert old(DataOk(k)) && tree.NodeOk(k);
      }
    }

    ghost method Register(pn: Node, mn: MapNode)
      requires tree.Linked() && LoadedBut(pn.key) && mn !in content.Values
      requires Has(tree.nodes, pn) && pn.prefix != null && pn.data == mn
      modifies this`content, mn`key
      ensures Loaded() && Entries() == old(Entries())[pn.key := mn.Value()]
      ensures forall k | k in content :: content[k] == mn || content[k] in old(content).Values
    {
      mn.key := pn.key;
      content := content[pn.key := mn];
      forall k | k in content ensures DataOk(k) {
        if k != pn.key { assert old(DataOk(k)); }
      }
    }

    // update_mapnode, after the lookup
    method SetData(pn: Node, mn: MapNode)
      requires tree.Valid() && LoadedBut(pn.key) && Has(tree.nodes, pn) && pn.prefix != null && mn !in content.Values
      modifies this`content, pn`data, mn`key
      ensures tree.Valid() && Loaded() && Entries() == old(Entries())[pn.key := mn.Value()]
      ensures forall k | k in content :: content[k] == mn || content[k] in old(content).Values
    {
      SetNodeData(pn, mn);
      Register(pn, mn);
    }

    // a lookup leaves the data as it is; the new node has none
    twostate lemma LookupLoaded(new pn: Node, prefix: Prefix)
      requires old(tree.Linked() && Loaded()) && content == old(content) && tree.Gained(pn, prefix)
      requires forall k | k in old(tree.nodes) :: old(tree.nodes)[k].data == old(tree.nodes[k].data)
      requires forall k | k in content :: content[k].key == old(content[k].key)
      ensures Found(pn)
    {
      forall k | k in content ensures DataOk(k) {
        assert old(DataOk(k));
      }
    }

    // the node just looked up has its entry, or none yet
    ghost predicate Found(pn: Node)
      reads this, tree, tree.nodes.Values, content.Values`key
    {
      && Has(tree.nodes, pn) && pn.prefix != null
      && (forall k {:trigger DataOk(k)} | k in content :: DataOk(k))
      && LoadedBut(pn.key)
      && pn.data == if pn.key in content then content[pn.key] else null
    }

    // the rest of update_mapnode: a static entry is kept, any other is replaced
    method Admit(pn: Node, mn: MapNode) returns (r: MapNode?)
      requires tree.Valid() && tree.Counted() && tree.maxbits == 128 && Found(pn) && mn !in content.Values
      modifies this`content, mn`key, pn`data
      ensures Valid() && Entries() == Update(old(Entries()), pn.key, mn.Value())
      ensures Fixed(old(Entries()), pn.key) ==> r == null
      ensures !Fixed(old(Entries()), pn.key) ==> r == mn
      ensures forall k | k in content :: content[k] == mn || content[k] in old(content).Values
    {
      if pn.data != null {
        if (pn.data as MapNode).state == Static {
          return null;
        }
      }
      SetData(pn, mn);
      return mn;
    }

    // what is new is newly allocated, but for the prefix p
    twostate predicate Grown(new p: Prefix?)
      reads this, tree, tree.nodes.Values`prefix
    {
      tree.Grown(p) && forall k | k in content :: fresh(content[k]) || content[k] in old(content).Values
    }

    // nothing is new
    twostate predicate Shrunk()
      reads this, tree, tree.nodes.Values`prefix
    {
      && (forall k | k in tree.nodes :: k in old(tree.nodes) && tree.nodes[k] == old(tree.nodes)[k])
      && (forall k | k in tree.nodes && tree.nodes[k].prefix != null ::
            tree.nodes[k].prefix == old(tree.nodes[k].prefix))
      && (forall k | k in content :: k in old(content) && content[k] == old(content)[k])
    }

    twostate lemma ShrunkGrown()
      requires Shrunk()
      ensures Grown(null)
    {
    }

    method LookupFound(prefix: Prefix) returns (pn: Node)
      requires Valid() && prefix.Ok()
      modifies prefix`refCount, tree`head, tree`nodes, tree`numActive
      modifies tree.nodes.Values`l, tree.nodes.Values`r, tree.nodes.Values`parent, tree.nodes.Values`prefix
      ensures tree.Valid() && tree.Counted() && Found(pn) && pn.key == prefix.key && tree.Grown(prefix)
      ensures pn in old(tree.nodes).Values || fresh(pn)
    {
      pn := tree.Lookup(prefix);
      LookupLoaded(pn, prefix);
      tree.GainedGrown(pn, prefix);
    }

    method LookupNode(prefix: Prefix) returns (pn: Node)
      requires Valid() && prefix.Ok()
      modifies prefix`refCount, tree`head, tree`nodes, tree`numActive
      modifies tree.nodes.Values`l, tree.nodes.Values`r, tree.nodes.Values`parent, tree.nodes.Values`prefix
      ensures tree.Valid() && tree.Counted() && Found(pn) && pn.key == prefix.key && tree.Grown(prefix)
      ensures (pn in old(tree.nodes).Values || fresh(pn)) && Entries() == old(Entries())
    {
      ghost var before := Entries();
      pn := LookupFound(prefix);
      SameEntries(before);
    }

    method UpdateMapnode(prefix: Prefix, mn: MapNode) returns (r: MapNode?)
      requires Valid() && prefix.Ok() && mn !in content.Values
      modifies this`content, mn`key, prefix`refCount, tree`head, tree`nodes, tree`numActive
      modifies tree.nodes.Values`l, tree.nodes.Values`r, tree.nodes.Values`parent
      modifies tree.nodes.Values`prefix, tree.nodes.Values`data
      ensures Valid() && Entries() == Update(old(Entries()), prefix.key, mn.Value()) && mn.Value() == old(mn.Value())
      ensures Fixed(old(Entries()), prefix.key) ==> r == null
      ensures !Fixed(old(Entries()), prefix.key) ==> r == mn
      ensures tree.Grown(prefix) && forall k | k in content :: content[k] == mn || content[k] in old(content).Values
    {
      var pn := LookupNode(prefix);
      r := Admit(pn, mn);
    }

    method NewEntry(state: State, ttl: int, addr: Rloc) returns (mn: MapNode)
      requires Valid()
      ensures Valid() && Entries() == old(Entries()) && fresh(mn) && mn !in content.Values
      ensures mn.Value() == Entry(state, ttl, addr)
    {
      ghost var before := Entries();
      mn := new MapNode(state, ttl, addr);
      SameEntries(before);
    }

    // malloc and update_mapnode
    method AddEntry(prefix: Prefix, state: State, ttl: int, addr: Rloc) returns (entered: bool)
      requires Valid() && prefix.Ok()
      modifies this`content, prefix`refCount, tree`head, tree`nodes, tree`numActive
      modifies tree.nodes.Values`l, tree.nodes.Values`r, tree.nodes.Values`parent
      modifies tree.nodes.Values`prefix, tree.nodes.Values`data
      ensures Valid() && Entries() == Update(old(Entries()), prefix.key, Entry(state, ttl, addr)) && Grown(prefix)
      ensures entered <==> !Fixed(old(Entries()), prefix.key)
    {
      var mn := NewEntry(state, ttl, addr);
      var r := UpdateMapnode(prefix, mn);
      entered := r != null;
    }

    // install_mapnode_queried; time to live and address are left as malloc gave them
    method InstallQueried(prefix: Prefix, ttl: int, addr: Rloc)
      requires Valid() && prefix.Ok()
      modifies this`content, prefix`refCount, tree`head, tree`nodes, tree`numActive
      modifies tree.nodes.Values`l, tree.nodes.Values`r, tree.nodes.Values`parent
      modifies tree.nodes.Values`prefix, tree.nodes.Values`data
      ensures Valid() && Entries() == Next(old(Entries()), Query(prefix.key, ttl, addr)) && Grown(prefix)
    {
      var entered := AddEntry(prefix, Queried, ttl, addr);
    }

    // install_mapnode_static; the route is added unless the entry was static already
    method InstallStatic(prefix: Prefix, addr: Rloc) returns (route: bool)
      requires Valid() && prefix.Ok()
      modifies this`content, prefix`refCount, tree`head, tree`nodes, tree`numActive
      modifies tree.nodes.Values`l, tree.nodes.Values`r, tree.nodes.Values`parent
      modifies tree.nodes.Values`prefix, tree.nodes.Values`data
      ensures Valid() && Entries() == Next(old(Entries()), Install(prefix.key, addr)) && Grown(prefix)
      ensures route <==> !Fixed(old(Entries()), prefix.key)
    {
      route := AddEntry(prefix, Static, 0, addr);
    }

    // process_lisp_map_reply_record_loc_is_zero
    method DenyRecord(prefix: Prefix, act: Action)
      requires Valid() && prefix.Ok()
      modifies this`content, prefix`refCount, tree`head, tree`nodes, tree`numActive
      modifies tree.nodes.Values`l, tree.nodes.Values`r, tree.nodes.Values`parent
      modifies tree.nodes.Values`prefix, tree.nodes.Values`data
      ensures Valid() && Entries() == Next(old(Entries()), Deny(prefix.key, act)) && Grown(prefix)
    {
      if act != Native && act != DropPackets {
        return;
      }
      var state := if act == Native then Negative else Drop;
      var entered := AddEntry(prefix, state, TTL_DEFAULT, Unset);
    }

    // the trie's best match is the longest match among the entries
    lemma BestRefines(x: Key, pn: Node?)
      requires tree.Linked() && Loaded() && IsBest(tree, x, true, pn)
      ensures Best(Entries(), x) == LinkTo(pn)
      ensures pn != null ==> pn.key in content && pn.data == content[pn.key] && content[pn.key].key == pn.key
    {
      var m := Entries();
      BestIsLongest(m, x);
      forall k | k in m ensures Covers(k, x) <==> Candidate(tree, x, true, k) {
        assert DataOk(k);
      }
      if pn != null {
        assert Candidate(tree, x, true, pn.key);
        assert DataOk(pn.key);
        assert IsLongest(m, x, pn.key);
      }
    }

    method SearchMapnode(prefix: Prefix) returns (r: MapNode?)
      requires Valid() && prefix.Ok()
      ensures r == null <==> Best(Entries(), prefix.key) == Nil
      ensures r != null ==> Best(Entries(), prefix.key) == To(r.key) && r.key in content && content[r.key] == r
    {
      var pn := SearchBest2(tree, prefix, true);
      BestRefines(prefix.key, pn);
      if pn == null {
        return null;
      }
      return pn.data as MapNode;
    }

    /** The forwarding decision of the tunnel thread: the entry found through the trie decides as the flat
        longest-prefix match does. */
    method ForwardPacket(dst: Prefix) returns (v: Verdict)
      requires Valid() && dst.Ok()
      ensures v == Forward(Entries(), dst.key)
    {
      var mn := SearchMapnode(dst);
      if mn == null || mn.state == Negative || mn.state == Queried {
        v := SendNatively;
      } else if mn.state == Active || mn.state == Static {
        v := Encapsulate(mn.addr);
      } else {
        v := Discard;
      }
    }

    // ---- deletion ----

    // a removal takes away the entry of the node, and leaves the others where they are
    twostate lemma RemoveLoaded(pn: Node)
      requires old(tree.Linked() && Loaded() && Has(tree.nodes, pn)) && tree.Lost(pn) && content == old(content)
      requires forall k | k in old(tree.nodes) && k != pn.key :: old(tree.nodes)[k].data == old(tree.nodes[k].data)
      requires forall k | k in content :: content[k].key == old(content[k].key)
      ensures LoadedBut(pn.key) && pn.key !in tree.Stored()
    {
      forall k | k in content && k != pn.key ensures DataOk(k) {
        assert old(DataOk(k));
      }
    }

    // no new nodes; the freed ones lie on the way to the key that was removed
    twostate predicate Kept(x: Key)
      reads tree, tree.nodes.Values`prefix
    {
      && (forall k | k in tree.nodes :: k in old(tree.nodes) && tree.nodes[k] == old(tree.nodes)[k])
      && (forall k | k in tree.nodes && tree.nodes[k].prefix != null ::
            tree.nodes[k].prefix == old(tree.nodes[k].prefix))
      && (forall k | k in old(tree.nodes) && !Covers(k, x) :: k in tree.nodes)
    }

    twostate lemma LostAbove(pn: Node)
      requires old(tree.Linked() && Has(tree.nodes, pn)) && tree.Lost(pn)
      ensures Kept(pn.key)
    {
      assert old(tree.NodeOk(pn.key));
    }

    method TakeOut(pn: Node)
      requires tree.Valid() && tree.Counted() && Has(tree.nodes, pn) && pn.prefix != null
      modifies tree`head, tree`nodes, tree`numActive, tree.Held()`refCount, pn`prefix, pn`data
      modifies tree.nodes.Values`l, tree.nodes.Values`r, tree.nodes.Values`parent
      ensures tree.Valid() && tree.Counted() && tree.Lost(pn)
    {
      assert pn.prefix in tree.Held();
      tree.Remove(pn);
    }

    method RemoveNode(pn: Node)
      requires Valid() && Has(tree.nodes, pn) && pn.key in content
      modifies tree`head, tree`nodes, tree`numActive, tree.Held()`refCount, pn`prefix, pn`data
      modifies tree.nodes.Values`l, tree.nodes.Values`r, tree.nodes.Values`parent
      ensures tree.Valid() && tree.Counted() && LoadedBut(pn.key) && pn.key !in tree.Stored()
      ensures pn.l == old(pn.l) && pn.r == old(pn.r) && Kept(pn.key)
    {
      assert DataOk(pn.key);
      tree.Apart(pn);
      TakeOut(pn);
      RemoveLoaded(pn);
      LostAbove(pn);
    }

    ghost method Forget(x: Key)
      requires tree.Valid() && tree.Counted() && tree.maxbits == 128 && LoadedBut(x) && x !in tree.Stored()
      modifies this`content
      ensures Valid() && content == map k | k in old(content) && k != x :: old(content)[k]
    {
      content := map k | k in content && k != x :: content[k];
      forall k | k in content ensures DataOk(k) {
        assert old(DataOk(k));
      }
    }

    // the deletion half of delete_mapnode
    method DeleteNode(pn: Node)
      requires Valid() && Has(tree.nodes, pn) && pn.key in content
      modifies this`content, tree`head, tree`nodes, tree`numActive, tree.Held()`refCount, pn`prefix, pn`data
      modifies tree.nodes.Values`l, tree.nodes.Values`r, tree.nodes.Values`parent
      ensures Valid() && content == map k | k in old(content) && k != pn.key :: old(content)[k]
      ensures pn.l == old(pn.l) && pn.r == old(pn.r) && Kept(pn.key)
    {
      RemoveNode(pn);
      Forget(pn.key);
    }

    method DeleteEntry(pn: Node)
      requires Valid() && Has(tree.nodes, pn) && pn.key in content
      modifies this`content, tree`head, tree`nodes, tree`numActive, tree.Held()`refCount, pn`prefix, pn`data
      modifies tree.nodes.Values`l, tree.nodes.Values`r, tree.nodes.Values`parent
      ensures Valid() && Entries() == old(Entries()) - {pn.key}
      ensures forall k | k in content :: k in old(content) && content[k] == old(content)[k]
      ensures pn.l == old(pn.l) && pn.r == old(pn.r) && Kept(pn.key)
    {
      ghost var before := Entries();
      DeleteNode(pn);
      EntriesDeleted(old(content), before, pn.key);
    }

    lemma EntriesDeleted(had: map<Key, MapNode>, before: Cache, k: Key)
      requires before.Keys == had.Keys && forall j | j in had :: before[j] == had[j].Value()
      requires content == map j | j in had && j != k :: had[j]
      ensures Entries() == before - {k}
    {
    }

    // delete_mapnode finds the node anew
    method DeleteBest(prefix: Prefix) returns (pn: Node?, mn: MapNode?)
      requires Valid() && prefix.Ok()
      modifies this`content, tree`head, tree`nodes, tree`numActive, tree.Held()`refCount
      modifies tree.nodes.Values`l, tree.nodes.Values`r, tree.nodes.Values`parent
      modifies tree.nodes.Values`prefix, tree.nodes.Values`data
      ensures Valid() && LinkTo(pn) == Best(old(Entries()), prefix.key)
      ensures pn == null ==> mn == null && content == old(content) && tree.nodes == old(tree.nodes)
      ensures pn != null ==> pn.key in old(content) && mn == old(content)[pn.key] && mn.key == pn.key
      ensures pn != null ==> Entries() == old(Entries()) - {pn.key}
      ensures pn != null ==> pn.key in old(tree.nodes) && pn == old(tree.nodes)[pn.key]
      ensures pn != null ==> pn.l == old(pn.l) && pn.r == old(pn.r) && Kept(pn.key)
      ensures Shrunk()
    {
      pn := SearchBest2(tree, prefix, true);
      BestRefines(prefix.key, pn);
      mn := null;
      if pn != null {
        mn := pn.data as MapNode;
        DeleteEntry(pn);
      }
    }

    method DeleteMapnode(prefix: Prefix) returns (r: MapNode?)
      requires Valid() && prefix.Ok()
      modifies this`content, tree`head, tree`nodes, tree`numActive, tree.Held()`refCount
      modifies tree.nodes.Values`l, tree.nodes.Values`r, tree.nodes.Values`parent
      modifies tree.nodes.Values`prefix, tree.nodes.Values`data
      ensures Valid() && Entries() == Deleted(old(Entries()), prefix.key) && Shrunk()
      ensures r == null <==> Best(old(Entries()), prefix.key) == Nil
      ensures r != null ==> r.key in old(content) && r == old(content)[r.key]
      ensures r != null ==> Best(old(Entries()), prefix.key) == To(r.key)
    {
      var pn;
      pn, r := DeleteBest(prefix);
    }

    method MayUninstall(prefix: Prefix) returns (ok: bool)
      requires Valid() && prefix.Ok()
      ensures ok <==> Removable(Entries(), prefix.key)
    {
      var mn := SearchMapnode(prefix);
      ok := mn != null && mn.state != Active && mn.state != Queried;
    }

    method DropMatch(prefix: Prefix)
      requires Valid() && prefix.Ok() && Removable(Entries(), prefix.key)
      modifies this`content, tree`head, tree`nodes, tree`numActive, tree.Held()`refCount
      modifies tree.nodes.Values`l, tree.nodes.Values`r, tree.nodes.Values`parent
      modifies tree.nodes.Values`prefix, tree.nodes.Values`data
      ensures Valid() && Entries() == Next(old(Entries()), Uninstall(prefix.key)) && Shrunk()
    {
      var gone := DeleteMapnode(prefix);
    }

    /** `uninstall_mapnode_static`; 0 is true. An active or queried best match is refused. */
    method UninstallStatic(prefix: Prefix) returns (ok: bool)
      requires Valid() && prefix.Ok()
      modifies this`content, tree`head, tree`nodes, tree`numActive, tree.Held()`refCount
      modifies tree.nodes.Values`l, tree.nodes.Values`r, tree.nodes.Values`parent
      modifies tree.nodes.Values`prefix, tree.nodes.Values`data
      ensures Valid() && Entries() == Next(old(Entries()), Uninstall(prefix.key)) && Shrunk()
      ensures ok <==> Removable(old(Entries()), prefix.key)
    {
      ok := MayUninstall(prefix);
      if ok {
        DropMatch(prefix);
      }
    }

    method Refresh(mn: MapNode)
      requires Valid() && mn.key in content && content[mn.key] == mn
      modifies mn`ttl
      ensures Valid() && Entries() == old(Entries())[mn.key := old(Entries())[mn.key].(ttl := TTL_DEFAULT)]
    {
      mn.ttl := TTL_DEFAULT;
      forall k | k in content && k != mn.key ensures content[k] != mn {
        assert DataOk(k);
      }
    }

    // the entry that a record finds is kept alive, whatever its state
    method RefreshMatch(prefix: Prefix, mn: MapNode, ghost ttl: int, ghost addr: Rloc)
      requires Valid() && mn.key in content && content[mn.key] == mn && Best(Entries(), prefix.key) == To(mn.key)
      modifies mn`ttl
      ensures Valid() && Entries() == Next(old(Entries()), Reply(prefix.key, ttl, addr)) && Grown(prefix)
    {
      Refresh(mn);
    }

    method EnterReply(prefix: Prefix, ttl: int, addr: Rloc)
      requires Valid() && prefix.Ok() && Best(Entries(), prefix.key) == Nil
      modifies this`content, prefix`refCount, tree`head, tree`nodes, tree`numActive
      modifies tree.nodes.Values`l, tree.nodes.Values`r, tree.nodes.Values`parent
      modifies tree.nodes.Values`prefix, tree.nodes.Values`data
      ensures Valid() && Entries() == Next(old(Entries()), Reply(prefix.key, ttl, addr)) && Grown(prefix)
    {
      var entered := AddEntry(prefix, Active, ttl, addr);
    }

    /** A record with locators: its best match is refreshed and nothing else is done, or else it is entered. */
    method ReplyRecord(prefix: Prefix, ttl: int, addr: Rloc) returns (done: bool)
      requires Valid() && prefix.Ok()
      modifies this`content, content.Values`ttl, prefix`refCount, tree`head, tree`nodes, tree`numActive
      modifies tree.nodes.Values`l, tree.nodes.Values`r, tree.nodes.Values`parent
      modifies tree.nodes.Values`prefix, tree.nodes.Values`data
      ensures Valid() && Entries() == Next(old(Entries()), Reply(prefix.key, ttl, addr)) && Grown(prefix)
      ensures done <==> Best(old(Entries()), prefix.key) != Nil
    {
      var mn := SearchMapnode(prefix);
      done := mn != null;
      if mn != null {
        RefreshMatch(prefix, mn, ttl, addr);
      } else {
        EnterReply(prefix, ttl, addr);
      }
    }

    /** A packet from the local net: without a match, a queried entry is installed for its destination. */
    method WatchPacket(dst: Prefix, ttl: int, addr: Rloc) returns (request: bool)
      requires Valid() && dst.Ok()
      modifies this`content, dst`refCount, tree`head, tree`nodes, tree`numActive
      modifies tree.nodes.Values`l, tree.nodes.Values`r, tree.nodes.Values`parent
      modifies tree.nodes.Values`prefix, tree.nodes.Values`data
      ensures Valid() && request == (Best(old(Entries()), dst.key) == Nil)
      ensures Entries() == if request then Next(old(Entries()), Query(dst.key, ttl, addr)) else old(Entries())
      ensures forall x :: Forward(Entries(), x) == Forward(old(Entries()), x)
    {
      var mn := SearchMapnode(dst);
      request := mn == null;
      ghost var before := Entries();
      if request {
        InstallQueried(dst, ttl, addr);
        forall x ensures Forward(Entries(), x) == Forward(before, x) {
          MissForward(before, dst.key, ttl, addr, x);
        }
      }
    }
  }
}
