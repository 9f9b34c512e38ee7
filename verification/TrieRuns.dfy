/** Runs of lookups and removals on the trie in memory. */
module TrieRuns {
  import opened Addresses
  import opened BitStrings
  import opened PatriciaSearch
  import opened PatriciaTrie
  import opened TrieNodes
  import opened TrieShape

  datatype Op =
    | Insert(family: Family, addr: Addr, bitlen: nat)
    | Delete(family: Family, addr: Addr, bitlen: nat)

  predicate WellMade(op: Op) {
    op.bitlen <= MaxLen(op.family)
  }

  // the stored keys after one operation, and after a run
  ghost function KeysAfter(S: set<Key>, op: Op): set<Key>
    requires WellMade(op)
  {
    if op.Insert? then S + {Cut(op.addr, op.bitlen)} else S - {Cut(op.addr, op.bitlen)}
  }

  ghost function KeysAfterAll(S: set<Key>, ops: seq<Op>): set<Key>
    requires forall op | op in ops :: WellMade(op)
    decreases |ops|
  {
    if ops == [] then S else KeysAfterAll(KeysAfter(S, ops[0]), ops[1..])
  }

  ghost predicate On(op: Op, k: Key) {
    WellMade(op) && Cut(op.addr, op.bitlen) == k
  }

  /** A key is stored after a run if and only if the last operation on it is an insert, or there is none and it was
      stored before. */
  lemma {:induction false} LastDecides(S: set<Key>, ops: seq<Op>, k: Key)
    requires forall op | op in ops :: WellMade(op)
    ensures forall i | 0 <= i < |ops| && On(ops[i], k) && (forall j | i < j < |ops| :: !On(ops[j], k)) ::
              k in KeysAfterAll(S, ops) <==> ops[i].Insert?
    ensures (forall j | 0 <= j < |ops| :: !On(ops[j], k)) ==> (k in KeysAfterAll(S, ops) <==> k in S)
    decreases |ops|
  {
    if ops != [] {
      var T, op, rest := KeysAfter(S, ops[0]), ops[0], ops[1..];
      assert op in ops && forall op | op in rest :: op in ops;
      assert forall j | 0 <= j < |rest| :: rest[j] == ops[j + 1];
      LastDecides(T, rest, k);
      assert k in T <==> if On(op, k) then op.Insert? else k in S;
      forall i | 0 <= i < |ops| && On(ops[i], k) && (forall j | i < j < |ops| :: !On(ops[j], k))
        ensures k in KeysAfterAll(S, ops) <==> ops[i].Insert?
      {
        assert i > 0 ==> rest[i - 1] == ops[i];
      }
    }
  }

  method Perform(t: Patricia, op: Op)
    requires t.Valid() && t.Exact() && t.maxbits == 128 && WellMade(op)
    modifies t`head, t`nodes, t`numActive, t.Held()`refCount
    modifies t.nodes.Values`l, t.nodes.Values`r, t.nodes.Values`parent, t.nodes.Values`prefix, t.nodes.Values`data
    ensures t.Valid() && t.Exact() && t.Stored() == KeysAfter(old(t.Stored()), op) && t.Grown(null)
  {
    if op.Insert? {
      var node;
      ghost var prefix;
      node, prefix := MakeAndLookup(t, op.family, op.addr, op.bitlen);
    } else {
      ghost var prefix := LookupThenRemove(t, op.family, op.addr, op.bitlen);
    }
  }

  method PerformAll(t: Patricia, ops: seq<Op>)
    requires t.Valid() && t.Exact() && t.maxbits == 128 && forall op | op in ops :: WellMade(op)
    modifies t`head, t`nodes, t`numActive, t.Held()`refCount
    modifies t.nodes.Values`l, t.nodes.Values`r, t.nodes.Values`parent, t.nodes.Values`prefix, t.nodes.Values`data
    ensures t.Valid() && t.Exact() && t.Stored() == KeysAfterAll(old(t.Stored()), ops)
    decreases |ops|
  {
    if ops != [] {
      assert ops[0] in ops && forall op | op in ops[1..] :: op in ops;
      Perform(t, ops[0]);
      PerformAll(t, ops[1..]);
    }
  }

  /** Any run from the empty trie: the keys stored are those inserted last and not deleted since, and the number of
      nodes is within its bound. */
  method Build(ops: seq<Op>) returns (t: Patricia)
    requires forall op | op in ops :: WellMade(op)
    ensures fresh(t) && t.Valid() && t.Exact() && t.Stored() == KeysAfterAll({}, ops)
    ensures t.Stored() != {} ==> t.numActive <= 2 * |t.Stored()| - 1
  {
    t := new Patricia(128);
    PerformAll(t, ops);
    ActiveBound(t);
  }

  /** Any two runs that end with the same stored prefixes end with the same trie. */
  method TwoRuns(a: seq<Op>, b: seq<Op>) returns (t: Patricia, u: Patricia)
    requires (forall op | op in a :: WellMade(op)) && (forall op | op in b :: WellMade(op))
    requires KeysAfterAll({}, a) == KeysAfterAll({}, b)
    ensures t.Valid() && t.Stored() == KeysAfterAll({}, a)
    ensures u.Valid() && Value(t) == Value(u) && t.numActive == u.numActive
  {
    t := Build(a);
    u := Build(b);
    SameShape(t, u);
  }
}
