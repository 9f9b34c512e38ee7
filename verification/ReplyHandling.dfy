/** `process_lisp_map_reply`: the records of a packet, applied to the cache as the cursor reaches them. */
module ReplyHandling {
  import opened Addresses
  import opened BitStrings
  import opened KeySets
  import opened MapCache
  import opened MapReply
  import opened MapTable
  import opened TrieNodes

  // a prefix that can be stored: the family is known and the mask no longer than its addresses
  predicate Sound(r: Record) {
    r.afi != OtherAfi && r.mask <= MaxLen(if r.afi == Ipv4 then V4 else V6)
  }

  // the step that a record stands for; no record with a mask over 128 is sound
  ghost function StepOf(r: Record): Step {
    var x := Cut(r.eid, if r.mask <= 128 then r.mask else 128);
    if r.locators == [] then Deny(x, r.act) else Reply(x, r.ttl, r.locators[Chosen(r.locators)].addr)
  }

  ghost function StepsOf(rs: seq<Record>): (steps: seq<Step>)
    ensures |steps| == |rs| && forall i | 0 <= i < |rs| :: steps[i] == StepOf(rs[i])
  {
    if rs == [] then [] else [StepOf(rs[0])] + StepsOf(rs[1..])
  }

  // the step of a record in a packet, by its fields
  lemma {:induction false} StepAt(pkt: Packet, at: nat, f: Family, x: Key, locs: seq<Locator>)
    requires Sound(ReadRecord(pkt, at)) && f == (if ReadAfi(pkt, at + 10) == Ipv4 then V4 else V6)
    requires x == Cut(ReadAddr(pkt, at + RECORD, f), pkt(at + 5))
    requires locs == Locators(pkt, at + RecordLen(pkt, at), pkt(at + 4))
    ensures pkt(at + 5) <= MaxLen(f)
    ensures pkt(at + 4) == 0 ==> StepOf(ReadRecord(pkt, at)) == Deny(x, ReadAction(pkt(at + 6)))
    ensures pkt(at + 4) > 0 ==> StepOf(ReadRecord(pkt, at)) == Reply(x, Seconds(pkt, at), locs[Chosen(locs)].addr)
  {
  }

  // the inner loop, where there are locators; where the cursor goes
  method Select(pkt: Packet, at: nat) returns (addr: Rloc, end: nat)
    ensures end == RecordEnd(pkt, at)
    ensures pkt(at + 4) > 0 ==>
              var locs := Locators(pkt, at + RecordLen(pkt, at), pkt(at + 4));
              addr == locs[Chosen(locs)].addr
  {
    addr, end := Unset, at + RecordLen(pkt, at);
    if pkt(at + 4) != 0 {
      var lisploc;
      lisploc, end := ChooseLocator(pkt, end, pkt(at + 4));
      addr := ReadLocator(pkt, lisploc).addr;
    }
  }

  // one record, up to the cache: prefix, action or chosen locator, and where the cursor goes
  method Decode(pkt: Packet, at: nat)
    returns (f: Family, eid: Addr, mask: nat, deny: bool, act: Action, ttl: int, addr: Rloc, end: nat, ghost s: Step)
    requires Sound(ReadRecord(pkt, at))
    ensures mask <= MaxLen(f) && end == RecordEnd(pkt, at) && s == StepOf(ReadRecord(pkt, at))
    ensures deny ==> s == Deny(Cut(eid, mask), act)
    ensures !deny ==> s == Reply(Cut(eid, mask), ttl, addr)
  {
    f := if ReadAfi(pkt, at + 10) == Ipv4 then V4 else V6;
    eid, mask := ReadAddr(pkt, at + RECORD, f), pkt(at + 5);
    deny, act, ttl := pkt(at + 4) == 0, ReadAction(pkt(at + 6)), Seconds(pkt, at);
    addr, end := Select(pkt, at);
    s := StepOf(ReadRecord(pkt, at));
    StepAt(pkt, at, f, Cut(eid, mask), Locators(pkt, at + RecordLen(pkt, at), pkt(at + 4)));
  }

  // decoding leaves the table alone
  method DecodeFor(t: Table, pkt: Packet, at: nat)
    returns (f: Family, eid: Addr, mask: nat, deny: bool, act: Action, ttl: int, addr: Rloc, end: nat, ghost s: Step)
    requires t.Valid() && Sound(ReadRecord(pkt, at))
    ensures t.Valid() && t.Entries() == old(t.Entries())
    ensures mask <= MaxLen(f) && end == RecordEnd(pkt, at) && s == StepOf(ReadRecord(pkt, at))
    ensures deny ==> s == Deny(Cut(eid, mask), act)
    ensures !deny ==> s == Reply(Cut(eid, mask), ttl, addr)
  {
    ghost var before := t.Entries();
    f, eid, mask, deny, act, ttl, addr, end, s := Decode(pkt, at);
    t.SameEntries(before);
  }

  // the cache step of a record
  method Apply(t: Table, f: Family, eid: Addr, mask: nat, deny: bool, act: Action, ttl: int, addr: Rloc, ghost s: Step)
    returns (done: bool)
    requires t.Valid() && mask <= MaxLen(f)
    requires deny ==> s == Deny(Cut(eid, mask), act)
    requires !deny ==> s == Reply(Cut(eid, mask), ttl, addr)
    modifies t`content, t.content.Values`ttl, t.tree`head, t.tree`nodes, t.tree`numActive
    modifies t.tree.nodes.Values`l, t.tree.nodes.Values`r, t.tree.nodes.Values`parent
    modifies t.tree.nodes.Values`prefix, t.tree.nodes.Values`data
    ensures t.Valid() && t.Grown(null) && t.Entries() == Next(old(t.Entries()), s)
    ensures done <==> Refreshes(old(t.Entries()), s)
  {
    var prefix := new Prefix.Static(f, eid, mask);
    done := ApplyTo(t, prefix, deny, act, ttl, addr, s);
  }

  method ApplyTo(t: Table, prefix: Prefix, deny: bool, act: Action, ttl: int, addr: Rloc, ghost s: Step)
    returns (done: bool)
    requires t.Valid() && prefix.Ok()
    requires deny ==> s == Deny(prefix.key, act)
    requires !deny ==> s == Reply(prefix.key, ttl, addr)
    modifies t`content, t.content.Values`ttl, t.tree`head, t.tree`nodes, t.tree`numActive, prefix`refCount
    modifies t.tree.nodes.Values`l, t.tree.nodes.Values`r, t.tree.nodes.Values`parent
    modifies t.tree.nodes.Values`prefix, t.tree.nodes.Values`data
    ensures t.Valid() && t.Grown(prefix) && t.Entries() == Next(old(t.Entries()), s)
    ensures done <==> Refreshes(old(t.Entries()), s)
  {
    if deny {
      t.DenyRecord(prefix, act);
      done := false;
    } else {
      done := t.ReplyRecord(prefix, ttl, addr);
    }
  }

  method ProcessRecord(t: Table, pkt: Packet, at: nat) returns (done: bool, end: nat)
    requires t.Valid() && Sound(ReadRecord(pkt, at))
    modifies t`content, t.content.Values`ttl, t.tree`head, t.tree`nodes, t.tree`numActive
    modifies t.tree.nodes.Values`l, t.tree.nodes.Values`r, t.tree.nodes.Values`parent
    modifies t.tree.nodes.Values`prefix, t.tree.nodes.Values`data
    ensures t.Valid() && t.Grown(null) && t.Entries() == Next(old(t.Entries()), StepOf(ReadRecord(pkt, at)))
    ensures done <==> Refreshes(old(t.Entries()), StepOf(ReadRecord(pkt, at)))
    ensures end == RecordEnd(pkt, at)
  {
    var f, eid, mask, deny, act, ttl, addr;
    ghost var s;
    f, eid, mask, deny, act, ttl, addr, end, s := DecodeFor(t, pkt, at);
    done := Apply(t, f, eid, mask, deny, act, ttl, addr, s);
  }

  // the record at `at` stands for the step and ends at `end`; it is sound if it is to be applied
  ghost predicate Hop(pkt: Packet, at: nat, s: Step, end: nat, applied: bool) {
    s == StepOf(ReadRecord(pkt, at)) && end == RecordEnd(pkt, at) && (applied ==> Sound(ReadRecord(pkt, at)))
  }

  ghost predicate HopAt(pkt: Packet, ats: seq<nat>, steps: seq<Step>, applied: int, i: int)
    requires |ats| == |steps| + 1 && 0 <= i < |steps|
  {
    Hop(pkt, ats[i], steps[i], ats[i + 1], i < applied)
  }

  // the way of the cursor through the records, and the steps they stand for
  ghost predicate Path(pkt: Packet, ats: seq<nat>, steps: seq<Step>, applied: int) {
    && |ats| == |steps| + 1
    && forall i {:trigger HopAt(pkt, ats, steps, applied, i)} | 0 <= i < |steps| :: HopAt(pkt, ats, steps, applied, i)
  }

  lemma PathCons(pkt: Packet, at: nat, s: Step, ats: seq<nat>, steps: seq<Step>, applied: int)
    requires Path(pkt, ats, steps, applied - 1) && Hop(pkt, at, s, ats[0], 0 < applied)
    ensures Path(pkt, [at] + ats, [s] + steps, applied)
  {
    var a, b := [at] + ats, [s] + steps;
    forall i | 0 <= i < |b| ensures HopAt(pkt, a, b, applied, i) {
      assert i > 0 ==> HopAt(pkt, ats, steps, applied - 1, i - 1);
    }
  }

  lemma StepsCons(r: Record, rs: seq<Record>)
    ensures StepsOf([r] + rs) == [StepOf(r)] + StepsOf(rs)
  {
    assert ([r] + rs)[1..] == rs;
  }

  // the first `applied` of the records are sound
  ghost predicate SoundTo(rs: seq<Record>, applied: int) {
    forall i | 0 <= i < applied && i < |rs| :: Sound(rs[i])
  }

  lemma SoundRest(r: Record, rest: seq<Record>, applied: int)
    requires SoundTo([r] + rest, applied)
    ensures SoundTo(rest, applied - 1) && (applied > 0 ==> Sound(r))
  {
    var rs := [r] + rest;
    forall i | 0 <= i < applied - 1 && i < |rest| ensures Sound(rest[i]) { assert rest[i] == rs[i + 1]; }
    assert rs[0] == r;
  }

  lemma {:induction false} PathOf(pkt: Packet, at: nat, n: nat, rs: seq<Record>, applied: int) returns (ats: seq<nat>)
    requires rs == Records(pkt, at, n) && SoundTo(rs, applied)
    ensures Path(pkt, ats, StepsOf(rs), applied) && ats[0] == at
    decreases n
  {
    if n == 0 { return [at]; }
    var r, end := ReadRecord(pkt, at), RecordEnd(pkt, at);
    var rest := Records(pkt, end, n - 1);
    assert rs == [r] + rest;
    SoundRest(r, rest, applied);
    ats := PathOf(pkt, end, n - 1, rest, applied - 1);
    PathCons(pkt, at, StepOf(r), ats, StepsOf(rest), applied);
    StepsCons(r, rest);
    ats := [at] + ats;
  }

  lemma RepliesStep(m: Cache, steps: seq<Step>, n: nat)
    requires n < |steps|
    ensures Refreshes(m, steps[n]) ==> Replies(m, steps[n..]) == Next(m, steps[n])
    ensures !Refreshes(m, steps[n]) ==> Replies(m, steps[n..]) == Replies(Next(m, steps[n]), steps[n + 1..])
    ensures !Refreshes(m, steps[n]) ==> Applied(m, steps[n..]) == 1 + Applied(Next(m, steps[n]), steps[n + 1..])
    ensures Applied(m, steps[n..]) > 0
  {
    assert steps[n..][1..] == steps[n + 1..];
  }

  // the loop body
  method ProcessNext(t: Table, pkt: Packet, at: nat, ghost n: nat, ghost ats: seq<nat>, ghost steps: seq<Step>,
                     ghost applied: int)
    returns (done: bool, end: nat)
    requires t.Valid() && Path(pkt, ats, steps, applied) && n < |steps| && at == ats[n]
    requires applied == n + Applied(t.Entries(), steps[n..])
    modifies t`content, t.content.Values`ttl, t.tree`head, t.tree`nodes, t.tree`numActive
    modifies t.tree.nodes.Values`l, t.tree.nodes.Values`r, t.tree.nodes.Values`parent
    modifies t.tree.nodes.Values`prefix, t.tree.nodes.Values`data
    ensures t.Valid() && t.Grown(null) && end == ats[n + 1]
    ensures done ==> t.Entries() == Replies(old(t.Entries()), steps[n..])
    ensures !done ==> Replies(t.Entries(), steps[n + 1..]) == Replies(old(t.Entries()), steps[n..])
    ensures !done ==> applied == n + 1 + Applied(t.Entries(), steps[n + 1..])
  {
    RepliesStep(t.Entries(), steps, n);
    assert HopAt(pkt, ats, steps, applied, n);
    done, end := ProcessRecord(t, pkt, at);
  }

  // the loop, with all that it may write to given in advance
  method ProcessAll(t: Table, pkt: Packet, count: nat, ghost ats: seq<nat>, ghost steps: seq<Step>, ghost applied: int,
      ghost N: set<Node>, ghost C: set<MapNode>)
    requires t.Valid() && Path(pkt, ats, steps, applied) && ats[0] == HEADER && |steps| == count
    requires applied == Applied(t.Entries(), steps)
    requires forall k | k in t.tree.nodes :: t.tree.nodes[k] in N
    requires forall k | k in t.content :: t.content[k] in C
    modifies t`content, C`ttl, t.tree`head, t.tree`nodes, t.tree`numActive
    modifies N`l, N`r, N`parent, N`prefix, N`data
    ensures t.Valid() && t.Entries() == Replies(old(t.Entries()), steps)
  {
    var at: nat, n: nat := HEADER, 0;
    ghost var result := Replies(t.Entries(), steps);
    assert steps[0..] == steps;
    while n < count
      invariant n <= count && t.Valid() && at == ats[n]
      invariant forall k | k in t.tree.nodes :: t.tree.nodes[k] in N || fresh(t.tree.nodes[k])
      invariant forall k | k in t.content :: t.content[k] in C || fresh(t.content[k])
      invariant Replies(t.Entries(), steps[n..]) == result && applied == n + Applied(t.Entries(), steps[n..])
    {
      var done;
      done, at := ProcessNext(t, pkt, at, n, ats, steps, applied);
      if done {
        return;
      }
      n := n + 1;
    }
  }

  /** The first n records are applied in turn, and n is where the code stops: after the first whose prefix has a match
      already, which is refreshed. The others are not looked at. */
  method ProcessMapReply(t: Table, pkt: Packet) returns (ghost n: nat)
    requires t.Valid()
    requires SoundTo(Records(pkt, HEADER, pkt(3)), Applied(t.Entries(), StepsOf(Records(pkt, HEADER, pkt(3)))))
    modifies t`content, t.content.Values`ttl, t.tree`head, t.tree`nodes, t.tree`numActive
    modifies t.tree.nodes.Values`l, t.tree.nodes.Values`r, t.tree.nodes.Values`parent
    modifies t.tree.nodes.Values`prefix, t.tree.nodes.Values`data
    ensures t.Valid() && StopsAt(old(t.Entries()), StepsOf(Records(pkt, HEADER, pkt(3))), n)
    ensures t.Entries() == Run(old(t.Entries()), StepsOf(Records(pkt, HEADER, pkt(3)))[..n])
  {
    ghost var rs := Records(pkt, HEADER, pkt(3));
    ghost var applied := Applied(t.Entries(), StepsOf(rs));
    ghost var ats := PathOf(pkt, HEADER, pkt(3), rs, applied);
    AppliedStops(t.Entries(), StepsOf(rs));
    n := applied;
    ProcessAll(t, pkt, pkt(3), ats, StepsOf(rs), applied, t.tree.nodes.Values, t.content.Values);
  }

  /** What the encoder's message does to a cache: with 1 to 255 locators, one step, for the prefix that was encoded
      and the locator with the largest priority number. */
  lemma {:induction false} EncodedStep(pkt: Packet, f: Family, addr: Addr, bitlen: nat, nonce: Bytes,
      locs: seq<Locator>)
    requires bitlen <= MaxLen(f) && |nonce| == 8 && AllKnown(locs) && 0 < |locs| < 256
    requires Holds(pkt, 0, ReplyBytes(f, addr, bitlen, nonce, locs))
    ensures pkt(3) == 1 && forall r | r in Records(pkt, HEADER, 1) :: Sound(r)
    ensures StepsOf(Records(pkt, HEADER, 1)) == [Reply(Cut(addr, bitlen), 600, Carried(locs[Chosen(locs)].addr))]
  {
    RoundTripAll(pkt, f, addr, bitlen, nonce, locs);
    var r := Decoded(f, addr, bitlen, locs);
    StepsCons(r, []);
    DecodedStep(f, addr, bitlen, locs);
  }

  lemma {:induction false} DecodedStep(f: Family, addr: Addr, bitlen: nat, locs: seq<Locator>)
    requires bitlen <= MaxLen(f) && locs != []
    ensures Sound(Decoded(f, addr, bitlen, locs))
    ensures StepOf(Decoded(f, addr, bitlen, locs)) == Reply(Cut(addr, bitlen), 600, Carried(locs[Chosen(locs)].addr))
  {
    CopyBits(f, addr, bitlen);
    CarriedChoice(locs);
  }

  lemma {:induction false} CarriedAt(locs: seq<Locator>, i: nat)
    requires i < |locs|
    ensures CarriedAll(locs)[i] == locs[i].(addr := Carried(locs[i].addr))
  {
    if i > 0 { CarriedAt(locs[1..], i - 1); }
  }

  lemma CarriedChoice(locs: seq<Locator>)
    requires locs != []
    ensures CarriedAll(locs)[Chosen(CarriedAll(locs))].addr == Carried(locs[Chosen(locs)].addr)
  {
    forall i | 0 <= i < |locs| ensures CarriedAll(locs)[i] == locs[i].(addr := Carried(locs[i].addr)) {
      CarriedAt(locs, i);
    }
    FirstMaxUnique(locs, Chosen(locs), Chosen(CarriedAll(locs)));
  }
}
