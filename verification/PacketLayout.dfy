/** The Map-Reply message by offsets: what the encoder writes at each, and what the decoder reads there. */
module PacketLayout {
  import opened Addresses
  import opened BitStrings
  import opened MapCache
  import opened MapReply
  import opened ReplyHandling
  import opened TrieNodes

  // ---- what is written ----

  // header and record
  ghost predicate HeadAt(b: Bytes, f: Family, addr: Addr, bitlen: nat, nonce: Bytes, count: nat) {
    && |b| >= (if f == V4 then 28 else 40) && |nonce| == 8
    && b[0] == 0x28 && b[0] / 16 == 2 && b[0] / 8 % 2 == 1 && b[1] == 0 && b[2] == 0 && b[3] == 1
    && (forall i | 0 <= i < 8 :: b[4 + i] == nonce[i])
    && b[12] == 0 && b[13] == 0 && b[14] == 0 && b[15] == 10
    && b[16] == count % 256 && b[17] == bitlen % 256
    && b[18] == 0 && b[19] == 0 && b[20] == 0 && b[21] == 0
    && b[22] == 0 && b[23] == (if f == V4 then 1 else 2)
    && (forall i | 0 <= i < if f == V4 then 4 else 16 :: b[24 + i] == addr[i] as int)
  }

  // the locator at this offset
  ghost predicate LocatorIn(b: Bytes, at: nat, loc: Locator) {
    && loc.addr.Rloc? && at + (if loc.addr.family == V4 then 12 else 24) <= |b|
    && b[at] == loc.priority && b[at + 1] == loc.weight && b[at + 2] == loc.mPriority && b[at + 3] == loc.mWeight
    && b[at + 4] == 0 && b[at + 5] == 0x05
    && b[at + 6] == 0 && b[at + 7] == (if loc.addr.family == V4 then 1 else 2)
    && (forall i | 0 <= i < if loc.addr.family == V4 then 4 else 16 :: b[at + 8 + i] == loc.addr.addr[i] as int)
  }

  // the length of the first n locators
  function Length(locs: seq<Locator>, n: nat): nat
    requires AllKnown(locs) && n <= |locs|
  {
    if n == 0 then 0 else Length(locs, n - 1) + if locs[n - 1].addr.family == V4 then 12 else 24
  }

  lemma LocatorLaid(loc: Locator)
    requires loc.addr.Rloc?
    ensures LocatorIn(LocatorBytes(loc), 0, loc)
    ensures |LocatorBytes(loc)| == if loc.addr.family == V4 then 12 else 24
  {
    var a := AddrBytes(loc.addr.family, loc.addr.addr);
    assert LocatorBytes(loc)[8..] == a;
    assert forall i | 0 <= i < |a| :: LocatorBytes(loc)[8 + i] == a[i];
  }

  // locator i is at the sum of the lengths of those before it
  ghost predicate NthIn(b: Bytes, at: nat, locs: seq<Locator>, i: nat)
    requires AllKnown(locs) && i < |locs|
  {
    LocatorIn(b, at + Length(locs, i), locs[i])
  }

  ghost predicate LocatorsIn(b: Bytes, at: nat, locs: seq<Locator>, n: nat)
    requires AllKnown(locs) && n <= |locs|
  {
    forall i {:trigger NthIn(b, at, locs, i)} | 0 <= i < n :: NthIn(b, at, locs, i)
  }

  lemma LocatorMoved(a: Bytes, b: Bytes, c: Bytes, at: nat, loc: Locator)
    requires LocatorIn(b, at, loc)
    ensures LocatorIn(a + b + c, |a| + at, loc)
  {
    var d := a + b + c;
    assert forall i | 0 <= i < |b| :: d[|a| + i] == b[i];
    forall i | 0 <= i < if loc.addr.family == V4 then 4 else 16
      ensures d[|a| + at + 8 + i] == loc.addr.addr[i] as int
    {
      assert d[|a| + (at + 8 + i)] == b[at + 8 + i];
    }
  }

  lemma LocatorsMoved(a: Bytes, b: Bytes, c: Bytes, at: nat, locs: seq<Locator>, n: nat)
    requires AllKnown(locs) && n <= |locs| && LocatorsIn(b, at, locs, n)
    ensures LocatorsIn(a + b + c, |a| + at, locs, n)
  {
    var d, place := a + b + c, |a| + at;
    forall i | 0 <= i < n ensures NthIn(d, place, locs, i) {
      assert NthIn(b, at, locs, i);
      LocatorMoved(a, b, c, at + Length(locs, i), locs[i]);
    }
  }

  lemma LocatorsGrow(b: Bytes, c: Bytes, locs: seq<Locator>, n: nat)
    requires AllKnown(locs) && n < |locs| && LocatorsIn(b, 0, locs, n)
    requires |b| == Length(locs, n) && LocatorIn(c, 0, locs[n])
    ensures LocatorsIn(b + c, 0, locs, n + 1)
  {
    assert NthIn(b + c, 0, locs, n) by {
      LocatorMoved(b, c, [], 0, locs[n]);
      assert b + c + [] == b + c;
    }
    LocatorsMoved([], b, c, 0, locs, n);
    assert [] + b + c == b + c;
  }

  lemma {:induction false} LocatorsLaid(locs: seq<Locator>, n: nat)
    requires AllKnown(locs) && n <= |locs|
    ensures |LocatorsBytes(locs[..n])| == Length(locs, n)
    ensures LocatorsIn(LocatorsBytes(locs[..n]), 0, locs, n)
  {
    if n > 0 {
      LocatorsLaid(locs, n - 1);
      LocatorsMore(locs[..n - 1], locs[n - 1]);
      assert locs[..n - 1] + [locs[n - 1]] == locs[..n];
      LocatorLaid(locs[n - 1]);
      LocatorsGrow(LocatorsBytes(locs[..n - 1]), LocatorBytes(locs[n - 1]), locs, n - 1);
    }
  }

  lemma HeadLaid(f: Family, addr: Addr, bitlen: nat, nonce: Bytes, count: nat, rest: Bytes)
    requires |nonce| == 8
    ensures HeadAt(HeaderBytes(nonce) + RecordBytes(f, addr, bitlen, count) + rest, f, addr, bitlen, nonce, count)
  {
    var h, r, a := HeaderBytes(nonce), RecordFields(f, bitlen, count), AddrBytes(f, addr);
    var b := h + RecordBytes(f, addr, bitlen, count) + rest;
    assert b == h + r + a + rest;
    assert forall i | 0 <= i < 12 :: b[i] == h[i];
    assert forall i | 0 <= i < 8 :: h[4 + i] == nonce[i];
    assert forall i | 0 <= i < 12 :: b[12 + i] == r[i];
    assert b[12 + 0] == r[0] && b[12 + 1] == r[1] && b[12 + 2] == r[2] && b[12 + 3] == r[3];
    assert b[12 + 4] == r[4] && b[12 + 5] == r[5] && b[12 + 6] == r[6] && b[12 + 7] == r[7];
    assert b[12 + 8] == r[8] && b[12 + 9] == r[9] && b[12 + 10] == r[10] && b[12 + 11] == r[11];
    assert forall i | 0 <= i < |a| :: b[24 + i] == a[i];
  }

  /** The message, byte for byte: type 2 with the P flag, one record of ten minutes, and each locator at the sum of the
      lengths of those before it. */
  lemma {:induction false} ReplyLaid(f: Family, addr: Addr, bitlen: nat, nonce: Bytes, locs: seq<Locator>)
    requires |nonce| == 8 && AllKnown(locs)
    ensures HeadAt(ReplyBytes(f, addr, bitlen, nonce, locs), f, addr, bitlen, nonce, |locs|)
    ensures LocatorsIn(ReplyBytes(f, addr, bitlen, nonce, locs), if f == V4 then 28 else 40, locs, |locs|)
    ensures |ReplyBytes(f, addr, bitlen, nonce, locs)| == (if f == V4 then 28 else 40) + Length(locs, |locs|)
  {
    var head, l := HeaderBytes(nonce) + RecordBytes(f, addr, bitlen, |locs|), LocatorsBytes(locs);
    HeadLaid(f, addr, bitlen, nonce, |locs|, l);
    LocatorsLaid(locs, |locs|);
    assert locs[..|locs|] == locs;
    LocatorsMoved(head, l, [], 0, locs, |locs|);
    assert head + l + [] == head + l;
  }

  // ---- what is read ----

  // the number in two bytes
  function Word(pkt: Packet, at: nat): nat {
    256 * pkt(at) + pkt(at + 1)
  }

  // the length of an address after its family: that of IPv6 for whatever is not IPv4
  function AddrRoom(pkt: Packet, afi: nat): nat {
    if Word(pkt, afi) == 1 then 4 else 16
  }

  // the address at this offset, zero after its end
  ghost predicate AddrIn(pkt: Packet, at: nat, f: Family, a: Addr) {
    forall i | 0 <= i < 16 :: a[i] == if f == V6 || i < 4 then pkt(at + i) as bv8 else 0
  }

  lemma AddrRead(pkt: Packet, at: nat, f: Family)
    ensures AddrIn(pkt, at, f, ReadAddr(pkt, at, f))
  {
    var s := seq(16, i requires 0 <= i < 16 => Bv(pkt(at + i)));
    var a := CopyAddr(f, s);
    assert a == ReadAddr(pkt, at, f);
    forall i | 0 <= i < 16 ensures a[i] == if f == V6 || i < 4 then pkt(at + i) as bv8 else 0 {
      assert s[i] == Bv(pkt(at + i)) == pkt(at + i) as bv8;
      assert i < 4 ==> s[..4][i] == s[i];
    }
  }

  /** A locator, from any bytes. */
  lemma {:induction false} LocatorRead(pkt: Packet, at: nat)
    ensures var loc := ReadLocator(pkt, at);
      && loc.priority == pkt(at) && loc.weight == pkt(at + 1)
      && loc.mPriority == pkt(at + 2) && loc.mWeight == pkt(at + 3)
      && (loc.addr.Rloc? <==> Word(pkt, at + 6) == 1 || Word(pkt, at + 6) == 2)
      && (loc.addr.Rloc? ==> loc.addr.family == (if Word(pkt, at + 6) == 1 then V4 else V6))
      && (loc.addr.Rloc? ==> AddrIn(pkt, at + 8, loc.addr.family, loc.addr.addr))
  {
    AddrRead(pkt, at + 8, V4);
    AddrRead(pkt, at + 8, V6);
  }

  // where locator i starts, the first being at `at`
  function LocatorPlace(pkt: Packet, at: nat, i: nat): nat {
    if i == 0 then at
    else
      var last := LocatorPlace(pkt, at, i - 1);
      last + 8 + AddrRoom(pkt, last + 6)
  }

  lemma {:induction false} LocatorsPlace(pkt: Packet, at: nat, n: nat)
    ensures LocatorsEnd(pkt, at, n) == LocatorPlace(pkt, at, n)
  {
    if n > 0 {
      LocatorsPlace(pkt, at, n - 1);
      LocatorsSnoc(pkt, at, n - 1);
    }
  }

  lemma {:induction false} LocatorsRead(pkt: Packet, at: nat, n: nat)
    ensures forall i {:trigger Locators(pkt, at, n)[i]} | 0 <= i < n ::
              Locators(pkt, at, n)[i] == ReadLocator(pkt, LocatorPlace(pkt, at, i))
  {
    if n > 0 {
      LocatorsRead(pkt, at, n - 1);
      LocatorsSnoc(pkt, at, n - 1);
      LocatorsPlace(pkt, at, n - 1);
    }
  }

  // the four bytes of a time to live, and what 32 bits leave of it in seconds
  lemma {:induction false} SecondsRead(pkt: Packet, at: nat)
    ensures var minutes := 0x1_0000 * Word(pkt, at) + Word(pkt, at + 2);
      -0x8000_0000 <= Seconds(pkt, at) < 0x8000_0000 && (Seconds(pkt, at) - 60 * minutes) % 0x1_0000_0000 == 0
    ensures pkt(at) == 0 && pkt(at + 1) == 0 ==> Seconds(pkt, at) == 60 * Word(pkt, at + 2)
  {
    var minutes := 0x1_0000 * Word(pkt, at) + Word(pkt, at + 2);
    assert minutes == ((pkt(at) * 256 + pkt(at + 1)) * 256 + pkt(at + 2)) * 256 + pkt(at + 3);
    Wrapped(60 * minutes, Seconds(pkt, at));
  }

  lemma Wrapped(x: nat, r: int)
    requires r == x % 0x1_0000_0000 || r == x % 0x1_0000_0000 - 0x1_0000_0000
    ensures (r - x) % 0x1_0000_0000 == 0
  {
  }

  // a day: 1440 minutes
  lemma OneDay(pkt: Packet, at: nat)
    requires pkt(at) == 0 && pkt(at + 1) == 0 && pkt(at + 2) == 0x05 && pkt(at + 3) == 0xA0
    ensures Seconds(pkt, at) == 86400
  {
    SecondsRead(pkt, at);
  }

  // the top three bits of a byte
  lemma {:induction false} ActionRead(b: byte)
    ensures ReadAction(b) == NoAction <==> b < 32
    ensures ReadAction(b) == Native <==> 32 <= b < 64
    ensures ReadAction(b) == SendRequest <==> 64 <= b < 96
    ensures ReadAction(b) == DropPackets <==> 96 <= b < 128
    ensures ReadAction(b) == Unknown <==> 128 <= b
  {
  }

  /** A record, from any bytes. */
  lemma {:induction false} RecordRead(pkt: Packet, at: nat)
    ensures var r := ReadRecord(pkt, at);
      && r.ttl == Seconds(pkt, at) && |r.locators| == pkt(at + 4) && r.mask == pkt(at + 5)
      && r.act == ReadAction(pkt(at + 6))
      && (r.afi == Ipv4 <==> Word(pkt, at + 10) == 1) && (r.afi == Ipv6 <==> Word(pkt, at + 10) == 2)
      && AddrIn(pkt, at + 12, if Word(pkt, at + 10) == 1 then V4 else V6, r.eid)
      && forall i {:trigger r.locators[i]} | 0 <= i < pkt(at + 4) ::
           r.locators[i] == ReadLocator(pkt, LocatorPlace(pkt, at + 12 + AddrRoom(pkt, at + 10), i))
    ensures RecordEnd(pkt, at) == LocatorPlace(pkt, at + 12 + AddrRoom(pkt, at + 10), pkt(at + 4))
  {
    AddrRead(pkt, at + 12, if Word(pkt, at + 10) == 1 then V4 else V6);
    LocatorsRead(pkt, at + 12 + AddrRoom(pkt, at + 10), pkt(at + 4));
    LocatorsPlace(pkt, at + 12 + AddrRoom(pkt, at + 10), pkt(at + 4));
  }

  /** The records of a message: the first is here, and the others begin after its last locator. */
  lemma {:induction false} RecordsRead(pkt: Packet, at: nat, n: nat)
    ensures var next := LocatorPlace(pkt, at + 12 + AddrRoom(pkt, at + 10), pkt(at + 4));
      && Records(pkt, at, n + 1) == [ReadRecord(pkt, at)] + Records(pkt, next, n)
      && RecordsEnd(pkt, at, n + 1) == RecordsEnd(pkt, next, n)
  {
    RecordRead(pkt, at);
  }

  // ---- the step of a record ----

  /** A record without locators denies its own prefix with its own action; one with locators is a reply for its prefix,
      with the address of the first locator that has the largest priority number. */
  lemma {:induction false} StepRead(r: Record, i: nat)
    requires r.mask <= 128
    ensures r.locators == [] ==> StepOf(r) == Deny(Cut(r.eid, r.mask), r.act)
    ensures i < |r.locators| && (forall j | 0 <= j < |r.locators| :: r.locators[j].priority <= r.locators[i].priority)
            && (forall j | 0 <= j < i :: r.locators[j].priority < r.locators[i].priority) ==>
              StepOf(r) == Reply(Cut(r.eid, r.mask), r.ttl, r.locators[i].addr)
  {
    if i < |r.locators| && IsFirstMax(r.locators, i) {
      FirstMaxUnique(r.locators, i, Chosen(r.locators));
    }
  }
}
