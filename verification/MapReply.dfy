/** The Map-Reply message: the encoder of `set_lisp_map_reply` and the cursor of `process_lisp_map_reply`. */
module MapReply {
  import opened Addresses
  import opened MapCache
  import opened TrieNodes

  type Bytes = seq<byte>

  // the memory from the start of the packet on; the decoder checks no length
  type Packet = nat -> byte

  const HEADER := 12      // struct lisp_map_reply
  const RECORD := 12      // struct lisp_record, without the prefix
  const LOCATOR := 8      // struct lisp_locator, without the address
  const RECORD_TTL: byte := 10  // minutes

  datatype Locator = Locator(addr: Rloc, priority: byte, weight: byte, mPriority: byte, mWeight: byte)

  datatype Afi = Ipv4 | Ipv6 | OtherAfi

  // what the decoder finds in one record
  datatype Record = Record(ttl: int, mask: nat, afi: Afi, eid: Addr, act: Action, locators: seq<Locator>)

  function AfiOf(f: Family): Afi {
    if f == V4 then Ipv4 else Ipv6
  }

  // LISP_RECORD_PKT_LEN and LISP_LOCATOR_PKT_LEN count sixteen bytes for whatever is not IPv4
  function AddrLen(afi: Afi): nat {
    if afi == Ipv4 then 4 else 16
  }

  // ---- bytes ----

  type byte = x: int | 0 <= x < 256

  function Octet(b: bv8): byte {
    b as int
  }

  function Bv(x: byte): bv8 {
    x as bv8
  }

  lemma OctetBack(b: bv8)
    ensures Bv(Octet(b)) == b
  {
  }

  // ---- encoding ----

  function AfiBytes(f: Family): Bytes {
    [0, if f == V4 then 1 else 2]
  }

  function AddrBytes(f: Family, a: Addr): Bytes {
    seq(AddrLen(AfiOf(f)), i requires 0 <= i < AddrLen(AfiOf(f)) => Octet(a[i]))
  }

  // type 2, P flag, one record
  function HeaderBytes(nonce: Bytes): Bytes {
    [0x28, 0, 0, 1] + nonce
  }

  function RecordFields(f: Family, bitlen: nat, count: nat): Bytes {
    [0, 0, 0, RECORD_TTL, count % 256, bitlen % 256, 0, 0, 0, 0] + AfiBytes(f)
  }

  function RecordBytes(f: Family, addr: Addr, bitlen: nat, count: nat): Bytes {
    RecordFields(f, bitlen, count) + AddrBytes(f, addr)
  }

  // the R and L flags are set
  function LocatorBytes(loc: Locator): Bytes
    requires loc.addr.Rloc?
  {
    [loc.priority, loc.weight, loc.mPriority, loc.mWeight, 0, 0x05] + AfiBytes(loc.addr.family)
    + AddrBytes(loc.addr.family, loc.addr.addr)
  }

  predicate AllKnown(locs: seq<Locator>) {
    forall loc | loc in locs :: loc.addr.Rloc?
  }

  function LocatorsBytes(locs: seq<Locator>): Bytes
    requires AllKnown(locs)
  {
    if locs == [] then [] else LocatorBytes(locs[0]) + LocatorsBytes(locs[1..])
  }

  function ReplyBytes(f: Family, addr: Addr, bitlen: nat, nonce: Bytes, locs: seq<Locator>): Bytes
    requires AllKnown(locs)
  {
    HeaderBytes(nonce) + RecordBytes(f, addr, bitlen, |locs|) + LocatorsBytes(locs)
  }

  // ---- decoding ----

  function ReadAfi(pkt: Packet, at: nat): Afi {
    if pkt(at) != 0 then OtherAfi else if pkt(at + 1) == 1 then Ipv4 else if pkt(at + 1) == 2 then Ipv6 else OtherAfi
  }

  function ReadAddr(pkt: Packet, at: nat, f: Family): Addr {
    CopyAddr(f, seq(16, i requires 0 <= i < 16 => Bv(pkt(at + i))))
  }

  // ntohl (record_ttl) * 60, in 32 bits, as an int
  function Seconds(pkt: Packet, at: nat): int {
    var minutes := ((pkt(at) * 256 + pkt(at + 1)) * 256 + pkt(at + 2)) * 256 + pkt(at + 3);
    var product := minutes * 60 % 0x1_0000_0000;
    if product >= 0x8000_0000 then product - 0x1_0000_0000 else product
  }

  // lisp_locator_pkt_to_locator
  function ReadLocator(pkt: Packet, at: nat): Locator {
    var addr := match ReadAfi(pkt, at + 6)
      case Ipv4 => Rloc(V4, ReadAddr(pkt, at + LOCATOR, V4))
      case Ipv6 => Rloc(V6, ReadAddr(pkt, at + LOCATOR, V6))
      case OtherAfi => Unset;
    Locator(addr, pkt(at), pkt(at + 1), pkt(at + 2), pkt(at + 3))
  }

  function LocatorLen(pkt: Packet, at: nat): nat {
    LOCATOR + AddrLen(ReadAfi(pkt, at + 6))
  }

  function RecordLen(pkt: Packet, at: nat): nat {
    RECORD + AddrLen(ReadAfi(pkt, at + 10))
  }

  function Locators(pkt: Packet, at: nat, n: nat): (locs: seq<Locator>)
    ensures |locs| == n
    decreases n
  {
    if n == 0 then [] else [ReadLocator(pkt, at)] + Locators(pkt, at + LocatorLen(pkt, at), n - 1)
  }

  function LocatorsEnd(pkt: Packet, at: nat, n: nat): nat
    decreases n
  {
    if n == 0 then at else LocatorsEnd(pkt, at + LocatorLen(pkt, at), n - 1)
  }

  // the top three bits
  function ReadAction(b: byte): Action {
    var act := b / 32;
    if act == 0 then NoAction else if act == 1 then Native else if act == 2 then SendRequest
    else if act == 3 then DropPackets else Unknown
  }

  function ReadRecord(pkt: Packet, at: nat): Record {
    var afi := ReadAfi(pkt, at + 10);
    var eid := ReadAddr(pkt, at + RECORD, if afi == Ipv4 then V4 else V6);
    Record(Seconds(pkt, at), pkt(at + 5), afi, eid, ReadAction(pkt(at + 6)),
           Locators(pkt, at + RecordLen(pkt, at), pkt(at + 4)))
  }

  function RecordEnd(pkt: Packet, at: nat): nat {
    LocatorsEnd(pkt, at + RecordLen(pkt, at), pkt(at + 4))
  }

  function Records(pkt: Packet, at: nat, n: nat): (rs: seq<Record>)
    ensures |rs| == n
    decreases n
  {
    if n == 0 then [] else [ReadRecord(pkt, at)] + Records(pkt, RecordEnd(pkt, at), n - 1)
  }

  function RecordsEnd(pkt: Packet, at: nat, n: nat): nat
    decreases n
  {
    if n == 0 then at else RecordsEnd(pkt, RecordEnd(pkt, at), n - 1)
  }

  // ---- round trip ----

  // the packet holds these bytes at this place
  ghost predicate Holds(pkt: Packet, at: nat, b: Bytes) {
    forall i | 0 <= i < |b| :: pkt(at + i) == b[i]
  }

  lemma HoldsParts(pkt: Packet, at: nat, a: Bytes, b: Bytes)
    requires Holds(pkt, at, a + b)
    ensures Holds(pkt, at, a) && Holds(pkt, at + |a|, b)
  {
    forall i | 0 <= i < |a| ensures pkt(at + i) == a[i] { assert (a + b)[i] == a[i]; }
    forall i | 0 <= i < |b| ensures pkt(at + |a| + i) == b[i] { assert (a + b)[|a| + i] == b[i]; }
  }

  // an address as it comes out: IPv4 has four bytes
  function Carried(addr: Rloc): Rloc {
    if addr.Rloc? then Rloc(addr.family, CopyAddr(addr.family, addr.addr)) else addr
  }

  lemma AddrBack(pkt: Packet, at: nat, f: Family, a: Addr)
    requires Holds(pkt, at, AddrBytes(f, a))
    ensures ReadAddr(pkt, at, f) == CopyAddr(f, a)
  {
    var n, b := AddrLen(AfiOf(f)), AddrBytes(f, a);
    var s := seq(16, i requires 0 <= i < 16 => Bv(pkt(at + i)));
    forall i | 0 <= i < n ensures s[i] == a[i] {
      assert pkt(at + i) == b[i];
      OctetBack(a[i]);
    }
    assert s[..n] == a[..n];
  }

  lemma LocatorBack(pkt: Packet, at: nat, loc: Locator)
    requires loc.addr.Rloc? && Holds(pkt, at, LocatorBytes(loc))
    ensures ReadLocator(pkt, at) == loc.(addr := Carried(loc.addr))
    ensures LocatorLen(pkt, at) == |LocatorBytes(loc)|
  {
    var f, b := loc.addr.family, LocatorBytes(loc);
    assert pkt(at) == b[0] && pkt(at + 1) == b[1] && pkt(at + 2) == b[2] && pkt(at + 3) == b[3];
    assert pkt(at + 6) == b[6] && pkt(at + 7) == b[7];
    HoldsParts(pkt, at, b[..8], AddrBytes(f, loc.addr.addr));
    AddrBack(pkt, at + 8, f, loc.addr.addr);
  }

  function CarriedAll(locs: seq<Locator>): (r: seq<Locator>)
    ensures |r| == |locs|
  {
    if locs == [] then [] else [locs[0].(addr := Carried(locs[0].addr))] + CarriedAll(locs[1..])
  }

  // the locators come back in order, as many as the count says
  lemma {:induction false} LocatorsBack(pkt: Packet, at: nat, locs: seq<Locator>, n: nat)
    requires AllKnown(locs) && n <= |locs| && Holds(pkt, at, LocatorsBytes(locs))
    ensures Locators(pkt, at, n) == CarriedAll(locs[..n])
    ensures LocatorsEnd(pkt, at, n) == at + |LocatorsBytes(locs[..n])|
    decreases n
  {
    if n > 0 {
      var first, some := LocatorBytes(locs[0]), locs[..n];
      HoldsParts(pkt, at, first, LocatorsBytes(locs[1..]));
      LocatorBack(pkt, at, locs[0]);
      LocatorsBack(pkt, at + |first|, locs[1..], n - 1);
      assert some[1..] == locs[1..][..n - 1] && some[0] == locs[0];
      assert |LocatorsBytes(some)| == |first| + |LocatorsBytes(some[1..])|;
    }
  }

  lemma SecondsBack(pkt: Packet, at: nat)
    requires pkt(at) == 0 && pkt(at + 1) == 0 && pkt(at + 2) == 0 && pkt(at + 3) == RECORD_TTL
    ensures Seconds(pkt, at) == 600
  {
  }

  lemma FieldsBack(pkt: Packet, at: nat, f: Family, bitlen: nat, count: nat)
    requires Holds(pkt, at, RecordFields(f, bitlen, count))
    ensures pkt(at) == 0 && pkt(at + 1) == 0 && pkt(at + 2) == 0 && pkt(at + 3) == RECORD_TTL
    ensures pkt(at + 4) == count % 256 && pkt(at + 5) == bitlen % 256
    ensures ReadAction(pkt(at + 6)) == NoAction && ReadAfi(pkt, at + 10) == AfiOf(f)
  {
    var b := RecordFields(f, bitlen, count);
    assert pkt(at) == pkt(at + 0) == b[0] && pkt(at + 1) == b[1] && pkt(at + 2) == b[2] && pkt(at + 3) == b[3];
    assert pkt(at + 4) == b[4] && pkt(at + 5) == b[5] && pkt(at + 6) == b[6];
    assert pkt(at + 10) == b[10] && pkt(at + 11) == b[11];
  }

  // the fields of a record at this place, and its length without the locators
  ghost predicate RecordAt(pkt: Packet, at: nat, f: Family, addr: Addr, bitlen: nat, n: nat, len: nat) {
    && Seconds(pkt, at) == 600 && pkt(at + 4) == n && pkt(at + 5) == bitlen
    && ReadAction(pkt(at + 6)) == NoAction && ReadAfi(pkt, at + 10) == AfiOf(f)
    && ReadAddr(pkt, at + RECORD, f) == CopyAddr(f, addr) && RecordLen(pkt, at) == len
  }

  lemma {:induction false} HeadBack(pkt: Packet, at: nat, f: Family, addr: Addr, bitlen: nat, count: nat)
    requires bitlen <= MaxLen(f) && Holds(pkt, at, RecordBytes(f, addr, bitlen, count))
    ensures RecordAt(pkt, at, f, addr, bitlen, count % 256, |RecordBytes(f, addr, bitlen, count)|)
  {
    HoldsParts(pkt, at, RecordFields(f, bitlen, count), AddrBytes(f, addr));
    FieldsBack(pkt, at, f, bitlen, count);
    SecondsBack(pkt, at);
    AddrBack(pkt, at + 12, f, addr);
  }

  // a record with its locators, decoded
  lemma {:induction false} RecordBack(pkt: Packet, at: nat, f: Family, addr: Addr, bitlen: nat,
      locs: seq<Locator>, n: nat, len: nat)
    requires AllKnown(locs) && n <= |locs| && RecordAt(pkt, at, f, addr, bitlen, n, len)
    requires Holds(pkt, at + len, LocatorsBytes(locs))
    ensures ReadRecord(pkt, at) == Record(600, bitlen, AfiOf(f), CopyAddr(f, addr), NoAction, CarriedAll(locs[..n]))
    ensures RecordEnd(pkt, at) == at + len + |LocatorsBytes(locs[..n])|
  {
    LocatorsBack(pkt, at + len, locs, n);
  }

  /** The decoder recovers from the encoder's bytes, whatever follows them, the prefix and every field of the
      locators, in order; the count has eight bits. */
  lemma {:induction false} RoundTrip(pkt: Packet, f: Family, addr: Addr, bitlen: nat, nonce: Bytes, locs: seq<Locator>)
    requires bitlen <= MaxLen(f) && |nonce| == 8 && AllKnown(locs)
    requires Holds(pkt, 0, ReplyBytes(f, addr, bitlen, nonce, locs))
    ensures pkt(3) == 1
    ensures Records(pkt, HEADER, 1)
         == [Record(600, bitlen, AfiOf(f), CopyAddr(f, addr), NoAction, CarriedAll(locs[..|locs| % 256]))]
    ensures RecordsEnd(pkt, HEADER, 1) == |ReplyBytes(f, addr, bitlen, nonce, locs[..|locs| % 256])|
  {
    var h, r, n := HeaderBytes(nonce), RecordBytes(f, addr, bitlen, |locs|), |locs| % 256;
    ReplySplit(pkt, h, r, LocatorsBytes(locs));
    assert pkt(3) == pkt(0 + 3) == h[3];
    HeadBack(pkt, 12, f, addr, bitlen, |locs|);
    RecordBack(pkt, 12, f, addr, bitlen, locs, n, |r|);
    OneRecord(pkt, 12);
    ReplyLen(f, addr, bitlen, nonce, locs[..n]);
  }

  lemma ReplySplit(pkt: Packet, h: Bytes, r: Bytes, l: Bytes)
    requires Holds(pkt, 0, h + r + l)
    ensures Holds(pkt, 0, h) && Holds(pkt, |h|, r) && Holds(pkt, |h| + |r|, l)
  {
    HoldsParts(pkt, 0, h + r, l);
    HoldsParts(pkt, 0, h, r);
  }

  // what comes back when the count fits its eight bits
  function Decoded(f: Family, addr: Addr, bitlen: nat, locs: seq<Locator>): Record {
    Record(600, bitlen, AfiOf(f), CopyAddr(f, addr), NoAction, CarriedAll(locs))
  }

  lemma {:induction false} RoundTripAll(pkt: Packet, f: Family, addr: Addr, bitlen: nat, nonce: Bytes,
      locs: seq<Locator>)
    requires bitlen <= MaxLen(f) && |nonce| == 8 && AllKnown(locs) && |locs| < 256
    requires Holds(pkt, 0, ReplyBytes(f, addr, bitlen, nonce, locs))
    ensures pkt(3) == 1 && Records(pkt, HEADER, 1) == [Decoded(f, addr, bitlen, locs)]
    ensures RecordsEnd(pkt, HEADER, 1) == |ReplyBytes(f, addr, bitlen, nonce, locs)|
  {
    RoundTrip(pkt, f, addr, bitlen, nonce, locs);
    var n := |locs| % 256;
    assert n == |locs|;
    assert locs[..n] == locs;
  }

  lemma {:induction false} OneRecord(pkt: Packet, at: nat)
    ensures Records(pkt, at, 1) == [ReadRecord(pkt, at)] && RecordsEnd(pkt, at, 1) == RecordEnd(pkt, at)
  {
    assert Records(pkt, RecordEnd(pkt, at), 0) == [];
  }

  // the message ends where the encoder ended exactly when the locators are fewer than 256
  lemma {:induction false} RoundTripEnd(pkt: Packet, f: Family, addr: Addr, bitlen: nat, nonce: Bytes,
      locs: seq<Locator>)
    requires bitlen <= MaxLen(f) && |nonce| == 8 && AllKnown(locs)
    requires Holds(pkt, 0, ReplyBytes(f, addr, bitlen, nonce, locs))
    ensures RecordsEnd(pkt, HEADER, 1) == |ReplyBytes(f, addr, bitlen, nonce, locs)| <==> |locs| < 256
  {
    RoundTrip(pkt, f, addr, bitlen, nonce, locs);
    ReplyShorter(f, addr, bitlen, nonce, locs, |locs| % 256);
  }

  lemma {:induction false} ReplyShorter(f: Family, addr: Addr, bitlen: nat, nonce: Bytes, locs: seq<Locator>, n: nat)
    requires AllKnown(locs) && n <= |locs|
    ensures |ReplyBytes(f, addr, bitlen, nonce, locs[..n])| == |ReplyBytes(f, addr, bitlen, nonce, locs)|
       <==> n == |locs|
  {
    ReplyLen(f, addr, bitlen, nonce, locs);
    ReplyLen(f, addr, bitlen, nonce, locs[..n]);
    LocatorsLen(locs, n);
  }

  lemma ReplyLen(f: Family, addr: Addr, bitlen: nat, nonce: Bytes, locs: seq<Locator>)
    requires AllKnown(locs)
    ensures |ReplyBytes(f, addr, bitlen, nonce, locs)| == 4 + |nonce| + 12 + AddrLen(AfiOf(f)) + |LocatorsBytes(locs)|
  {
  }

  lemma {:induction false} LocatorsLen(locs: seq<Locator>, n: nat)
    requires AllKnown(locs) && n <= |locs|
    ensures 12 * (|locs| - n) <= |LocatorsBytes(locs)| - |LocatorsBytes(locs[..n])| <= 24 * (|locs| - n)
  {
    if n > 0 {
      LocatorsLen(locs[1..], n - 1);
      assert locs[..n][1..] == locs[1..][..n - 1];
    } else if locs != [] {
      LocatorsLen(locs[1..], 0);
      assert locs[1..][..0] == locs[..0];
    }
  }

  // how many locators have this family
  function Count(locs: seq<Locator>, f: Family): nat {
    if locs == [] then 0
    else (if locs[0].addr.Rloc? && locs[0].addr.family == f then 1 else 0) + Count(locs[1..], f)
  }

  lemma {:induction false} LocatorsExact(locs: seq<Locator>)
    requires AllKnown(locs)
    ensures |LocatorsBytes(locs)| == 12 * Count(locs, V4) + 24 * Count(locs, V6)
    ensures Count(locs, V4) + Count(locs, V6) == |locs|
  {
    if locs != [] { LocatorsExact(locs[1..]); }
  }

  // which messages fit the buffer of 1024 bytes; 41 locators always do
  lemma {:induction false} Fits(f: Family, addr: Addr, bitlen: nat, nonce: Bytes, locs: seq<Locator>)
    requires |nonce| == 8 && AllKnown(locs)
    ensures |ReplyBytes(f, addr, bitlen, nonce, locs)| <= 1024
       <==> AddrLen(AfiOf(f)) + 12 * Count(locs, V4) + 24 * Count(locs, V6) <= 1000
    ensures |locs| <= 41 ==> |ReplyBytes(f, addr, bitlen, nonce, locs)| <= 1024
  {
    ReplyLen(f, addr, bitlen, nonce, locs);
    LocatorsExact(locs);
  }

  // of 256 locators the decoder sees none; no such message fits the buffer
  lemma {:induction false} Lost256(pkt: Packet, f: Family, addr: Addr, bitlen: nat, nonce: Bytes, locs: seq<Locator>)
    requires bitlen <= MaxLen(f) && |nonce| == 8 && AllKnown(locs) && |locs| == 256
    requires Holds(pkt, 0, ReplyBytes(f, addr, bitlen, nonce, locs))
    ensures Records(pkt, HEADER, 1) == [Decoded(f, addr, bitlen, [])]
    ensures |ReplyBytes(f, addr, bitlen, nonce, locs)| > 1024
  {
    RoundTrip(pkt, f, addr, bitlen, nonce, locs);
    assert locs[..0] == [];
    Fits(f, addr, bitlen, nonce, locs);
    LocatorsExact(locs);
  }

  // ---- set_lisp_map_reply ----

  // memcpy into the buffer
  method PutBytes(buf: array<byte>, at: nat, b: Bytes)
    requires at + |b| <= buf.Length
    modifies buf
    ensures buf[..at + |b|] == old(buf[..at]) + b && buf[at + |b|..] == old(buf[at + |b|..])
  {
    var i := 0;
    while i < |b|
      invariant 0 <= i <= |b|
      invariant buf[..at] == old(buf[..at]) && buf[at..at + i] == b[..i]
      invariant buf[at + i..] == old(buf[at + i..])
    {
      buf[at + i] := b[i];
      i := i + 1;
    }
    assert buf[..at + |b|] == buf[..at] + buf[at..at + |b|];
  }

  // the bytes that the loop over the locators writes; it stops at an address of unknown family
  function Room(locs: seq<Locator>): nat {
    if locs == [] then 0
    else if locs[0].addr == Unset then LOCATOR
    else LOCATOR + AddrLen(AfiOf(locs[0].addr.family)) + Room(locs[1..])
  }

  function LocatorFields(loc: Locator): Bytes {
    [loc.priority, loc.weight, loc.mPriority, loc.mWeight, 0, 0x05]
    + AfiBytes(if loc.addr.Rloc? then loc.addr.family else V6)
  }

  lemma {:induction false} LocatorsMore(locs: seq<Locator>, loc: Locator)
    requires AllKnown(locs) && loc.addr.Rloc?
    ensures LocatorsBytes(locs + [loc]) == LocatorsBytes(locs) + LocatorBytes(loc)
  {
    if locs == [] {
      assert [loc][1..] == [] && [] + [loc] == [loc];
    } else {
      var first, tail, x := LocatorBytes(locs[0]), LocatorsBytes(locs[1..]), LocatorBytes(loc);
      LocatorsMore(locs[1..], loc);
      assert (locs + [loc])[1..] == locs[1..] + [loc] && (locs + [loc])[0] == locs[0];
      assert first + (tail + x) == first + tail + x;
    }
  }

  method PutLocator(buf: array<byte>, at: nat, loc: Locator) returns (end: int)
    requires at + Room([loc]) <= buf.Length
    modifies buf
    ensures loc.addr == Unset ==> end == -1
    ensures loc.addr.Rloc? ==> end == at + |LocatorBytes(loc)| <= buf.Length
    ensures loc.addr.Rloc? ==> buf[..end] == old(buf[..at]) + LocatorBytes(loc) && buf[end..] == old(buf[end..])
  {
    PutBytes(buf, at, LocatorFields(loc));
    if loc.addr == Unset {
      return -1;
    }
    var a := AddrBytes(loc.addr.family, loc.addr.addr);
    assert LocatorBytes(loc) == LocatorFields(loc) + a;
    PutBytes(buf, at + 8, a);
    end := at + 8 + |a|;
  }

  // header and record
  method PutRecord(buf: array<byte>, f: Family, addr: Addr, bitlen: nat, nonce: Bytes, count: nat) returns (pktlen: nat)
    requires |nonce| == 8 && 24 + AddrLen(AfiOf(f)) <= buf.Length
    modifies buf
    ensures pktlen == 24 + AddrLen(AfiOf(f))
    ensures buf[..pktlen] == HeaderBytes(nonce) + RecordBytes(f, addr, bitlen, count)
    ensures buf[pktlen..] == old(buf[pktlen..])
  {
    var h, r, a := HeaderBytes(nonce), RecordFields(f, bitlen, count), AddrBytes(f, addr);
    ghost var was := buf[..];
    PutBytes(buf, 0, h);
    assert buf[12..] == was[12..];
    PutBytes(buf, 12, r);
    assert buf[..24] == h + r && buf[24..] == was[12..][12..] == was[24..];
    pktlen := 24 + AddrLen(AfiOf(f));
    assert buf[pktlen..] == buf[24..][pktlen - 24..] == was[24..][pktlen - 24..] == was[pktlen..];
    PutBytes(buf, 24, a);
    assert h + r + a == h + (r + a);
  }

  method PutNext(buf: array<byte>, at: nat, locs: seq<Locator>, i: nat, ghost head: Bytes) returns (end: int)
    requires i < |locs| && AllKnown(locs[..i]) && at + Room(locs[i..]) <= buf.Length
    requires buf[..at] == head + LocatorsBytes(locs[..i])
    modifies buf
    ensures locs[i].addr == Unset ==> end == -1 && !AllKnown(locs)
    ensures locs[i].addr.Rloc? ==> AllKnown(locs[..i + 1]) && at <= end && end + Room(locs[i + 1..]) <= buf.Length
    ensures locs[i].addr.Rloc? ==> buf[..end] == head + LocatorsBytes(locs[..i + 1]) && buf[end..] == old(buf[end..])
  {
    LocatorRound(locs, i);
    end := PutLocator(buf, at, locs[i]);
    assert locs[i].addr.Rloc? ==>
        head + LocatorsBytes(locs[..i]) + LocatorBytes(locs[i]) == head + LocatorsBytes(locs[..i + 1]);
  }

  // the loop over the locators
  method PutLocators(buf: array<byte>, at: nat, locs: seq<Locator>) returns (len: int)
    requires at + Room(locs) <= buf.Length
    modifies buf
    ensures len == -1 <==> !AllKnown(locs)
    ensures AllKnown(locs) ==> at <= len <= buf.Length
    ensures AllKnown(locs) ==> buf[..len] == old(buf[..at]) + LocatorsBytes(locs) && buf[len..] == old(buf[len..])
  {
    var pktlen: nat, i := at, 0;
    ghost var head := buf[..at];
    while i < |locs|
      invariant 0 <= i <= |locs| && AllKnown(locs[..i]) && at <= pktlen && pktlen + Room(locs[i..]) <= buf.Length
      invariant buf[..pktlen] == head + LocatorsBytes(locs[..i]) && buf[pktlen..] == old(buf[pktlen..])
    {
      var end := PutNext(buf, pktlen, locs, i, head);
      if end < 0 {
        return -1;
      }
      pktlen := end;
      i := i + 1;
    }
    assert locs[..i] == locs;
    return pktlen;
  }

  lemma LocatorRound(locs: seq<Locator>, i: nat)
    requires i < |locs| && AllKnown(locs[..i])
    ensures Room([locs[i]]) <= Room(locs[i..]) && (locs[i].addr == Unset ==> !AllKnown(locs))
    ensures locs[i].addr.Rloc? ==>
              && AllKnown(locs[..i + 1])
              && LocatorsBytes(locs[..i + 1]) == LocatorsBytes(locs[..i]) + LocatorBytes(locs[i])
              && Room(locs[i..]) == |LocatorBytes(locs[i])| + Room(locs[i + 1..])
  {
    var done, loc, rest := locs[..i], locs[i], locs[i..];
    assert rest[0] == loc && rest[1..] == locs[i + 1..] && locs[..i + 1] == done + [loc] && [loc][1..] == [];
    if loc.addr.Rloc? { LocatorsMore(done, loc); }
  }

  /** The encoder. The length is not checked against the buffer; -1 is the answer to a locator of unknown family. */
  method SetMapReply(buf: array<byte>, f: Family, addr: Addr, bitlen: nat, nonce: Bytes, locs: seq<Locator>)
    returns (len: int)
    requires |nonce| == 8 && 24 + AddrLen(AfiOf(f)) + Room(locs) <= buf.Length
    modifies buf
    ensures len == -1 <==> !AllKnown(locs)
    ensures AllKnown(locs) ==> len == |ReplyBytes(f, addr, bitlen, nonce, locs)| <= buf.Length
    ensures AllKnown(locs) ==> buf[..len] == ReplyBytes(f, addr, bitlen, nonce, locs) && buf[len..] == old(buf[len..])
  {
    var pktlen := PutRecord(buf, f, addr, bitlen, nonce, |locs|);
    len := PutLocators(buf, pktlen, locs);
    assert AllKnown(locs) ==> len == |buf[..len]|;
  }

  // ---- the choice of the locator ----

  ghost predicate IsFirstMax(locs: seq<Locator>, i: nat) {
    && i < |locs|
    && (forall j | 0 <= j < |locs| :: locs[j].priority <= locs[i].priority)
    && (forall j | 0 <= j < i :: locs[j].priority < locs[i].priority)
  }

  // the first of the locators with the largest priority number
  function Chosen(locs: seq<Locator>): (i: nat)
    requires locs != []
    ensures IsFirstMax(locs, i)
  {
    if |locs| == 1 then 0
    else
      var last := |locs| - 1;
      var i := Chosen(locs[..last]);
      assert forall j | 0 <= j < last :: locs[..last][j] == locs[j];
      if locs[i].priority < locs[last].priority then last else i
  }

  lemma FirstMaxUnique(locs: seq<Locator>, i: nat, j: nat)
    requires IsFirstMax(locs, i) && IsFirstMax(locs, j)
    ensures i == j
  {
    assert locs[i].priority <= locs[j].priority && locs[j].priority <= locs[i].priority;
  }

  ghost predicate IsLowest(locs: seq<Locator>, i: nat)
    requires i < |locs|
  {
    forall j | 0 <= j < |locs| :: locs[i].priority <= locs[j].priority
  }

  /** Section 6.1.4 of RFC 6830 prefers the lowest priority value; the choice follows it only if all are equal. */
  lemma ChosenIsLowest(locs: seq<Locator>)
    requires locs != []
    ensures IsLowest(locs, Chosen(locs)) <==> forall i | 0 <= i < |locs| :: IsLowest(locs, i)
  {
    var c := Chosen(locs);
    if IsLowest(locs, c) {
      forall i | 0 <= i < |locs| ensures IsLowest(locs, i) {
        assert locs[i].priority <= locs[c].priority;
      }
    }
  }

  // two locators, and the choice that section 6.1.4 of RFC 6830 does not make
  lemma ChosenHighest(a: Locator, b: Locator)
    requires a.priority == 1 && b.priority == 2
    ensures Chosen([a, b]) == 1 && !IsLowest([a, b], Chosen([a, b]))
  {
    var locs := [a, b];
    assert locs[0] == a && locs[1] == b;
    assert IsFirstMax(locs, 1);
    FirstMaxUnique(locs, 1, Chosen(locs));
    assert !(locs[1].priority <= locs[0].priority);
  }

  lemma {:induction false} LocatorsSnoc(pkt: Packet, at: nat, n: nat)
    ensures Locators(pkt, at, n + 1) == Locators(pkt, at, n) + [ReadLocator(pkt, LocatorsEnd(pkt, at, n))]
    ensures LocatorsEnd(pkt, at, n + 1) == LocatorsEnd(pkt, at, n) + LocatorLen(pkt, LocatorsEnd(pkt, at, n))
    decreases n
  {
    if n > 0 {
      LocatorsSnoc(pkt, at + LocatorLen(pkt, at), n - 1);
    } else {
      assert LocatorsEnd(pkt, at + LocatorLen(pkt, at), 0) == at + LocatorLen(pkt, at);
      assert Locators(pkt, at + LocatorLen(pkt, at), 0) == [];
    }
  }

  lemma MaxMore(locs: seq<Locator>, x: Locator, i: nat)
    requires locs == [] || IsFirstMax(locs, i)
    ensures locs == [] ==> IsFirstMax(locs + [x], 0)
    ensures locs != [] ==> IsFirstMax(locs + [x], if locs[i].priority < x.priority then |locs| else i)
  {
    assert forall j | 0 <= j < |locs| :: (locs + [x])[j] == locs[j];
  }

  // the inner loop of process_lisp_map_reply
  method ChooseLocator(pkt: Packet, at: nat, n: nat) returns (lisploc: nat, end: nat)
    requires n > 0
    ensures ReadLocator(pkt, lisploc) == Locators(pkt, at, n)[Chosen(Locators(pkt, at, n))]
    ensures end == LocatorsEnd(pkt, at, n)
  {
    lisploc, end := at, at;
    var i := 0;
    ghost var best := 0;
    while i < n
      invariant 0 <= i <= n && end == LocatorsEnd(pkt, at, i) && (i == 0 ==> lisploc == end && best == 0)
      invariant i > 0 ==> IsFirstMax(Locators(pkt, at, i), best)
      invariant i > 0 ==> ReadLocator(pkt, lisploc) == Locators(pkt, at, i)[best]
    {
      LocatorsSnoc(pkt, at, i);
      ghost var before, x := Locators(pkt, at, i), ReadLocator(pkt, end);
      MaxMore(before, x, best);
      assert i > 0 ==> pkt(lisploc) == before[best].priority;
      if pkt(lisploc) < pkt(end) {
        lisploc := end;
        best := i;
      }
      end := end + LocatorLen(pkt, end);
      i := i + 1;
    }
    FirstMaxUnique(Locators(pkt, at, n), best, Chosen(Locators(pkt, at, n)));
  }
}
