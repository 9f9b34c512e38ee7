/** Addresses as big-endian numbers: what the bit tests, the masks and the order of visits mean for them. */
module AddressNumbers {
  import opened Addresses
  import opened BitStrings
  import opened PatriciaSearch
  import opened PatriciaTrie
  import opened PatriciaWalk
  import opened TrieLinks
  import opened TrieNodes
  import opened WalkOrder

  function Pow2(n: nat): (p: nat)
    ensures p > 0
  {
    if n == 0 then 1 else 2 * Pow2(n - 1)
  }

  // the sixteen bytes in network order
  function Number(a: seq<bv8>): nat {
    if a == [] then 0 else 256 * Number(a[..|a| - 1]) + a[|a| - 1] as int
  }

  function Digit(b: bool): nat {
    if b then 1 else 0
  }

  // a bit string as a binary number, most significant bit first
  function Binary(s: seq<bool>): nat {
    if s == [] then 0 else 2 * Binary(s[..|s| - 1]) + Digit(s[|s| - 1])
  }

  // ---- bytes ----

  lemma ByteNumber(x: bv8)
    ensures x as int == 128 * Digit(BitTest(x, 0)) + 64 * Digit(BitTest(x, 1)) + 32 * Digit(BitTest(x, 2))
                      + 16 * Digit(BitTest(x, 3)) + 8 * Digit(BitTest(x, 4)) + 4 * Digit(BitTest(x, 5))
                      + 2 * Digit(BitTest(x, 6)) + Digit(BitTest(x, 7))
  {
  }

  // ---- bit strings ----

  lemma {:induction false} BinaryBound(s: seq<bool>)
    ensures Binary(s) < Pow2(|s|)
  {
    if s != [] { BinaryBound(s[..|s| - 1]); }
  }

  lemma {:induction false} BinaryJoin(s: seq<bool>, t: seq<bool>)
    ensures Binary(s + t) == Binary(s) * Pow2(|t|) + Binary(t)
  {
    if t == [] {
      assert s + t == s;
    } else {
      var u := t[..|t| - 1];
      BinaryJoin(s, u);
      assert (s + t)[..|s + t| - 1] == s + u;
      assert Binary(s) * Pow2(|t|) == 2 * (Binary(s) * Pow2(|u|));
    }
  }

  lemma {:induction false} BinaryInjective(s: seq<bool>, t: seq<bool>)
    requires |s| == |t| && Binary(s) == Binary(t)
    ensures s == t
  {
    if s != [] {
      var n := |s| - 1;
      BinaryInjective(s[..n], t[..n]);
      assert s == s[..n] + [s[n]] && t == t[..n] + [t[n]];
    }
  }

  lemma Multiple(k: int, p: int)
    requires p > 0
    ensures k >= 1 ==> k * p >= p
    ensures k <= -1 ==> k * p <= -p
  {
    if k >= 1 { assert k * p == p + (k - 1) * p; }
    if k <= -1 { assert k * p == -p + (k + 1) * p; }
  }

  lemma Quotient(q: nat, p: nat, r: nat)
    requires r < p
    ensures (q * p + r) / p == q
  {
    var x := q * p + r;
    var d := x / p;
    assert x == d * p + x % p;
    Multiple(d - q, p);
    assert (d - q) * p == d * p - q * p;
  }

  // the first n bits are the number without its last bits
  lemma {:induction false} BinaryPrefix(s: seq<bool>, n: nat)
    requires n <= |s|
    ensures Binary(s) / Pow2(|s| - n) == Binary(s[..n])
  {
    assert s == s[..n] + s[n..];
    BinaryJoin(s[..n], s[n..]);
    BinaryBound(s[n..]);
    Quotient(Binary(s[..n]), Pow2(|s| - n), Binary(s[n..]));
  }

  // ---- bytes, bit by bit ----

  ghost function ByteBits(x: bv8): seq<bool> {
    seq(8, j requires 0 <= j < 8 => BitTest(x, j))
  }

  lemma {:induction false} EightBits(b: seq<bool>)
    requires |b| == 8
    ensures Binary(b) == 128 * Digit(b[0]) + 64 * Digit(b[1]) + 32 * Digit(b[2]) + 16 * Digit(b[3])
                       + 8 * Digit(b[4]) + 4 * Digit(b[5]) + 2 * Digit(b[6]) + Digit(b[7])
  {
    assert b[..4][..3] == b[..3] && b[..3][..2] == b[..2] && b[..2][..1] == b[..1] && b[..1][..0] == [];
    assert Binary(b[..1]) == Digit(b[0]);
    assert Binary(b[..2]) == 2 * Binary(b[..1]) + Digit(b[1]);
    assert Binary(b[..3]) == 2 * Binary(b[..2]) + Digit(b[2]);
    assert Binary(b[..4]) == 2 * Binary(b[..3]) + Digit(b[3]);
    assert b[..5][..4] == b[..4] && b[..6][..5] == b[..5] && b[..7][..6] == b[..6] && b[..8] == b;
    assert Binary(b[..5]) == 2 * Binary(b[..4]) + Digit(b[4]);
    assert Binary(b[..6]) == 2 * Binary(b[..5]) + Digit(b[5]);
    assert Binary(b[..7]) == 2 * Binary(b[..6]) + Digit(b[6]);
    assert Binary(b) == 2 * Binary(b[..7]) + Digit(b[7]);
  }

  lemma {:induction false} ByteBinary(x: bv8)
    ensures Binary(ByteBits(x)) == x as int
  {
    EightBits(ByteBits(x));
    ByteNumber(x);
  }

  // the high bits of a byte
  lemma {:induction false} BytePrefix(x: bv8, k: nat)
    requires k <= 8
    ensures x as int / Pow2(8 - k) == Binary(ByteBits(x)[..k])
  {
    ByteBinary(x);
    BinaryPrefix(ByteBits(x), k);
  }

  // bit j of a byte is worth 2 to the power of 7 - j
  lemma {:induction false} BitWorth(x: bv8, j: nat)
    requires j < 8
    ensures BitTest(x, j) <==> x as int / Pow2(7 - j) % 2 == 1
  {
    BytePrefix(x, j + 1);
    LastDigit(ByteBits(x)[..j + 1]);
  }

  lemma {:induction false} LastDigit(s: seq<bool>)
    requires s != []
    ensures Binary(s) % 2 == Digit(s[|s| - 1])
  {
    Parity(Binary(s[..|s| - 1]), s[|s| - 1]);
  }

  lemma Parity(k: nat, b: bool)
    ensures (2 * k + Digit(b)) % 2 == Digit(b)
  {
  }

  // the mask keeps the high bits
  lemma {:induction false} MaskWorth(x: bv8, y: bv8, k: nat)
    requires 0 < k < 8
    ensures MaskEqual(x, y, k) <==> x as int / Pow2(8 - k) == y as int / Pow2(8 - k)
  {
    MaskBits(x, y, k);
    BytePrefix(x, k);
    BytePrefix(y, k);
    SameBits(x, y, k);
  }

  lemma {:induction false} SameBits(x: bv8, y: bv8, k: nat)
    requires k <= 8
    ensures Binary(ByteBits(x)[..k]) == Binary(ByteBits(y)[..k])
       <==> forall j | 0 <= j < k :: BitTest(x, j) == BitTest(y, j)
  {
    var s, t := ByteBits(x)[..k], ByteBits(y)[..k];
    if Binary(s) == Binary(t) {
      BinaryInjective(s, t);
      forall j | 0 <= j < k ensures BitTest(x, j) == BitTest(y, j) {
        assert s[j] == BitTest(x, j) && t[j] == BitTest(y, j);
      }
    }
    if forall j | 0 <= j < k :: BitTest(x, j) == BitTest(y, j) {
      assert s == t;
    }
  }

  // ---- addresses ----

  lemma {:induction false} NumberStep(a: Addr, i: nat)
    requires 0 < i <= 16
    ensures Number(a[..i]) == 256 * Number(a[..i - 1]) + Binary(ByteBits(a[i - 1]))
  {
    assert a[..i][..i - 1] == a[..i - 1];
    ByteBinary(a[i - 1]);
  }

  lemma {:induction false} BytesNumber(a: Addr, i: nat)
    requires i <= 16
    ensures Number(a[..i]) == Binary(Bits(a)[..8 * i])
  {
    if i > 0 {
      BytesNumber(a, i - 1);
      var s, b := Bits(a)[..8 * (i - 1)], Bits(a)[8 * (i - 1)..8 * i];
      assert Bits(a)[..8 * i] == s + b;
      NumberStep(a, i);
      ByteAt(a, i - 1);
      BinaryJoin(s, b);
      assert Pow2(8) == 256 by { assert Pow2(4) == 16; }
    }
  }

  lemma ByteAt(a: Addr, i: nat)
    requires i < 16
    ensures Bits(a)[8 * i..8 * i + 8] == ByteBits(a[i])
  {
    forall j | 0 <= j < 8 ensures Bits(a)[8 * i + j] == BitTest(a[i], j) {
      BitAt(a, 128, 8 * i + j);
      assert (8 * i + j) / 8 == i && (8 * i + j) % 8 == j;
    }
  }

  lemma {:induction false} PrefixNumber(a: Addr, n: nat)
    requires n <= 128
    ensures Number(a) / Pow2(128 - n) == Binary(Bits(a)[..n])
  {
    BytesNumber(a, 16);
    assert a[..16] == a && Bits(a)[..128] == Bits(a);
    BinaryPrefix(Bits(a), n);
  }

  // bit i of an address is worth 2 to the power of 127 - i
  lemma {:induction false} AddrBitWorth(a: Addr, i: nat)
    requires i < 128
    ensures Bits(a)[i] <==> Number(a) / Pow2(127 - i) % 2 == 1
  {
    PrefixNumber(a, i + 1);
    assert Bits(a)[..i + 1][..i] == Bits(a)[..i];
  }

  /** The comparison under a mask is equality of the addresses as numbers, without their last bits. */
  lemma {:induction false} CompNumbers(a: Addr, b: Addr, n: nat)
    requires n <= 128
    ensures CompWithMask(a, b, n) <==> Number(a) / Pow2(128 - n) == Number(b) / Pow2(128 - n)
  {
    CompBits(a, b, n);
    PrefixNumber(a, n);
    PrefixNumber(b, n);
    if Binary(Bits(a)[..n]) == Binary(Bits(b)[..n]) { BinaryInjective(Bits(a)[..n], Bits(b)[..n]); }
  }

  /** One prefix covers another if and only if they agree as numbers without the last bits. */
  lemma {:induction false} CoverNumbers(a: Addr, b: Addr, m: nat, n: nat)
    requires m <= n <= 128
    ensures Covers(Cut(a, m), Cut(b, n)) <==> Number(a) / Pow2(128 - m) == Number(b) / Pow2(128 - m)
  {
    CompNumbers(a, b, m);
    CompBits(a, b, m);
    assert Bits(b)[..n][..m] == Bits(b)[..m];
  }

  // the length of the longest common prefix, read from the numbers
  lemma {:induction false} LcpNumbers(a: Addr, b: Addr, n: nat)
    requires n <= 128
    ensures n <= Lcp(Key(Bits(a)), Key(Bits(b))) <==> Number(a) / Pow2(128 - n) == Number(b) / Pow2(128 - n)
  {
    var x, y := Key(Bits(a)), Key(Bits(b));
    LcpFacts(x, y);
    CompNumbers(a, b, n);
    CompBits(a, b, n);
    if n <= Lcp(x, y) {
      assert x.s[..n] == y.s[..n];
    } else if x.s[..n] == y.s[..n] {
      assert forall j | 0 <= j < n :: x.s[j] == x.s[..n][j] == y.s[j];
      LcpAbove(x, y, n);
    }
  }

  // ---- the best match ----

  // p is no longer than q, or shorter when not inclusive, and the addresses agree as far as p goes
  ghost predicate Agrees(p: Prefix, q: Prefix, inclusive: bool)
    requires p.bitlen <= 128
  {
    && (p.bitlen < q.bitlen || (inclusive && p.bitlen == q.bitlen))
    && Number(p.addr) / Pow2(128 - p.bitlen) == Number(q.addr) / Pow2(128 - p.bitlen)
  }

  // the stored prefix in this node
  ghost predicate Stores(t: Patricia, k: Key, p: Prefix?)
    reads t, t.nodes.Values
  {
    k in t.nodes && t.nodes[k].prefix == p && p != null && p.bitlen <= 128
  }

  lemma {:induction false} CandidateNumbers(t: Patricia, q: Prefix, inclusive: bool, k: Key, p: Prefix)
    requires t.Valid() && q.Ok() && Stores(t, k, p)
    ensures Candidate(t, q.key, inclusive, k) <==> Agrees(p, q, inclusive)
  {
    assert t.TagOk(k, {}) && t.NodeOk(k);
    if p.bitlen <= q.bitlen {
      CoverNumbers(p.addr, q.addr, p.bitlen, q.bitlen);
      if p.bitlen == q.bitlen && Covers(k, q.key) { SameLength(k, q.key); }
    }
  }

  /** The best match, by numbers: a stored prefix that agrees with the query as far as it goes, and the longest such. */
  lemma {:induction false} BestNumbers(t: Patricia, q: Prefix, inclusive: bool, k: Key, p: Prefix)
    requires t.Valid() && q.Ok() && Stores(t, k, p)
    ensures IsBest(t, q.key, inclusive, t.nodes[k]) <==>
              && Agrees(p, q, inclusive)
              && forall j, r: Prefix | Stores(t, j, r) && Agrees(r, q, inclusive) :: r.bitlen <= p.bitlen
  {
    CandidateNumbers(t, q, inclusive, k, p);
    StoredLength(t, k, p);
    if IsBest(t, q.key, inclusive, t.nodes[k]) {
      forall j, r: Prefix | Stores(t, j, r) && Agrees(r, q, inclusive) ensures r.bitlen <= p.bitlen {
        CandidateNumbers(t, q, inclusive, j, r);
        StoredLength(t, j, r);
      }
    } else if Agrees(p, q, inclusive) {
      var j :| Candidate(t, q.key, inclusive, j) && !Covers(j, k);
      var r: Prefix := t.nodes[j].prefix;
      StoredLength(t, j, r);
      CandidateNumbers(t, q, inclusive, j, r);
      assert Stores(t, j, r);
      if r.bitlen <= p.bitlen { BothCover(j, k, q.key); }
    }
  }

  lemma BothCover(a: Key, b: Key, x: Key)
    requires Covers(a, x) && Covers(b, x) && |a.s| <= |b.s|
    ensures Covers(a, b)
  {
  }

  lemma StoredLength(t: Patricia, k: Key, p: Prefix)
    requires t.Valid() && k in t.nodes && t.nodes[k].prefix == p
    ensures p.Ok() && p.key == k && p.bitlen == |k.s| <= 128 && Has(t.nodes, t.nodes[k]) && t.nodes[k].key == k
  {
    assert t.TagOk(k, {}) && t.NodeOk(k);
  }

  /** There is none exactly when no stored prefix agrees. */
  lemma {:induction false} NoneNumbers(t: Patricia, q: Prefix, inclusive: bool)
    requires t.Valid() && q.Ok()
    ensures IsBest(t, q.key, inclusive, null) <==> forall j, r: Prefix | Stores(t, j, r) :: !Agrees(r, q, inclusive)
  {
    forall j, r: Prefix | Stores(t, j, r) ensures Candidate(t, q.key, inclusive, j) <==> Agrees(r, q, inclusive) {
      CandidateNumbers(t, q, inclusive, j, r);
    }
    forall j | Candidate(t, q.key, inclusive, j) ensures Stores(t, j, t.nodes[j].prefix) {
      StoredLength(t, j, t.nodes[j].prefix);
    }
  }

  // ---- the order of visits ----

  lemma {:induction false} LessAt(s: seq<bool>, t: seq<bool>, d: nat)
    requires |s| == |t| && d < |s| && s[..d] == t[..d] && !s[d] && t[d]
    ensures Binary(s) < Binary(t)
  {
    var n := |s| - d - 1;
    assert s == s[..d] + ([false] + s[d + 1..]) && t == t[..d] + ([true] + t[d + 1..]);
    BinaryJoin(s[..d], [false] + s[d + 1..]);
    BinaryJoin(t[..d], [true] + t[d + 1..]);
    HalfWay(s[d + 1..], t[d + 1..]);
  }

  lemma {:induction false} HalfWay(u: seq<bool>, v: seq<bool>)
    requires |u| == |v|
    ensures Binary([false] + u) < Binary([true] + v)
  {
    BinaryJoin([false], u);
    BinaryJoin([true], v);
    BinaryBound(u);
    assert Binary([false]) == 0 && Binary([true]) == 1;
  }

  function Shorter(a: Key, b: Key): nat {
    if |a.s| < |b.s| then |a.s| else |b.s|
  }

  // where neither covers the other, the smaller number comes first
  lemma {:induction false} PartsNumber(a: Key, b: Key, d: nat)
    requires Parts(a, b, d)
    ensures Binary(a.s[..Shorter(a, b)]) < Binary(b.s[..Shorter(a, b)])
  {
    var n := Shorter(a, b);
    assert a.s[..n][..d] == a.s[..d] && b.s[..n][..d] == b.s[..d];
    LessAt(a.s[..n], b.s[..n], d);
  }

  /** The order of visits, as numbers: what the two have in length is compared, and then the shorter comes first. */
  lemma {:induction false} BeforeNumber(a: Key, b: Key)
    ensures var x, y := Binary(a.s[..Shorter(a, b)]), Binary(b.s[..Shorter(a, b)]);
      Before(a, b) <==> x < y || (x == y && |a.s| < |b.s|)
  {
    var n := Shorter(a, b);
    if d: nat :| Parts(a, b, d) {
      PartsNumber(a, b, d);
    } else if d: nat :| Parts(b, a, d) {
      PartsNumber(b, a, d);
      NotBoth(b, a, d);
    } else {
      BeforeTotal(a, b);
      assert a.s[..n] == b.s[..n];
      assert |a.s| == |b.s| ==> a.s == b.s;
    }
  }

  // ---- the order of patricia_walk_inorder ----

  // what continues with 0 comes before, what continues with 1 comes after; where two part, 0 comes before 1
  lemma {:induction false} InfixSides(k: Key, u: seq<bool>, v: seq<bool>)
    ensures Infix(Key(k.s + [false] + u), k) && Infix(k, Key(k.s + [true] + v))
    ensures Infix(Key(k.s + [false] + u), Key(k.s + [true] + v))
  {
    DirParts(k, Key(k.s + [false] + u), Key(k.s + [true] + v));
  }
}
