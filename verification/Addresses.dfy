/** Addresses as the sixteen bytes of `prefix_t.add`, read most significant bit first. */
module Addresses {
  import opened BitStrings

  type Addr = a: seq<bv8> | |a| == 16 witness seq(16, _ => 0)

  // bit j of a byte: `BIT_TEST (x, 0x80 >> j)`
  predicate BitTest(x: bv8, j: nat)
    requires j < 8
  {
    if j == 0 then x & 0x80 != 0 else if j == 1 then x & 0x40 != 0
    else if j == 2 then x & 0x20 != 0 else if j == 3 then x & 0x10 != 0
    else if j == 4 then x & 0x08 != 0 else if j == 5 then x & 0x04 != 0
    else if j == 6 then x & 0x02 != 0 else x & 0x01 != 0
  }

  // equality under the mask m = (-1) << (8 - k): `(x & m) == (y & m)`
  predicate MaskEqual(x: bv8, y: bv8, k: nat)
    requires 0 < k < 8
  {
    if k == 1 then x & 0x80 == y & 0x80 else if k == 2 then x & 0xC0 == y & 0xC0
    else if k == 3 then x & 0xE0 == y & 0xE0 else if k == 4 then x & 0xF0 == y & 0xF0
    else if k == 5 then x & 0xF8 == y & 0xF8 else if k == 6 then x & 0xFC == y & 0xFC
    else x & 0xFE == y & 0xFE
  }

  ghost function BitsOf(a: Addr, n: nat): (k: seq<bool>)
    requires n <= 8 * |a|
    ensures |k| == n
  {
    if n == 0 then [] else BitsOf(a, n - 1) + [BitTest(a[(n - 1) / 8], (n - 1) % 8)]
  }

  ghost function Bits(a: Addr): (k: seq<bool>)
    ensures |k| == 128
  {
    BitsOf(a, 8 * |a|)
  }

  lemma {:induction false} BitAt(a: Addr, n: nat, i: nat)
    requires i < n <= 128
    ensures BitsOf(a, n)[i] == BitTest(a[i / 8], i % 8)
  {
    if i < n - 1 { BitAt(a, n - 1, i); }
  }

  // the bit `addr[i >> 3] & (0x80 >> (i & 0x07))`
  method AddrBit(a: Addr, i: nat) returns (b: bool)
    requires i < 128
    ensures b == Bits(a)[i]
  {
    b := BitTest(a[i / 8], i % 8);
    BitAt(a, 128, i);
  }

  lemma MaskOne(x: bv8, y: bv8)
    ensures MaskEqual(x, y, 1) <==> BitTest(x, 0) == BitTest(y, 0)
  {
  }

  lemma MaskLiterals(x: bv8, y: bv8)
    ensures x & 0xC0 == y & 0xC0 <==> x & 0x80 == y & 0x80 && (x & 0x40 != 0) == (y & 0x40 != 0)
    ensures x & 0xE0 == y & 0xE0 <==> x & 0xC0 == y & 0xC0 && (x & 0x20 != 0) == (y & 0x20 != 0)
    ensures x & 0xF0 == y & 0xF0 <==> x & 0xE0 == y & 0xE0 && (x & 0x10 != 0) == (y & 0x10 != 0)
    ensures x & 0xF8 == y & 0xF8 <==> x & 0xF0 == y & 0xF0 && (x & 0x08 != 0) == (y & 0x08 != 0)
    ensures x & 0xFC == y & 0xFC <==> x & 0xF8 == y & 0xF8 && (x & 0x04 != 0) == (y & 0x04 != 0)
    ensures x & 0xFE == y & 0xFE <==> x & 0xFC == y & 0xFC && (x & 0x02 != 0) == (y & 0x02 != 0)
  {
  }

  lemma MaskStep(x: bv8, y: bv8, k: nat)
    requires 1 < k < 8
    ensures MaskEqual(x, y, k)
            <==> MaskEqual(x, y, k - 1) && BitTest(x, k - 1) == BitTest(y, k - 1)
  {
    MaskLiterals(x, y);
  }

  // two bytes agree under the mask exactly when their first k bits agree
  lemma {:induction false} MaskBits(x: bv8, y: bv8, k: nat)
    requires 0 < k < 8
    ensures MaskEqual(x, y, k) <==> forall j | 0 <= j < k :: BitTest(x, j) == BitTest(y, j)
  {
    if k > 1 {
      MaskBits(x, y, k - 1);
      MaskStep(x, y, k);
    } else {
      MaskOne(x, y);
      assert BitTest(x, 0) == BitTest(y, 0) <==> forall j | 0 <= j < k :: BitTest(x, j) == BitTest(y, j);
    }
  }

  lemma ByteEqual(x: bv8, y: bv8)
    ensures x == y <==> forall j | 0 <= j < 8 :: BitTest(x, j) == BitTest(y, j)
  {
    if forall j | 0 <= j < 8 :: BitTest(x, j) == BitTest(y, j) {
      assert BitTest(x, 0) == BitTest(y, 0);
      assert BitTest(x, 1) == BitTest(y, 1);
      assert BitTest(x, 2) == BitTest(y, 2);
      assert BitTest(x, 3) == BitTest(y, 3);
      assert BitTest(x, 4) == BitTest(y, 4);
      assert BitTest(x, 5) == BitTest(y, 5);
      assert BitTest(x, 6) == BitTest(y, 6);
      assert BitTest(x, 7) == BitTest(y, 7);
    }
  }

  /** Equality of the first `mask` bits, byte by byte. */
  predicate CompWithMask(a: Addr, b: Addr, mask: nat)
    requires mask <= 128
  {
    var n := mask / 8;
    a[..n] == b[..n] && (mask % 8 == 0 || MaskEqual(a[n], b[n], mask % 8))
  }

  lemma CompBits(a: Addr, b: Addr, mask: nat)
    requires mask <= 128
    ensures CompWithMask(a, b, mask) <==> Bits(a)[..mask] == Bits(b)[..mask]
  {
    var n, k := mask / 8, mask % 8;
    BytesBits(a, b, n);
    if k > 0 {
      var x, y := a[n], b[n];
      MaskBits(x, y, k);
      TailBits(a, b, n, k);
    }
  }

  // the first n bytes agree exactly when the first 8 n bits do
  lemma {:induction false} BytesBits(a: Addr, b: Addr, n: nat)
    requires n <= 16
    ensures a[..n] == b[..n] <==> Bits(a)[..8 * n] == Bits(b)[..8 * n]
  {
    if n > 0 {
      BytesBits(a, b, n - 1);
      assert a[..n] == a[..n - 1] + [a[n - 1]] && b[..n] == b[..n - 1] + [b[n - 1]];
      ByteEqual(a[n - 1], b[n - 1]);
      TailBits(a, b, n - 1, 8);
    }
  }

  lemma TailBits(a: Addr, b: Addr, n: nat, k: nat)
    requires n < 16 && 0 < k <= 8
    ensures Bits(a)[..8 * n + k] == Bits(b)[..8 * n + k]
      <==> Bits(a)[..8 * n] == Bits(b)[..8 * n] && forall j | 0 <= j < k :: BitTest(a[n], j) == BitTest(b[n], j)
  {
    var s, t := Bits(a), Bits(b);
    assert s[..8 * n + k] == s[..8 * n] + s[8 * n..8 * n + k] && t[..8 * n + k] == t[..8 * n] + t[8 * n..8 * n + k];
    forall j | 0 <= j < k ensures s[8 * n + j] == BitTest(a[n], j) && t[8 * n + j] == BitTest(b[n], j) {
      assert (8 * n + j) / 8 == n && (8 * n + j) % 8 == j;
      BitAt(a, 128, 8 * n + j);
      BitAt(b, 128, 8 * n + j);
    }
    if s[..8 * n + k] == t[..8 * n + k] {
      forall j | 0 <= j < k ensures BitTest(a[n], j) == BitTest(b[n], j) {
        assert s[..8 * n + k][8 * n + j] == t[..8 * n + k][8 * n + j];
      }
      assert s[..8 * n] == s[..8 * n + k][..8 * n] && t[..8 * n] == t[..8 * n + k][..8 * n];
    } else if forall j | 0 <= j < k :: BitTest(a[n], j) == BitTest(b[n], j) {
      forall i | 8 * n <= i < 8 * n + k ensures s[i] == t[i] {
        assert s[8 * n + (i - 8 * n)] == BitTest(a[n], i - 8 * n);
      }
      assert s[8 * n..8 * n + k] == t[8 * n..8 * n + k];
    }
  }

  lemma XorBit(x: bv8, y: bv8, r: bv8, k: nat)
    requires k < 8 && r == x ^ y
    ensures BitTest(r, k) <==> BitTest(x, k) != BitTest(y, k)
  {
    if k < 4 {
      if k == 0 {
        assert r & 0x80 != 0 <==> (x & 0x80 != 0) != (y & 0x80 != 0);
      } else if k == 1 {
        assert r & 0x40 != 0 <==> (x & 0x40 != 0) != (y & 0x40 != 0);
      } else if k == 2 {
        assert r & 0x20 != 0 <==> (x & 0x20 != 0) != (y & 0x20 != 0);
      } else {
        assert r & 0x10 != 0 <==> (x & 0x10 != 0) != (y & 0x10 != 0);
      }
    } else {
      if k == 4 {
        assert r & 0x08 != 0 <==> (x & 0x08 != 0) != (y & 0x08 != 0);
      } else if k == 5 {
        assert r & 0x04 != 0 <==> (x & 0x04 != 0) != (y & 0x04 != 0);
      } else if k == 6 {
        assert r & 0x02 != 0 <==> (x & 0x02 != 0) != (y & 0x02 != 0);
      } else {
        assert r & 0x01 != 0 <==> (x & 0x01 != 0) != (y & 0x01 != 0);
      }
    }
  }

  lemma XorZero(x: bv8, y: bv8)
    ensures x ^ y == 0 <==> x == y
  {
  }

  lemma LcpAtLeast(a: Addr, b: Addr, n: nat)
    requires n <= 128 && Bits(a)[..n] == Bits(b)[..n]
    ensures Lcp(Key(Bits(a)), Key(Bits(b))) >= n
  {
    var s, t := Bits(a), Bits(b);
    assert forall i | 0 <= i < n :: s[i] == s[..n][i] && t[i] == t[..n][i];
    LcpAbove(Key(s), Key(t), n);
  }

  // the first differing bit is bit j of byte i
  lemma Diverge(a: Addr, b: Addr, i: nat, j: nat)
    requires i < 16 && j < 8 && Bits(a)[..8 * i] == Bits(b)[..8 * i]
    requires forall k | 0 <= k < j :: BitTest(a[i], k) == BitTest(b[i], k)
    requires BitTest(a[i], j) != BitTest(b[i], j)
    ensures Lcp(Key(Bits(a)), Key(Bits(b))) == 8 * i + j
  {
    if j > 0 { TailBits(a, b, i, j); }
    LcpAtLeast(a, b, 8 * i + j);
    assert (8 * i + j) / 8 == i && (8 * i + j) % 8 == j;
    BitAt(a, 128, 8 * i + j);
    BitAt(b, 128, 8 * i + j);
    assert Bits(a)[8 * i + j] != Bits(b)[8 * i + j];
    LcpFacts(Key(Bits(a)), Key(Bits(b)));
  }

  method FirstSetBit(r: bv8) returns (j: nat)
    ensures j <= 8 && (forall k | 0 <= k < j :: !BitTest(r, k)) && (j < 8 ==> BitTest(r, j))
  {
    j := 0;
    while j < 8
      invariant j <= 8 && forall k | 0 <= k < j :: !BitTest(r, k)
    {
      if BitTest(r, j) { break; }
      j := j + 1;
    }
  }

  lemma XorSame(a: Addr, b: Addr, i: nat)
    requires i < 16 && Bits(a)[..8 * i] == Bits(b)[..8 * i] && a[i] ^ b[i] == 0
    ensures Bits(a)[..8 * (i + 1)] == Bits(b)[..8 * (i + 1)]
  {
    XorZero(a[i], b[i]);
    TailBits(a, b, i, 8);
  }

  lemma XorFound(a: Addr, b: Addr, i: nat, r: bv8, j: nat)
    requires i < 16 && j <= 8 && Bits(a)[..8 * i] == Bits(b)[..8 * i] && r == a[i] ^ b[i] && r != 0
    requires (forall k | 0 <= k < j :: !BitTest(r, k)) && (j < 8 ==> BitTest(r, j))
    ensures j < 8 && Lcp(Key(Bits(a)), Key(Bits(b))) == 8 * i + j
  {
    var x, y := a[i], b[i];
    XorZero(x, y);
    ByteEqual(x, y);
    forall k | 0 <= k < 8 ensures BitTest(r, k) <==> BitTest(x, k) != BitTest(y, k) {
      XorBit(x, y, r, k);
    }
    Diverge(a, b, i, j);
  }

  /** The loop of `patricia_lookup` that finds the first differing bit, capped by `checkBit`. */
  method DifferBit(addr: Addr, test: Addr, checkBit: nat) returns (differ: nat)
    requires checkBit <= 128
    ensures var d := Lcp(Key(Bits(addr)), Key(Bits(test))); differ == if d < checkBit then d else checkBit
  {
    differ := 0;
    var i := 0;
    while i * 8 < checkBit
      invariant 0 <= i <= 16 && differ == i * 8
      invariant Bits(addr)[..8 * i] == Bits(test)[..8 * i]
    {
      var r := addr[i] ^ test[i];
      if r != 0 {
        var j := FirstSetBit(r);
        XorFound(addr, test, i, r, j);
        assert j < 8;
        differ := i * 8 + j;
        break;
      }
      XorSame(addr, test, i);
      differ := (i + 1) * 8;
      i := i + 1;
    }
    LcpAtLeast(addr, test, 8 * i);
    if differ > checkBit { differ := checkBit; }
  }

  // the key of an address cut to n bits
  ghost function Cut(a: Addr, n: nat): (k: Key)
    requires n <= 128
    ensures |k.s| == n
  {
    Key(Bits(a)[..n])
  }

  lemma LcpBits(a: Addr, b: Addr, m: nat, n: nat)
    requires m <= 128 && n <= 128
    ensures var c, d := if n < m then n else m, Lcp(Key(Bits(a)), Key(Bits(b)));
      Lcp(Cut(a, m), Cut(b, n)) == if d < c then d else c
  {
    var c, d := if n < m then n else m, Lcp(Key(Bits(a)), Key(Bits(b)));
    LcpFacts(Key(Bits(a)), Key(Bits(b)));
    LcpIs(Cut(a, m), Cut(b, n), if d < c then d else c);
  }
}
