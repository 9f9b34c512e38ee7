/** The Internet checksum of `chksum` (section 1 of RFC 1071). */
module Checksum {
  type word = x: int | 0 <= x < 0x1_0000

  type int32 = x: int | -0x8000_0000 <= x < 0x8000_0000

  const WRAP := 0x1_0000_0000

  // ---- one's-complement arithmetic on 16 bits ----

  // addition with end-around carry
  function OnesAdd(a: word, b: word): word {
    if a + b < 0x1_0000 then a + b else a + b - 0xFFFF
  }

  function OnesSum(s: seq<word>): word {
    if s == [] then 0 else OnesAdd(OnesSum(s[..|s| - 1]), s[|s| - 1])
  }

  function Sum(s: seq<word>): nat {
    if s == [] then 0 else Sum(s[..|s| - 1]) + s[|s| - 1]
  }

  // the one's-complement value of a sum: 0xFFFF stands for the positive multiples of 0xFFFF
  function Residue(n: nat): word {
    if n == 0 then 0 else (n - 1) % 0xFFFF + 1
  }

  lemma ResidueAdd(n: nat, w: word)
    ensures Residue(n + w) == OnesAdd(Residue(n), w)
  {
  }

  lemma {:induction false} OnesSumIs(s: seq<word>)
    ensures OnesSum(s) == Residue(Sum(s))
  {
    if s != [] {
      OnesSumIs(s[..|s| - 1]);
      ResidueAdd(Sum(s[..|s| - 1]), s[|s| - 1]);
    }
  }

  /** The one's-complement sum is the plain sum modulo 65535, and zero only for words that are all zero. */
  lemma {:induction false} OnesSumNumber(s: seq<word>)
    ensures OnesSum(s) % 0xFFFF == Sum(s) % 0xFFFF
    ensures OnesSum(s) == 0 <==> forall i | 0 <= i < |s| :: s[i] == 0
  {
    OnesSumIs(s);
    SumZero(s);
    var n := Sum(s);
    if n > 0 {
      assert n == (n - 1) / 0xFFFF * 0xFFFF + Residue(n);
    }
  }

  lemma {:induction false} SumZero(s: seq<word>)
    ensures Sum(s) == 0 <==> forall i | 0 <= i < |s| :: s[i] == 0
  {
    if s != [] {
      var n := |s| - 1;
      SumZero(s[..n]);
      assert forall i | 0 <= i < n :: s[..n][i] == s[i];
    }
  }

  lemma {:induction false} SumBound(s: seq<word>)
    ensures Sum(s) <= 0xFFFF * |s|
  {
    if s != [] { SumBound(s[..|s| - 1]); }
  }

  // the two folds, in 32 bits, and the low half of the complement
  function Fold(sum: nat): nat {
    sum / 0x1_0000 + sum % 0x1_0000
  }

  function FoldTwice(sum: nat): word {
    (Fold(sum) + Fold(sum) / 0x1_0000) % 0x1_0000
  }

  lemma FoldResidue(n: nat)
    requires n < WRAP
    ensures FoldTwice(n) == Residue(n)
  {
    var h, l := n / 0x1_0000, n % 0x1_0000;
    assert n == h * 0xFFFF + (h + l);
    ResidueShift(h, h + l);
    var s := h + l;
    assert s < 0x2_0000;
  }

  lemma {:induction false} ResidueShift(h: nat, s: nat)
    requires h > 0 ==> s > 0
    ensures Residue(h * 0xFFFF + s) == Residue(s)
    decreases h
  {
    if h > 0 {
      ResidueShift(h - 1, s);
      assert h * 0xFFFF + s - 1 == ((h - 1) * 0xFFFF + s - 1) + 0xFFFF;
    }
  }

  lemma AddWrap(a: nat, w: word)
    ensures (a % WRAP + w) % WRAP == (a + w) % WRAP
  {
  }

  // up to 65537 words cannot overflow 32 bits
  lemma NoOverflow(s: seq<word>)
    requires |s| <= 65537
    ensures Sum(s) < WRAP
  {
    SumBound(s);
  }

  // a carry out of 32 bits counts one, and so what is lost by q of them shows
  lemma Lost(q: nat, l: nat)
    requires 0 < q < 0xFFFF
    ensures Residue(q + l) != Residue(l)
  {
    if l > 0 {
      var d, m := (l - 1) / 0xFFFF, (l - 1) % 0xFFFF;
      if m + q < 0xFFFF {
        ResidueShift(d, m + q + 1);
        ResidueShift(d, m + 1);
        assert q + l == d * 0xFFFF + (m + q + 1) && l == d * 0xFFFF + (m + 1);
      } else {
        ResidueShift(d + 1, m + q + 1 - 0xFFFF);
        ResidueShift(d, m + 1);
        assert q + l == (d + 1) * 0xFFFF + (m + q + 1 - 0xFFFF) && l == d * 0xFFFF + (m + 1);
      }
    }
  }

  lemma CarryResidue(q: nat, l: nat)
    ensures Residue(q * WRAP + l) == Residue(q + l)
  {
    if q > 0 {
      ResidueShift(q * 65537, q + l);
      assert q * WRAP + l == q * 65537 * 0xFFFF + (q + l);
    }
  }

  // the residue survives the loss of the carries exactly when there was none
  lemma {:induction false} Wrapped(n: nat)
    requires n <= 0xFFFF * 0x4000_0000
    ensures Residue(n % WRAP) == Residue(n) <==> n < WRAP
  {
    var q, l := n / WRAP, n % WRAP;
    CarryResidue(q, l);
    if q > 0 { Lost(q, l); }
  }

  /** For every buffer whose length is an `int`, the answer is right if and only if the sum fits 32 bits. */
  lemma {:induction false} Exact(s: seq<word>)
    requires |s| <= 0x4000_0000
    ensures Residue(Sum(s) % WRAP) == OnesSum(s) <==> Sum(s) < WRAP
  {
    SumBound(s);
    OnesSumIs(s);
    Wrapped(Sum(s));
  }

  // the loop adds in 32 bits
  method AddWords(buf: array<word>, count: nat) returns (sum: nat)
    requires count <= buf.Length
    ensures sum == Sum(buf[..count]) % WRAP
  {
    var n, p := count, 0;
    sum := 0;
    while n > 0
      invariant 0 <= n <= count && p == count - n && sum == Sum(buf[..p]) % WRAP
    {
      assert buf[..p + 1][..p] == buf[..p];
      AddWrap(Sum(buf[..p]), buf[p]);
      sum := (sum + buf[p]) % WRAP;
      p := p + 1;
      n := n - 1;
    }
  }

  method FoldAndComplement(total: nat) returns (r: word)
    requires total < WRAP
    ensures r == 0xFFFF - Residue(total)
  {
    var sum := total / 0x1_0000 + total % 0x1_0000;
    sum := sum + sum / 0x1_0000;
    r := 0xFFFF - sum % 0x1_0000;
    assert r == 0xFFFF - FoldTwice(total);
    FoldResidue(total);
  }

  // the whole words in a length in bytes; the loop does not run for a negative one
  function WordCount(len: int32): (n: nat)
    ensures len >= 0 ==> 2 * n <= len < 2 * n + 2
    ensures len < 0 ==> n == 0
  {
    if len >= 0 then len / 2 else 0
  }

  /** The complement of the one's-complement sum, if and only if the plain sum fits 32 bits; a last odd byte is
      left out. */
  method Chksum(buf: array<word>, len: int32) returns (r: word)
    requires WordCount(len) <= buf.Length
    ensures r == 0xFFFF - Residue(Sum(buf[..WordCount(len)]) % WRAP)
    ensures r == 0xFFFF - OnesSum(buf[..WordCount(len)]) <==> Sum(buf[..WordCount(len)]) < WRAP
  {
    var n := WordCount(len);
    var sum := AddWords(buf, n);
    r := FoldAndComplement(sum);
    Exact(buf[..n]);
  }

  lemma {:induction false} AllOnes(s: seq<word>)
    requires forall i | 0 <= i < |s| :: s[i] == 0xFFFF
    ensures Sum(s) == 0xFFFF * |s|
  {
    if s != [] { AllOnes(s[..|s| - 1]); }
  }

  // one word more than 65537, all ones, and 32 bits are too few
  lemma Overflow(s: seq<word>)
    requires |s| == 65538 && forall i | 0 <= i < |s| :: s[i] == 0xFFFF
    ensures Sum(s) >= WRAP && Residue(Sum(s) % WRAP) != OnesSum(s)
  {
    AllOnes(s);
    Exact(s);
  }

  lemma {:induction false} SumUpdate(s: seq<word>, i: nat, w: word)
    requires i < |s|
    ensures Sum(s[i := w]) == Sum(s) - s[i] + w
  {
    var n := |s| - 1;
    if i < n {
      SumUpdate(s[..n], i, w);
      assert s[i := w][..n] == s[..n][i := w];
    } else {
      assert s[i := w][..n] == s[..n];
    }
  }

  /** With the checksum stored in a word that was zero, the checksum comes out zero. */
  lemma {:induction false} Verifies(s: seq<word>, i: nat)
    requires i < |s| && s[i] == 0
    ensures 0xFFFF - OnesSum(s[i := 0xFFFF - OnesSum(s)]) == 0
  {
    var t := s[i := 0xFFFF - OnesSum(s)];
    OnesSumIs(s);
    OnesSumIs(t);
    SumUpdate(s, i, 0xFFFF - OnesSum(s));
    Complement(Sum(s));
  }

  // the same of what the code computes
  lemma {:induction false} VerifiesCode(s: seq<word>, i: nat, c: word, r: word)
    requires i < |s| <= 65537 && s[i] == 0 && c == 0xFFFF - Residue(Sum(s) % WRAP)
    requires r == 0xFFFF - Residue(Sum(s[i := c]) % WRAP)
    ensures r == 0
  {
    NoOverflow(s);
    Exact(s);
    NoOverflow(s[i := c]);
    Exact(s[i := c]);
    Verifies(s, i);
  }

  lemma Complement(n: nat)
    ensures Residue(n + 0xFFFF - Residue(n)) == 0xFFFF
  {
    if n > 0 {
      var q, m := (n - 1) / 0xFFFF, (n - 1) % 0xFFFF;
      assert n + 0xFFFF - Residue(n) == q * 0xFFFF + 0xFFFF;
      ResidueShift(q, 0xFFFF);
    }
  }
}
