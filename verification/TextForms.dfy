/** What the texts of addresses and lengths mean, in their characters. */
module TextForms {
  import opened InetText
  import opened MapCache
  import opened MapReply

  // ---- digits ----

  const DIGITS: string := "0123456789"

  lemma DigitAt(c: char)
    ensures IsDigit(c) <==> c in DIGITS
    ensures forall d | 0 <= d < 10 :: AllDigits([DIGITS[d]]) && Value([DIGITS[d]]) == d
  {
  }

  /** The last digit counts once, and each of those before it ten times as much as the next. */
  lemma {:induction false} ValueJoin(s: string, d: nat)
    requires AllDigits(s) && d < 10
    ensures AllDigits(s + [DIGITS[d]]) && Value(s + [DIGITS[d]]) == 10 * Value(s) + d
  {
    assert (s + [DIGITS[d]])[..|s|] == s;
  }

  // ---- addresses ----

  // one to four octets with dots between them, spelled out
  lemma {:induction false} QuadForms(parts: seq<string>, s: string)
    requires 1 <= |parts| <= 4 && forall p | p in parts :: p != [] && AllDigits(p) && Value(p) <= 255
    ensures |parts| == 1 ==> (IsQuad(s, parts, 4) <==> s == parts[0])
    ensures |parts| == 2 ==> (IsQuad(s, parts, 4) <==> s == parts[0] + "." + parts[1])
    ensures |parts| == 3 ==> (IsQuad(s, parts, 4) <==> s == parts[0] + "." + parts[1] + "." + parts[2])
    ensures |parts| == 4 ==>
              (IsQuad(s, parts, 4) <==> s == parts[0] + "." + parts[1] + "." + parts[2] + "." + parts[3])
  {
    DottedForms(parts);
    assert forall p | p in parts :: IsOctet(p);
  }

  lemma DottedForms(parts: seq<string>)
    requires 1 <= |parts| <= 4
    ensures |parts| == 1 ==> Dotted(parts) == parts[0]
    ensures |parts| == 2 ==> Dotted(parts) == parts[0] + "." + parts[1]
    ensures |parts| == 3 ==> Dotted(parts) == parts[0] + "." + parts[1] + "." + parts[2]
    ensures |parts| == 4 ==> Dotted(parts) == parts[0] + "." + parts[1] + "." + parts[2] + "." + parts[3]
  {
    if |parts| > 1 {
      var rest := parts[1..];
      DottedForms(rest);
      assert |rest| > 1 ==> rest[1] == parts[2];
      assert |rest| > 2 ==> rest[2] == parts[3];
      assert Dotted(parts) == parts[0] + "." + Dotted(rest);
    }
  }

  // the bytes of an address are the values of its octets, and zero after them
  lemma {:induction false} AnswerForms(s: string, parts: seq<string>, r: int, dst: seq<byte>)
    requires IsQuad(s, parts, 4) && Answer(s, r, dst)
    ensures r == 1 && |dst| == 4
    ensures forall i | 0 <= i < |parts| :: AllDigits(parts[i]) && dst[i] == Value(parts[i])
    ensures forall i | |parts| <= i < 4 :: dst[i] == 0
  {
    assert dst == Bytes4(parts);
    forall i | 0 <= i < |parts| ensures AllDigits(parts[i]) && dst[i] == Value(parts[i]) {
      assert parts[i] in parts;
    }
  }

  // ---- numbers ----

  // no zero in front, but for zero itself
  lemma {:induction false} DecimalPlain(n: nat)
    ensures n == 0 ==> Decimal(n) == "0"
    ensures n > 0 ==> Decimal(n)[0] != '0'
  {
    if n >= 10 { DecimalPlain(n / 10); }
  }

  lemma {:induction false} PrefixForm(a: seq<byte>, bitlen: nat)
    requires |a| == 4
    ensures PrefixText(a, bitlen)
         == Decimal(a[0]) + "." + Decimal(a[1]) + "." + Decimal(a[2]) + "." + Decimal(a[3]) + "/" + Decimal(bitlen)
  {
    DottedForms(Quad(a));
  }

  // ---- lengths ----

  predicate IsSpace(c: char) {
    c == ' ' || c == '\t' || c == '\n' || c as int == 11 || c as int == 12 || c == '\r'
  }

  lemma {:induction false} Skipped(spaces: string, s: string)
    requires (forall c | c in spaces :: IsSpace(c)) && (s != [] ==> !IsSpace(s[0]))
    ensures SkipSpace(spaces + s) == s
  {
    if spaces != [] {
      assert spaces[0] in spaces && (spaces + s)[0] == spaces[0] && (spaces + s)[1..] == spaces[1..] + s;
      Skipped(spaces[1..], s);
    } else {
      assert spaces + s == s;
    }
  }

  lemma {:induction false} LeadingDigits(d: string, rest: string)
    requires AllDigits(d) && (rest != [] ==> !IsDigit(rest[0]))
    ensures Leading(d + rest) == d
  {
    if d != [] {
      assert d[0] in d && (d + rest)[0] == d[0] && (d + rest)[1..] == d[1..] + rest;
      LeadingDigits(d[1..], rest);
      assert d == [d[0]] + d[1..];
    } else {
      assert d + rest == rest;
    }
  }

  // spaces, a sign, digits, and anything after them
  lemma {:induction false} AtolRead(spaces: string, d: string, rest: string)
    requires (forall c | c in spaces :: IsSpace(c)) && AllDigits(d) && d != [] && (rest != [] ==> !IsDigit(rest[0]))
    ensures Atol(spaces + (d + rest)) == Value(d)
    ensures Atol(spaces + ("+" + (d + rest))) == Value(d)
    ensures Atol(spaces + ("-" + (d + rest))) == 0 - Value(d) as int
  {
    var t := d + rest;
    assert d[0] in d && t[0] == d[0] && ("+" + t)[1..] == t && ("-" + t)[1..] == t;
    LeadingDigits(d, rest);
    Skipped(spaces, t);
    Skipped(spaces, "+" + t);
    Skipped(spaces, "-" + t);
  }

  /** The length of a prefix: 32 without a slash, and where the number after the slash is negative or too large. */
  lemma {:induction false} LengthRead(s: string, head: string, tail: string)
    ensures '/' !in s ==> Length(s) == 32
    ensures '/' !in head && s == head + "/" + tail && (Atol(tail) < 0 || Atol(tail) > 32) ==> Length(s) == 32
    ensures '/' !in head && s == head + "/" + tail && 0 <= Atol(tail) <= 32 ==> Length(s) == Atol(tail)
  {
    if '/' !in s {
      assert Find(s, '/') == |s|;
    } else if '/' !in head && s == head + "/" + tail {
      FindIs(s, head, tail);
    }
  }
}
