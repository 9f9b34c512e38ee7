/** IPv4 addresses and prefixes as text: `my_inet_pton`, `prefix_toa2x`, `ascii2prefix`. */
module InetText {
  import opened MapCache
  import opened MapReply

  // ---- decimal numbers ----

  predicate IsDigit(c: char) {
    '0' <= c <= '9'
  }

  predicate AllDigits(s: string) {
    forall c | c in s :: IsDigit(c)
  }

  function Value(s: string): nat
    requires AllDigits(s)
  {
    if s == [] then 0
    else
      assert s[|s| - 1] in s;
      10 * Value(s[..|s| - 1]) + (s[|s| - 1] as int - '0' as int)
  }

  function DigitChar(d: nat): char
    requires d < 10
  {
    '0' + d as char
  }

  // %d
  function Decimal(n: nat): (s: string)
    ensures s != []
  {
    if n < 10 then [DigitChar(n)] else Decimal(n / 10) + [DigitChar(n % 10)]
  }

  lemma {:induction false} DecimalValue(n: nat)
    ensures AllDigits(Decimal(n)) && Value(Decimal(n)) == n
  {
    if n >= 10 {
      DecimalValue(n / 10);
      var s, c := Decimal(n / 10), DigitChar(n % 10);
      assert (s + [c])[..|s|] == s;
    }
  }

  lemma {:induction false} ValueGrows(s: string, n: nat)
    requires AllDigits(s) && n <= |s|
    ensures Value(s[..n]) <= Value(s)
  {
    if n < |s| {
      assert IsDigit(s[|s| - 1]) by { assert s[|s| - 1] in s; }
      ValueGrows(s[..|s| - 1], n);
      assert s[..|s| - 1][..n] == s[..n];
    } else {
      assert s[..n] == s;
    }
  }

  // ---- dotted quads ----

  // a run of digits with a value of at most 255
  predicate IsOctet(s: string) {
    s != [] && AllDigits(s) && Value(s) <= 255
  }

  // the octets with dots between them
  function Dotted(parts: seq<string>): string
    requires parts != []
  {
    if |parts| == 1 then parts[0] else parts[0] + "." + Dotted(parts[1..])
  }

  ghost predicate IsQuad(s: string, parts: seq<string>, most: nat) {
    1 <= |parts| <= most && s == Dotted(parts) && forall p | p in parts :: IsOctet(p)
  }

  // the four bytes; octets that are missing are zero
  function Bytes4(parts: seq<string>): (b: seq<byte>)
    requires |parts| <= 4 && forall p | p in parts :: IsOctet(p)
    ensures |b| == 4
  {
    seq(4, i requires 0 <= i < 4 => if i < |parts| then OctetAt(parts, i) else 0)
  }

  function OctetAt(parts: seq<string>, i: nat): byte
    requires i < |parts| && forall p | p in parts :: IsOctet(p)
  {
    assert parts[i] in parts && IsOctet(parts[i]);
    Value(parts[i])
  }

  // a run of digits ends in one place only
  lemma RunEnd(s: string, d: nat, p: string, rest: string)
    requires d <= |s| && AllDigits(s[..d]) && (d < |s| ==> !IsDigit(s[d]))
    requires s == p + rest && AllDigits(p) && (rest != [] ==> !IsDigit(rest[0]))
    ensures p == s[..d]
  {
    forall i | 0 <= i < |p| ensures IsDigit(s[i]) { assert s[i] == p[i] && p[i] in p; }
    forall i | 0 <= i < d ensures IsDigit(s[i]) { assert s[i] == s[..d][i] && s[..d][i] in s[..d]; }
    assert rest != [] ==> s[|p|] == rest[0];
    assert |p| == d;
  }

  lemma DottedParts(parts: seq<string>)
    requires parts != []
    ensures Dotted(parts) == parts[0] + if |parts| == 1 then [] else "." + Dotted(parts[1..])
  {
  }

  // digits that are followed by no digit are the first of the parts
  lemma FirstOctet(s: string, d: nat, parts: seq<string>, most: nat)
    requires d <= |s| && AllDigits(s[..d]) && (d < |s| ==> !IsDigit(s[d])) && IsQuad(s, parts, most)
    ensures parts[0] == s[..d] && IsOctet(s[..d])
    ensures |parts| == 1 ==> d == |s|
    ensures |parts| > 1 ==> d < |s| && s[d] == '.' && IsQuad(s[d + 1..], parts[1..], most - 1)
  {
    var rest := if |parts| == 1 then [] else "." + Dotted(parts[1..]);
    DottedParts(parts);
    assert parts[0] in parts && forall q | q in parts[1..] :: q in parts;
    RunEnd(s, d, parts[0], rest);
    assert s[d..] == rest;
    if |parts| > 1 {
      assert s[d] == rest[0] && s[d + 1..] == rest[1..];
    }
  }

  // and the other way round
  lemma MoreOctets(s: string, d: nat, rest: seq<string>, most: nat)
    requires d < |s| && IsOctet(s[..d]) && s[d] == '.' && IsQuad(s[d + 1..], rest, most)
    ensures IsQuad(s, [s[..d]] + rest, most + 1)
  {
    var parts := [s[..d]] + rest;
    assert parts[1..] == rest;
    assert s == s[..d] + "." + s[d + 1..];
  }

  ghost predicate NoQuad(s: string, most: nat) {
    forall parts :: !IsQuad(s, parts, most)
  }

  lemma QuadStarts(s: string, parts: seq<string>, most: nat)
    requires IsQuad(s, parts, most)
    ensures s != [] && IsDigit(s[0])
  {
    DottedParts(parts);
    var p := parts[0];
    assert p in parts && IsOctet(p);
    assert p[0] in p && s[0] == p[0];
  }

  lemma NoDigit(s: string, most: nat)
    requires s == [] || !IsDigit(s[0])
    ensures NoQuad(s, most)
  {
    forall parts ensures !IsQuad(s, parts, most) {
      if IsQuad(s, parts, most) { QuadStarts(s, parts, most); }
    }
  }

  lemma QuadValue(s: string, n: nat, parts: seq<string>, most: nat)
    requires n <= |s| && AllDigits(s[..n]) && IsQuad(s, parts, most)
    ensures Value(s[..n]) <= 255
  {
    DottedParts(parts);
    var p := parts[0];
    assert p in parts && IsOctet(p);
    forall i | 0 <= i < n ensures IsDigit(s[i]) { assert s[i] == s[..n][i] && s[..n][i] in s[..n]; }
    assert |parts| > 1 ==> s[|p|] == '.';
    assert n <= |p| && s[..n] == p[..n];
    ValueGrows(p, n);
  }

  // digits whose value passes 255 are the start of no address
  lemma TooLarge(s: string, n: nat, most: nat)
    requires n <= |s| && AllDigits(s[..n]) && Value(s[..n]) > 255
    ensures NoQuad(s, most)
  {
    forall parts ensures !IsQuad(s, parts, most) {
      if IsQuad(s, parts, most) { QuadValue(s, n, parts, most); }
    }
  }

  // digits, and then neither a digit nor a dot that may follow
  lemma StopBad(s: string, d: nat, most: nat)
    requires 0 < d < |s| && AllDigits(s[..d]) && !IsDigit(s[d]) && (s[d] != '.' || most <= 1)
    ensures NoQuad(s, most)
  {
    forall parts ensures !IsQuad(s, parts, most) {
      if IsQuad(s, parts, most) { FirstOctet(s, d, parts, most); }
    }
  }

  // with the octets read so far, the rest s decides
  ghost predicate Reduced(src: string, s: string, done: seq<string>, most: nat) {
    && most + |done| == 4 && (forall p | p in done :: IsOctet(p))
    && (forall rest | IsQuad(s, rest, most) :: IsQuad(src, done + rest, 4))
    && (forall parts | IsQuad(src, parts, 4) :: Leads(s, done, most, parts))
  }

  ghost predicate Leads(s: string, done: seq<string>, most: nat, parts: seq<string>) {
    |done| < |parts| && parts[..|done|] == done && IsQuad(s, parts[|done|..], most)
  }

  lemma ReduceNone(src: string)
    ensures Reduced(src, src, [], 4)
  {
    forall parts | IsQuad(src, parts, 4) ensures Leads(src, [], 4, parts) { assert parts[0..] == parts; }
    forall rest | IsQuad(src, rest, 4) ensures IsQuad(src, [] + rest, 4) { assert [] + rest == rest; }
  }

  // one more octet and its dot
  lemma ReduceMore(src: string, s: string, done: seq<string>, most: nat, d: nat)
    requires Reduced(src, s, done, most) && most > 1 && 0 < d < |s| && IsOctet(s[..d]) && s[d] == '.'
    ensures Reduced(src, s[d + 1..], done + [s[..d]], most - 1)
  {
    var run, more, tail := s[..d], done + [s[..d]], s[d + 1..];
    forall rest | IsQuad(tail, rest, most - 1) ensures IsQuad(src, more + rest, 4) {
      MoreOctets(s, d, rest, most - 1);
      assert more + rest == done + ([run] + rest);
    }
    forall parts | IsQuad(src, parts, 4) ensures Leads(tail, more, most - 1, parts) {
      LeadsMore(s, done, most, parts, d);
    }
  }

  lemma LeadsMore(s: string, done: seq<string>, most: nat, parts: seq<string>, d: nat)
    requires Leads(s, done, most, parts) && most > 0 && 0 < d < |s| && IsOctet(s[..d]) && s[d] == '.'
    ensures Leads(s[d + 1..], done + [s[..d]], most - 1, parts)
  {
    var n, rest := |done|, parts[|done|..];
    FirstOctet(s, d, rest, most);
    assert parts[n] == rest[0] == s[..d] && parts[..n + 1] == parts[..n] + [parts[n]];
    assert parts[n + 1..] == rest[1..];
  }

  lemma Refuse(src: string, s: string, done: seq<string>, most: nat)
    requires Reduced(src, s, done, most) && NoQuad(s, most)
    ensures NoQuad(src, 4)
  {
    forall parts ensures !IsQuad(src, parts, 4) {
      assert IsQuad(src, parts, 4) ==> Leads(s, done, most, parts);
    }
  }

  // at the end of the text, it was one address
  lemma Accept(src: string, s: string, done: seq<string>, most: nat)
    requires Reduced(src, s, done, most) && most > 0 && IsOctet(s)
    ensures IsQuad(src, done + [s], 4)
    ensures forall parts | IsQuad(src, parts, 4) :: parts == done + [s]
  {
    assert IsQuad(s, [s], most);
    forall parts | IsQuad(src, parts, 4) ensures parts == done + [s] {
      assert Leads(s, done, most, parts) && s[..|s|] == s;
      var rest := parts[|done|..];
      FirstOctet(s, |s|, rest, most);
      assert rest == [s] && parts == parts[..|done|] + rest;
    }
  }

  ghost predicate Filled(dst: seq<byte>, done: seq<string>)
    requires forall p | p in done :: IsOctet(p)
  {
    |dst| == 4 && forall j | 0 <= j < 4 :: dst[j] == if j < |done| then OctetAt(done, j) else 0
  }

  lemma FilledMore(dst: seq<byte>, done: seq<string>, run: string)
    requires (forall p | p in done :: IsOctet(p)) && Filled(dst, done) && |done| < 4 && IsOctet(run)
    ensures forall p | p in done + [run] :: IsOctet(p)
    ensures Filled(dst[|done| := Value(run)], done + [run])
  {
  }

  lemma FilledBytes(dst: seq<byte>, done: seq<string>)
    requires (forall p | p in done :: IsOctet(p)) && Filled(dst, done) && |done| <= 4
    ensures dst == Bytes4(done)
  {
  }

  // ---- my_inet_pton ----

  // the digits of one octet; false when the value passes 255
  method ScanOctet(src: string, start: nat) returns (val: nat, pos: nat, ok: bool)
    requires start < |src| && IsDigit(src[start])
    ensures start < pos <= |src| && AllDigits(src[start..pos])
    ensures ok <==> Value(src[start..pos]) <= 255
    ensures ok ==> val == Value(src[start..pos]) && (pos == |src| || !IsDigit(src[pos]))
  {
    val, pos, ok := 0, start, true;
    while pos < |src| && IsDigit(src[pos])
      invariant start <= pos <= |src| && AllDigits(src[start..pos]) && val == Value(src[start..pos]) <= 255
    {
      assert src[start..pos + 1] == src[start..pos] + [src[pos]];
      val := val * 10 + (src[pos] as int - '0' as int);
      pos := pos + 1;
      if val > 255 {
        return val, pos, false;
      }
    }
  }

  // the answer is right: the text is an address with these bytes, or it is none
  ghost predicate Answer(src: string, r: int, dst: seq<byte>) {
    && (r == 1 || ((r == 0 || r == -1) && NoQuad(src, 4)))
    && (r == 1 ==> exists parts :: IsQuad(src, parts, 4) && dst == Bytes4(parts))
    && (r == 1 ==> forall parts | IsQuad(src, parts, 4) :: dst == Bytes4(parts))
  }

  // i octets have been read, up to pos
  ghost predicate Reading(src: string, i: nat, pos: nat, dst: seq<byte>, done: seq<string>) {
    i == |done| < 4 && pos <= |src| && Reduced(src, src[pos..], done, 4 - i) && Filled(dst, done)
  }

  lemma BadStart(src: string, i: nat, pos: nat, dst: seq<byte>, done: seq<string>)
    requires Reading(src, i, pos, dst, done) && (pos == |src| || !IsDigit(src[pos]))
    ensures Answer(src, -1, dst)
  {
    NoDigit(src[pos..], 4 - i);
    Refuse(src, src[pos..], done, 4 - i);
  }

  lemma BadValue(src: string, i: nat, pos: nat, end: nat, dst: seq<byte>, done: seq<string>)
    requires Reading(src, i, pos, dst, done) && pos <= end <= |src|
    requires AllDigits(src[pos..end]) && Value(src[pos..end]) > 255
    ensures Answer(src, 0, dst)
  {
    assert src[pos..][..end - pos] == src[pos..end];
    TooLarge(src[pos..], end - pos, 4 - i);
    Refuse(src, src[pos..], done, 4 - i);
  }

  lemma BadEnd(src: string, i: nat, pos: nat, end: nat, dst: seq<byte>, done: seq<string>)
    requires Reading(src, i, pos, dst, done) && pos < end < |src| && AllDigits(src[pos..end])
    requires !IsDigit(src[end]) && (src[end] != '.' || i == 3)
    ensures NoQuad(src, 4)
  {
    assert src[pos..][..end - pos] == src[pos..end];
    StopBad(src[pos..], end - pos, 4 - i);
    Refuse(src, src[pos..], done, 4 - i);
  }

  lemma LastOctet(src: string, i: nat, pos: nat, dst: seq<byte>, done: seq<string>)
    requires Reading(src, i, pos, dst, done) && IsOctet(src[pos..])
    ensures Answer(src, 1, dst[i := Value(src[pos..])])
  {
    var s := src[pos..];
    Accept(src, s, done, 4 - i);
    FilledMore(dst, done, s);
    FilledBytes(dst[i := Value(s)], done + [s]);
  }

  lemma DottedOctet(src: string, i: nat, pos: nat, end: nat, dst: seq<byte>, done: seq<string>)
    requires Reading(src, i, pos, dst, done) && pos < end < |src| && IsOctet(src[pos..end]) && src[end] == '.' && i < 3
    ensures Reading(src, i + 1, end + 1, dst[i := Value(src[pos..end])], done + [src[pos..end]])
  {
    var s, d, run := src[pos..], end - pos, src[pos..end];
    assert s[..d] == run && s[d + 1..] == src[end + 1..];
    ReduceMore(src, s, done, 4 - i, d);
    FilledMore(dst, done, run);
  }

  // the loop body after the digits; 2 is to go on
  method AfterOctet(src: string, i: nat, pos: nat, end: nat, val: nat, dst: seq<byte>, ghost done: seq<string>)
    returns (r: int, dst': seq<byte>, ghost done': seq<string>)
    requires Reading(src, i, pos, dst, done) && pos < end <= |src|
    requires IsOctet(src[pos..end]) && val == Value(src[pos..end]) && (end == |src| || !IsDigit(src[end]))
    ensures r == 2 ==> Reading(src, i + 1, end + 1, dst', done')
    ensures r != 2 ==> Answer(src, r, dst')
  {
    dst', done' := dst[i := val], done + [src[pos..end]];
    if end == |src| {
      assert src[pos..] == src[pos..end];
      LastOctet(src, i, pos, dst, done);
      r := 1;
    } else if src[end] != '.' || i >= 3 {
      BadEnd(src, i, pos, end, dst, done);
      r := 0;
    } else {
      DottedOctet(src, i, pos, end, dst, done);
      r := 2;
    }
  }

  method DigitsOctet(src: string, i: nat, pos: nat, dst: seq<byte>, ghost done: seq<string>)
    returns (r: int, pos': nat, dst': seq<byte>, ghost done': seq<string>)
    requires Reading(src, i, pos, dst, done) && pos < |src| && IsDigit(src[pos])
    ensures r == 2 ==> Reading(src, i + 1, pos', dst', done')
    ensures r != 2 ==> Answer(src, r, dst')
  {
    var val, end, ok := ScanOctet(src, pos);
    pos' := end + 1;
    if ok {
      r, dst', done' := AfterOctet(src, i, pos, end, val, dst, done);
    } else {
      BadValue(src, i, pos, end, dst, done);
      r, dst', done' := 0, dst, done;
    }
  }

  // the loop body
  method NextOctet(src: string, i: nat, pos: nat, dst: seq<byte>, ghost done: seq<string>)
    returns (r: int, pos': nat, dst': seq<byte>, ghost done': seq<string>)
    requires Reading(src, i, pos, dst, done)
    ensures r == 2 ==> Reading(src, i + 1, pos', dst', done')
    ensures r != 2 ==> Answer(src, r, dst')
  {
    pos', dst', done' := pos, dst, done;
    if pos == |src| || !IsDigit(src[pos]) {
      BadStart(src, i, pos, dst, done);
      r := -1;
    } else {
      r, pos', dst', done' := DigitsOctet(src, i, pos, dst, done);
    }
  }

  lemma StartReading(src: string)
    ensures Reading(src, 0, 0, [0, 0, 0, 0], [])
  {
    assert src[0..] == src;
    ReduceNone(src);
  }

  /** Over all texts: 1 for one to four runs of digits with dots between them, each at most 255, and then the
      bytes are their values; octets that are missing are zero. */
  method MyInetPton(src: string) returns (r: int, dst: seq<byte>)
    requires '\0' !in src
    ensures Answer(src, r, dst)
  {
    dst, r := [0, 0, 0, 0], 2;
    var i: nat, pos: nat := 0, 0;
    ghost var done: seq<string> := [];
    StartReading(src);
    while r == 2
      invariant r == 2 ==> Reading(src, i, pos, dst, done)
      invariant r != 2 ==> Answer(src, r, dst)
      decreases r == 2, 4 - i
    {
      r, pos, dst, done := NextOctet(src, i, pos, dst, done);
      i := i + 1;
    }
  }

  // ---- prefix_toa2x with length ----

  function Quad(a: seq<byte>): seq<string>
    requires |a| == 4
  {
    [Decimal(a[0]), Decimal(a[1]), Decimal(a[2]), Decimal(a[3])]
  }

  function PrefixText(a: seq<byte>, bitlen: nat): string
    requires |a| == 4
  {
    Dotted(Quad(a)) + "/" + Decimal(bitlen)
  }

  // ---- ascii2prefix ----

  const MAXLINE := 1024

  // strchr; the length of the text where the character is not in it
  function Find(s: string, c: char): (i: nat)
    ensures i <= |s| && c !in s[..i] && (i < |s| ==> s[i] == c)
  {
    if s == [] || s[0] == c then 0
    else
      var i := 1 + Find(s[1..], c);
      assert s[..i] == [s[0]] + s[1..][..i - 1];
      i
  }

  function SkipSpace(s: string): string {
    if s != [] && (s[0] == ' ' || '\t' <= s[0] <= '\r') then SkipSpace(s[1..]) else s
  }

  function Leading(s: string): (d: string)
    ensures AllDigits(d)
  {
    if s != [] && IsDigit(s[0]) then [s[0]] + Leading(s[1..]) else []
  }

  function Atol(s: string): int {
    var t := SkipSpace(s);
    if t != [] && t[0] == '-' then 0 - Value(Leading(t[1..])) as int
    else if t != [] && t[0] == '+' then Value(Leading(t[1..]))
    else Value(Leading(t))
  }

  // the number after the slash, unsigned, and 32 at the most
  function Length(s: string): nat {
    var i := Find(s, '/');
    if i == |s| then 32
    else
      var n := Atol(s[i + 1..]);
      if n < 0 || n > 32 then 32 else n
  }

  // what is read from a text
  ghost predicate Parsed(s: string, r: Option<(seq<byte>, nat)>) {
    && (r == None <==> NoQuad(s[..Find(s, '/')], 4))
    && (r != None ==> r.value.1 == Length(s))
    && (r != None ==> forall parts | IsQuad(s[..Find(s, '/')], parts, 4) :: r.value.0 == Bytes4(parts))
  }

  method Ascii2Prefix(s: string) returns (r: Option<(seq<byte>, nat)>)
    requires '\0' !in s && (Find(s, '/') < |s| ==> Find(s, '/') < MAXLINE)
    ensures Parsed(s, r)
  {
    var bitlen := 32;
    var cp := Find(s, '/');
    if cp < |s| {
      var n := Atol(s[cp + 1..]);
      bitlen := if n < 0 || n > 32 then 32 else n;
    }
    var result, sin := MyInetPton(s[..cp]);
    if result <= 0 {
      return None;
    }
    return Some((sin, bitlen));
  }

  // ---- round trip ----

  lemma {:induction false} LeadingAll(s: string)
    requires AllDigits(s)
    ensures Leading(s) == s
  {
    if s != [] {
      assert s[0] in s;
      LeadingAll(s[1..]);
    }
  }

  lemma AtolDecimal(n: nat)
    ensures Atol(Decimal(n)) == n
  {
    var s := Decimal(n);
    DecimalValue(n);
    assert IsDigit(s[0]) by { assert s[0] in s; }
    LeadingAll(s);
  }

  lemma {:induction false} NoSlash(parts: seq<string>)
    requires parts != [] && forall p | p in parts :: AllDigits(p)
    ensures '/' !in Dotted(parts) && '\0' !in Dotted(parts)
  {
    assert parts[0] in parts && forall p | p in parts[1..] :: p in parts;
    assert '/' !in parts[0] && '\0' !in parts[0];
    if |parts| > 1 { NoSlash(parts[1..]); }
  }

  lemma QuadOctets(a: seq<byte>)
    requires |a| == 4
    ensures forall p | p in Quad(a) :: IsOctet(p)
    ensures Bytes4(Quad(a)) == a
  {
    DecimalValue(a[0]);
    DecimalValue(a[1]);
    DecimalValue(a[2]);
    DecimalValue(a[3]);
  }

  lemma FindIs(s: string, head: string, tail: string)
    requires s == head + "/" + tail && '/' !in head
    ensures Find(s, '/') == |head| && s[..|head|] == head && s[|head| + 1..] == tail
  {
    assert s[..|head|] == head && s[|head|] == '/';
    FindAt(s, '/', |head|);
  }

  lemma {:induction false} FindAt(s: string, c: char, h: nat)
    requires h < |s| && s[h] == c && c !in s[..h]
    ensures Find(s, c) == h
  {
    if h > 0 {
      assert s[..h][0] == s[0] && s[1..][..h - 1] == s[..h][1..];
      FindAt(s[1..], c, h - 1);
    }
  }

  /** The printed form of an IPv4 prefix is read back as the same address and length. */
  lemma TextRoundTrip(a: seq<byte>, bitlen: nat, r: Option<(seq<byte>, nat)>)
    requires |a| == 4 && bitlen <= 32 && Parsed(PrefixText(a, bitlen), r)
    ensures r == Some((a, bitlen))
  {
    var s, parts := PrefixText(a, bitlen), Quad(a);
    QuadOctets(a);
    NoSlash(parts);
    FindIs(s, Dotted(parts), Decimal(bitlen));
    AtolDecimal(bitlen);
    assert IsQuad(s[..Find(s, '/')], parts, 4);
  }
}
