/** Bit strings, the keys of the trie: a stored prefix is the string of its first `bitlen` bits. */
module BitStrings {
  datatype Key = Key(s: seq<bool>)

  // a covers c: every address under c is under a
  predicate Covers(a: Key, c: Key) {
    a.s <= c.s
  }

  // c continues a, and the first bit it adds is b
  ghost predicate Dir(a: Key, b: bool, c: Key) {
    |a.s| < |c.s| && a.s <= c.s && c.s[|a.s|] == b
  }

  // a covers c and is not c
  ghost predicate Over(a: Key, c: Key) {
    a.s < c.s
  }

  lemma SameLength(a: Key, c: Key)
    requires Covers(a, c) && |a.s| == |c.s|
    ensures a == c
  {
  }

  function LcpFrom(a: Key, b: Key, i: nat): (d: nat)
    requires i <= |a.s| && i <= |b.s|
    ensures d <= |a.s| && d <= |b.s|
    decreases |a.s| - i
  {
    if i < |a.s| && i < |b.s| && a.s[i] == b.s[i] then LcpFrom(a, b, i + 1) else i
  }

  // length of the longest common prefix
  function Lcp(a: Key, b: Key): (d: nat)
    ensures d <= |a.s| && d <= |b.s|
  {
    LcpFrom(a, b, 0)
  }

  lemma {:induction false} LcpFromFacts(a: Key, b: Key, i: nat)
    requires i <= |a.s| && i <= |b.s|
    ensures i <= LcpFrom(a, b, i)
    ensures forall j :: i <= j < LcpFrom(a, b, i) ==> a.s[j] == b.s[j]
    ensures LcpFrom(a, b, i) < |a.s| && LcpFrom(a, b, i) < |b.s| ==> a.s[LcpFrom(a, b, i)] != b.s[LcpFrom(a, b, i)]
    decreases |a.s| - i
  {
    if i < |a.s| && i < |b.s| && a.s[i] == b.s[i] { LcpFromFacts(a, b, i + 1); }
  }

  lemma LcpFacts(a: Key, b: Key)
    ensures forall j :: 0 <= j < Lcp(a, b) ==> a.s[j] == b.s[j]
    ensures Lcp(a, b) < |a.s| && Lcp(a, b) < |b.s| ==> a.s[Lcp(a, b)] != b.s[Lcp(a, b)]
  {
    LcpFromFacts(a, b, 0);
  }

  lemma LcpIs(a: Key, b: Key, d: nat)
    requires d <= |a.s| && d <= |b.s| && forall j | 0 <= j < d :: a.s[j] == b.s[j]
    requires d == |a.s| || d == |b.s| || a.s[d] != b.s[d]
    ensures Lcp(a, b) == d
  {
    LcpFacts(a, b);
  }

  lemma LcpAbove(x: Key, m: Key, d: nat)
    requires d <= |x.s| && d <= |m.s| && forall j | 0 <= j < d :: x.s[j] == m.s[j]
    ensures Lcp(x, m) >= d
  {
    LcpFacts(x, m);
  }

  lemma LcpPrefix(x: Key, a: Key, b: Key)
    requires Covers(a, b)
    ensures Lcp(x, a) <= Lcp(x, b)
    ensures Lcp(x, a) < |a.s| || |a.s| >= |x.s| ==> Lcp(x, b) == Lcp(x, a)
  {
    var d := Lcp(x, a);
    LcpFacts(x, a);
    LcpFacts(x, b);
    assert forall j | 0 <= j < d :: x.s[j] == a.s[j] == b.s[j];
    if d < |a.s| || |a.s| >= |x.s| { LcpIs(x, b, d); }
  }
}
