/** Prefixes with their reference counts, and the nodes of the trie. */
module TrieNodes {
  import opened Addresses
  import opened BitStrings

  datatype Family = V4 | V6

  function MaxLen(f: Family): nat {
    if f == V4 then 32 else 128
  }

  // New_Prefix2 copies only the bytes of the family into zeroed memory.
  function CopyAddr(f: Family, a: Addr): Addr {
    if f == V4 then a[..4] + [0, 0, 0, 0, 0, 0, 0, 0, 0, 0, 0, 0] else a
  }

  lemma CopyBits(f: Family, a: Addr, n: nat)
    requires n <= MaxLen(f)
    ensures Cut(CopyAddr(f, a), n) == Cut(a, n)
  {
    if f == V4 {
      BytesBits(CopyAddr(f, a), a, 4);
      var s, t := Bits(CopyAddr(f, a)), Bits(a);
      assert s[..n] == s[..32][..n] && t[..n] == t[..32][..n];
    }
  }

  class Prefix {
    const family: Family
    const bitlen: nat
    const addr: Addr
    var refCount: nat

    // what the trie sees: the first bitlen bits; the host bits after them may hold anything
    ghost const key: Key

    ghost predicate Ok() {
      bitlen <= MaxLen(family) && key == Cut(addr, bitlen)
    }

    // a prefix in a variable of the caller's, not counted
    constructor Static(family: Family, addr: Addr, bitlen: nat)
      requires bitlen <= MaxLen(family)
      ensures Ok() && this.family == family && this.addr == addr && this.bitlen == bitlen && refCount == 0
    {
      this.family, this.addr, this.bitlen := family, addr, bitlen;
      key := Cut(addr, bitlen);
      refCount := 0;
    }

    // New_Prefix: one reference, held by the caller
    constructor (family: Family, dest: Addr, bitlen: int)
      requires bitlen <= MaxLen(family)
      ensures Ok() && this.family == family && this.addr == CopyAddr(family, dest)
      ensures this.bitlen == if bitlen >= 0 then bitlen else MaxLen(family)
      ensures bitlen < 0 ==> this.bitlen == if family == V4 then 32 else 128
      ensures refCount == 1
    {
      this.family, this.addr := family, CopyAddr(family, dest);
      this.bitlen := if bitlen >= 0 then bitlen else MaxLen(family);
      key := Cut(CopyAddr(family, dest), if bitlen >= 0 then bitlen else MaxLen(family));
      refCount := 1;
    }

    // Ref_Prefix: an uncounted prefix is copied, a counted one gains a reference
    method Ref() returns (p: Prefix)
      requires Ok()
      modifies `refCount
      ensures old(refCount) == 0 ==> fresh(p) && p.refCount == 1 && refCount == 0
      ensures old(refCount) > 0 ==> p == this && refCount == old(refCount) + 1
      ensures p.Ok() && p.key == key && p.bitlen == bitlen && p.family == family
      ensures p != this ==> p.addr == CopyAddr(family, addr)
    {
      if refCount == 0 {
        p := new Prefix(family, addr, bitlen);
        CopyBits(family, addr, bitlen);
        return;
      }
      refCount := refCount + 1;
      p := this;
    }

    // Deref_Prefix: the prefix is released when the count reaches zero
    method Deref()
      requires refCount > 0
      modifies `refCount
      ensures refCount == old(refCount) - 1
    {
      refCount := refCount - 1;
    }
  }

  class Node {
    const bit: nat
    ghost const key: Key
    var prefix: Prefix?
    var l: Node?
    var r: Node?
    var parent: Node?
    var data: object?

    constructor (bit: nat, prefix: Prefix?, ghost key: Key)
      ensures this.bit == bit && this.prefix == prefix && this.key == key
      ensures l == null && r == null && parent == null && data == null
    {
      this.bit := bit;
      this.prefix := prefix;
      this.key := key;
      l, r, parent, data := null, null, null, null;
    }
  }
}
