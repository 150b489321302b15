/**
 CIDR algebra (src/ipaddr.c).

 The code works on bytes and byte masks; what it decides is about sets of
 addresses.  `Addresses(c)` is that set, defined bit by bit, and the theorems of
 this module say which set fact each byte computation decides.
 */
module Cidrs {

  datatype Family = V4 | V6

  /** Address width in bytes. */
  function Width(f: Family): nat {
    if f == V4 then 4 else 16
  }

  datatype RawHost = RawHost(family: Family, bytes: seq<bv8>)

  /** One address of one family. */
  type Host = h: RawHost | |h.bytes| == Width(h.family) witness RawHost(V4, [0, 0, 0, 0])

  datatype RawCidr = RawCidr(family: Family, addr: seq<bv8>, plen: nat)

  /** `struct vg_cidr`: the bytes in use for its family, and a length within its width. */
  type Cidr = c: RawCidr | |c.addr| == Width(c.family) && c.plen <= 8 * Width(c.family)
    witness RawCidr(V4, [0, 0, 0, 0], 0)

  // ---------------------------------------------------------------- bits

  /** The mask `(uint8_t) (0xff << (8 - k))`: the k leading bits of a byte. */
  function TopMask(k: nat): bv8
    requires k <= 8
  {
    if k == 0 then 0x00 else if k == 1 then 0x80 else if k == 2 then 0xC0
    else if k == 3 then 0xE0 else if k == 4 then 0xF0 else if k == 5 then 0xF8
    else if k == 6 then 0xFC else if k == 7 then 0xFE else 0xFF
  }

  function BitMask(j: nat): bv8
    requires j < 8
  {
    if j == 0 then 0x80 else if j == 1 then 0x40 else if j == 2 then 0x20
    else if j == 3 then 0x10 else if j == 4 then 0x08 else if j == 5 then 0x04
    else if j == 6 then 0x02 else 0x01
  }

  predicate ByteBit(x: bv8, j: nat)
    requires j < 8
  {
    x & BitMask(j) != 0
  }

  /** Bit i of an address, counted from the most significant bit of its first byte. */
  predicate Bit(s: seq<bv8>, i: nat)
    requires i < 8 * |s|
  {
    ByteBit(s[i / 8], i % 8)
  }

  lemma MaskedByteBit(x: bv8, k: nat, j: nat)
    requires k <= 8 && j < 8
    ensures ByteBit(x & TopMask(k), j) <==> j < k && ByteBit(x, j)
  {
  }

  lemma ByteExtensionality(x: bv8, y: bv8)
    requires forall j: nat | j < 8 :: ByteBit(x, j) == ByteBit(y, j)
    ensures x == y
  {
    assert ByteBit(x, 0) == ByteBit(y, 0);
    assert ByteBit(x, 1) == ByteBit(y, 1);
    assert ByteBit(x, 2) == ByteBit(y, 2);
    assert ByteBit(x, 3) == ByteBit(y, 3);
    assert ByteBit(x, 4) == ByteBit(y, 4);
    assert ByteBit(x, 5) == ByteBit(y, 5);
    assert ByteBit(x, 6) == ByteBit(y, 6);
    assert ByteBit(x, 7) == ByteBit(y, 7);
  }

  /** Equal leading bits of a byte are what equal masked bytes mean. */
  lemma MaskedBytesEqual(x: bv8, y: bv8, k: nat)
    requires k <= 8
    ensures x & TopMask(k) == y & TopMask(k) <==> forall j: nat | j < k :: ByteBit(x, j) == ByteBit(y, j)
  {
    var xm, ym := x & TopMask(k), y & TopMask(k);
    forall j: nat | j < 8
      ensures ByteBit(xm, j) <==> j < k && ByteBit(x, j)
      ensures ByteBit(ym, j) <==> j < k && ByteBit(y, j)
    {
      MaskedByteBit(x, k, j);
      MaskedByteBit(y, k, j);
    }
    if forall j: nat | j < k :: ByteBit(x, j) == ByteBit(y, j) {
      ByteExtensionality(xm, ym);
    } else {
      var j: nat :| j < k && ByteBit(x, j) != ByteBit(y, j);
      assert ByteBit(xm, j) != ByteBit(ym, j);
    }
  }

  // ---------------------------------------------------------------- the code

  /** `bits_equal`: whole bytes first, then one masked byte. */
  predicate BitsEqual(a: seq<bv8>, b: seq<bv8>, bits: nat)
    requires bits <= 8 * |a| && bits <= 8 * |b|
  {
    var bytes, rem := bits / 8, bits % 8;
    && a[..bytes] == b[..bytes]
    && (rem != 0 ==> a[bytes] & TopMask(rem) == b[bytes] & TopMask(rem))
  }

  /** `vg_cidr_contains`. */
  predicate Contains(hay: Cidr, needle: Cidr) {
    && hay.family == needle.family
    && hay.plen <= needle.plen
    && BitsEqual(hay.addr, needle.addr, hay.plen)
  }

  /** `vg_cidr_covers_or_overlaps`. */
  predicate Overlaps(a: Cidr, b: Cidr) {
    Contains(a, b) || Contains(b, a)
  }

  /** An LPM trie lookup of a full-length key hits entry c. */
  predicate Covers(c: Cidr, h: Host) {
    c.family == h.family && BitsEqual(c.addr, h.bytes, c.plen)
  }

  /** The host prefix (/32 or /128) of an address. */
  function HostCidr(h: Host): Cidr {
    RawCidr(h.family, h.bytes, 8 * Width(h.family))
  }

  /** What `vg_cidr_mask` leaves in byte i. */
  function MaskedByte(x: bv8, i: nat, plen: nat): bv8 {
    if 8 * i + 8 <= plen then x
    else if 8 * i < plen then x & TopMask(plen - 8 * i)
    else 0
  }

  function MaskBytes(s: seq<bv8>, plen: nat): (r: seq<bv8>)
    ensures |r| == |s|
  {
    seq(|s|, i requires 0 <= i < |s| => MaskedByte(s[i], i, plen))
  }

  function Mask(c: Cidr): Cidr {
    RawCidr(c.family, MaskBytes(c.addr, c.plen), c.plen)
  }

  /** The masked form every parsed, widened or host prefix has. */
  predicate Canonical(c: Cidr) {
    Mask(c) == c
  }

  /** `vg_cidr_v4_slash24` and `vg_cidr_v6_slash64`, by family. */
  function Widen(c: Cidr): Cidr {
    Mask(RawCidr(c.family, c.addr, if c.family == V4 then 24 else 64))
  }

  /** `vg_cidr_mask`: the in-place byte loop, with its shrinking count of bits left to keep. */
  method MaskInPlace(addr: array<bv8>, prefixlen: nat)
    modifies addr
    ensures addr[..] == MaskBytes(old(addr[..]), prefixlen)
    ensures forall i: nat | i < 8 * addr.Length ::
              Bit(addr[..], i) <==> i < prefixlen && Bit(old(addr[..]), i)
  {
    var bits := prefixlen;
    for i := 0 to addr.Length
      invariant bits == if 8 * i <= prefixlen then prefixlen - 8 * i else 0
      invariant forall k: nat | k < i :: addr[k] == MaskedByte(old(addr[k]), k, prefixlen)
      invariant forall k: nat | i <= k < addr.Length :: addr[k] == old(addr[k])
    {
      if bits >= 8 {
        bits := bits - 8;
      } else if bits > 0 {
        addr[i] := addr[i] & TopMask(bits);
        bits := 0;
      } else {
        addr[i] := 0;
      }
    }
    forall i: nat | i < 8 * addr.Length
      ensures Bit(addr[..], i) <==> i < prefixlen && Bit(old(addr[..]), i)
    {
      MaskBytesBit(old(addr[..]), prefixlen, i);
    }
  }

  // ---------------------------------------------------------------- the meaning

  /** The addresses of a prefix: those that agree with it on its first plen bits. */
  ghost function Addresses(c: Cidr): iset<Host> {
    iset h: Host | h.family == c.family && forall i: nat | i < c.plen :: Bit(h.bytes, i) == Bit(c.addr, i)
  }

  /** Byte k and bit j within it. */
  lemma BitOfByte(s: seq<bv8>, k: nat, j: nat)
    requires k < |s| && j < 8
    ensures Bit(s, 8 * k + j) == ByteBit(s[k], j)
  {
  }

  lemma EqualBytesEqualBits(a: seq<bv8>, b: seq<bv8>, bits: nat, i: nat)
    requires bits <= 8 * |a| && bits <= 8 * |b| && i < bits
    requires BitsEqual(a, b, bits)
    ensures Bit(a, i) == Bit(b, i)
  {
  }

  lemma EqualBitsEqualByte(a: seq<bv8>, b: seq<bv8>, k: nat, n: nat)
    requires k < |a| && k < |b| && n <= 8
    requires forall i: nat | 8 * k <= i < 8 * k + n :: Bit(a, i) == Bit(b, i)
    ensures a[k] & TopMask(n) == b[k] & TopMask(n)
  {
    forall j: nat | j < n
      ensures ByteBit(a[k], j) == ByteBit(b[k], j)
    {
      BitOfByte(a, k, j);
      BitOfByte(b, k, j);
    }
    MaskedBytesEqual(a[k], b[k], n);
  }

  /** `bits_equal` compares exactly the leading bits. */
  lemma BitsEqualMeaning(a: seq<bv8>, b: seq<bv8>, bits: nat)
    requires bits <= 8 * |a| && bits <= 8 * |b|
    ensures BitsEqual(a, b, bits) <==> forall i: nat | i < bits :: Bit(a, i) == Bit(b, i)
  {
    var bytes, rem := bits / 8, bits % 8;
    if BitsEqual(a, b, bits) {
      forall i: nat | i < bits
        ensures Bit(a, i) == Bit(b, i)
      {
        EqualBytesEqualBits(a, b, bits, i);
      }
    } else if forall i: nat | i < bits :: Bit(a, i) == Bit(b, i) {
      forall k: nat | k < bytes
        ensures a[k] == b[k]
      {
        EqualBitsEqualByte(a, b, k, 8);
        assert a[k] & 0xFF == a[k] && b[k] & 0xFF == b[k];
      }
      if rem != 0 {
        EqualBitsEqualByte(a, b, bytes, rem);
      }
    }
  }

  lemma MaskBytesBit(s: seq<bv8>, plen: nat, i: nat)
    requires i < 8 * |s|
    ensures Bit(MaskBytes(s, plen), i) <==> i < plen && Bit(s, i)
  {
  }

  lemma BytesExtensionality(a: seq<bv8>, b: seq<bv8>)
    requires |a| == |b|
    requires forall i: nat | i < 8 * |a| :: Bit(a, i) == Bit(b, i)
    ensures a == b
  {
    assert a[..|a|] == a && b[..|a|] == b;
    BitsEqualMeaning(a, b, 8 * |a|);
  }

  /** The trie hit is membership of the address set. */
  lemma CoversMeaning(c: Cidr, h: Host)
    ensures Covers(c, h) <==> h in Addresses(c)
  {
    if c.family == h.family {
      BitsEqualMeaning(c.addr, h.bytes, c.plen);
    }
  }

  /** A host prefix is its one address. */
  lemma HostIsOneAddress(h: Host)
    ensures Addresses(HostCidr(h)) == iset{h}
  {
    forall g: Host | g in Addresses(HostCidr(h))
      ensures g == h
    {
      BytesExtensionality(g.bytes, h.bytes);
    }
  }

  /** The address whose bits are those of s, with bit i flipped. */
  lemma FlippedBit(s: seq<bv8>, i: nat) returns (r: seq<bv8>)
    requires i < 8 * |s|
    ensures |r| == |s| && Bit(r, i) != Bit(s, i)
    ensures forall k: nat | k < i :: Bit(r, k) == Bit(s, k)
  {
    var j := i % 8;
    var x := s[i / 8] ^ BitMask(j);
    r := s[i / 8 := x];
  }

  /** `vg_cidr_contains` decides inclusion of address sets. */
  lemma ContainsIsInclusion(hay: Cidr, needle: Cidr)
    ensures Contains(hay, needle) <==> Addresses(needle) <= Addresses(hay)
  {
    var base: Host := RawHost(needle.family, needle.addr);
    assert base in Addresses(needle);
    if hay.family == needle.family && hay.plen <= needle.plen {
      BitsEqualMeaning(hay.addr, needle.addr, hay.plen);
    } else if hay.family == needle.family {
      var r := FlippedBit(needle.addr, needle.plen);
      var other: Host := RawHost(needle.family, r);
      assert other in Addresses(needle);
      assert base !in Addresses(hay) || other !in Addresses(hay);
    }
  }

  /** `vg_cidr_covers_or_overlaps` decides whether two prefixes share an address. */
  lemma OverlapIsIntersection(a: Cidr, b: Cidr)
    ensures Overlaps(a, b) <==> exists h: Host :: h in Addresses(a) && h in Addresses(b)
  {
    ContainsIsInclusion(a, b);
    ContainsIsInclusion(b, a);
    var ha: Host, hb: Host := RawHost(a.family, a.addr), RawHost(b.family, b.addr);
    assert ha in Addresses(a) && hb in Addresses(b);
    if h: Host :| h in Addresses(a) && h in Addresses(b) {
      var n := if a.plen <= b.plen then a.plen else b.plen;
      forall i: nat | i < n
        ensures Bit(a.addr, i) == Bit(b.addr, i)
      {
        assert Bit(h.bytes, i) == Bit(a.addr, i) && Bit(h.bytes, i) == Bit(b.addr, i);
      }
      BitsEqualMeaning(a.addr, b.addr, n);
      BitsEqualMeaning(b.addr, a.addr, n);
    }
  }

  /** Two prefixes are nested or disjoint, never partly overlapping. */
  lemma NestedOrDisjoint(a: Cidr, b: Cidr)
    ensures || Addresses(a) <= Addresses(b)
            || Addresses(b) <= Addresses(a)
            || Addresses(a) !! Addresses(b)
  {
  }

  /** Masking keeps the address set and is idempotent. */
  lemma MaskKeepsAddresses(c: Cidr)
    ensures Addresses(Mask(c)) == Addresses(c)
    ensures Canonical(Mask(c))
  {
  }

  /** The masked form is the only byte representation of its address set. */
  lemma CanonicalIsUnique(a: Cidr, b: Cidr)
    requires Canonical(a) && Canonical(b)
    ensures a == b <==> Addresses(a) == Addresses(b)
  {
    if Addresses(a) == Addresses(b) {
      ContainsIsInclusion(a, b);
      ContainsIsInclusion(b, a);
      assert a.plen == b.plen;
      BitsEqualMeaning(a.addr, b.addr, a.plen);
      forall i: nat | i < 8 * |a.addr|
        ensures Bit(a.addr, i) == Bit(b.addr, i)
      {
        MaskBytesBit(a.addr, a.plen, i);
        MaskBytesBit(b.addr, b.plen, i);
      }
      BytesExtensionality(a.addr, b.addr);
    }
  }

  /** Widening keeps every address of a prefix at least as long, and is masked. */
  lemma WidenContains(c: Cidr)
    requires c.plen >= if c.family == V4 then 24 else 64
    ensures Canonical(Widen(c)) && Contains(Widen(c), c)
    ensures Widen(c).plen == if c.family == V4 then 24 else 64
    ensures Addresses(c) <= Addresses(Widen(c))
  {
    var raw: Cidr := RawCidr(c.family, c.addr, if c.family == V4 then 24 else 64);
    MaskKeepsAddresses(raw);
    BitsEqualMeaning(raw.addr, c.addr, raw.plen);
    ContainsIsInclusion(raw, c);
    ContainsIsInclusion(Widen(c), c);
  }
}
