// 16-byte addresses and prefixes, as the functions of qsrx/babeld/util.c see them.
module Prefix {
  import opened Util

  type Bytes = seq<u8>
  type Addr = a: Bytes | |a| == 16 witness seq(16, _ => 0)

  // A destination: a prefix and its length.
  datatype Key = Key(prefix: Addr, plen: u8)

  // The sign of memcmp on two byte strings of one length.
  function Memcmp(a: Bytes, b: Bytes): (c: int)
    requires |a| == |b|
    ensures c == 0 <==> a == b
  {
    if a == [] then 0
    else if a[0] < b[0] then -1
    else if a[0] > b[0] then 1
    else
      assert a == [a[0]] + a[1..] && b == [b[0]] + b[1..];
      Memcmp(a[1..], b[1..])
  }

  // route_compare: by prefix, then by length.
  function CompareKeys(a: Key, b: Key): (c: int)
    ensures c == 0 <==> a == b
  {
    var c := Memcmp(a.prefix, b.prefix);
    if c != 0 then c
    else if a.plen < b.plen then -1
    else if a.plen > b.plen then 1
    else 0
  }

  lemma {:induction false} MemcmpAntisymmetric(a: Bytes, b: Bytes)
    requires |a| == |b|
    ensures Memcmp(a, b) == -Memcmp(b, a)
  {
    if a == [] {
    } else {
      MemcmpAntisymmetric(a[1..], b[1..]);
    }
  }

  lemma {:induction false} MemcmpTransitive(a: Bytes, b: Bytes, c: Bytes)
    requires |a| == |b| == |c| && Memcmp(a, b) <= 0 && Memcmp(b, c) <= 0
    ensures Memcmp(a, c) <= 0
    ensures Memcmp(a, b) < 0 || Memcmp(b, c) < 0 ==> Memcmp(a, c) < 0
  {
    if a == [] || a[0] != b[0] || b[0] != c[0] {
    } else {
      MemcmpTransitive(a[1..], b[1..], c[1..]);
    }
  }

  lemma CompareKeysAntisymmetric(a: Key, b: Key)
    ensures CompareKeys(a, b) < 0 <==> CompareKeys(b, a) > 0
  {
    MemcmpAntisymmetric(a.prefix, b.prefix);
  }

  lemma CompareKeysTransitive(a: Key, b: Key, c: Key)
    requires CompareKeys(a, b) < 0 && CompareKeys(b, c) < 0
    ensures CompareKeys(a, c) < 0
  {
    MemcmpTransitive(a.prefix, b.prefix, c.prefix);
  }

  const V4PREFIX: Bytes := [0, 0, 0, 0, 0, 0, 0, 0, 0, 0, 0xFF, 0xFF]

  predicate V4Mapped(a: Addr) {
    a[..12] == V4PREFIX
  }

  predicate Martian(k: Key) {
    || (k.plen >= 8 && k.prefix[0] == 0xFF)
    || (k.plen >= 10 && k.prefix[0] == 0xFE && 0x80 <= k.prefix[1] < 0xC0)
    || (k.plen >= 128 && k.prefix[..15] == seq(15, _ => 0) && k.prefix[15] <= 1)
    || (k.plen >= 96 && V4Mapped(k.prefix)
        && ((k.plen >= 104 && (k.prefix[12] == 127 || k.prefix[12] == 0))
            || (k.plen >= 100 && k.prefix[12] >= 0xE0)))
  }

  // The weight of the lowest bit kept when the top k bits of a byte are kept.
  function Unit(k: nat): nat
    requires k <= 8
  {
    match k
    case 0 => 256 case 1 => 128 case 2 => 64 case 3 => 32 case 4 => 16
    case 5 => 8 case 6 => 4 case 7 => 2 case 8 => 1
  }

  function MaskByte(b: u8, k: nat): (r: u8)
    requires k <= 8
    ensures r <= b
  {
    b - b % Unit(k)
  }

  function MaskPrefix(p: Addr, plen: u8): (r: Addr) {
    if plen >= 128 then p
    else seq(16, i requires 0 <= i < 16 =>
           if i < plen / 8 then p[i]
           else if i == plen / 8 && plen % 8 != 0 then MaskByte(p[i], plen % 8)
           else 0)
  }

  // All bits beyond the prefix length are zero.
  predicate Masked(k: Key) {
    MaskPrefix(k.prefix, k.plen) == k.prefix
  }

  // Bit k of an address, the highest of its first byte being bit 0.
  function BitOf(p: Addr, k: nat): nat
    requires k < 128
  {
    p[k / 8] / Unit(k % 8 + 1) % 2
  }

  // Masking keeps the bits in front and clears those behind.
  lemma MaskedBits(p: Addr, plen: u8, k: nat)
    requires k < 128
    ensures BitOf(MaskPrefix(p, plen), k) == if k < plen then BitOf(p, k) else 0
  {
    if plen < 128 && k / 8 == plen / 8 && plen % 8 != 0 {
      MaskByteBit(p[plen / 8], plen % 8, k % 8);
    }
  }

  lemma MaskByteBit(b: u8, n: nat, i: nat)
    requires n <= 8 && i < 8
    ensures MaskByte(b, n) / Unit(i + 1) % 2 == if i < n then b / Unit(i + 1) % 2 else 0
  {
    var q, u, v := b / Unit(n), Unit(n), Unit(i + 1);
    assert MaskByte(b, n) == q * u;
    if i < n {
      var t := UnitMultiple(i + 1, n);
      SameMultiple(b, t, u, v);
    } else {
      var t := UnitMultiple(n + 1, i + 1);
      EvenMultiple(q, t, u, v);
    }
  }

  lemma {:induction false} UnitMultiple(k: nat, n: nat) returns (t: nat)
    requires k <= n <= 8
    ensures Unit(k) == t * Unit(n)
    decreases n - k
  {
    if k == n {
      t := 1;
    } else {
      var half := UnitMultiple(k + 1, n);
      t := 2 * half;
    }
  }

  lemma EvenMultiple(q: nat, t: nat, u: nat, v: nat)
    requires v > 0 && u == 2 * (t * v)
    ensures q * u / v % 2 == 0
  {
    assert q * u == 2 * (q * t) * v;
    SameQuotient(q * u / v, 2 * (q * t), q * u % v, 0, v);
  }

  // Rounding down to multiples of u does not matter to multiples of u.
  lemma SameMultiple(b: nat, t: nat, u: nat, v: nat)
    requires v > 0 && u > 0 && v == t * u
    ensures b / u * u / v == b / v
  {
    var q, c := b / u, b / v;
    assert c * v == c * t * u;
    if c * t > q {
      AtLeastOnce(c * t - q, u);
    } else {
      SameQuotient(q * u / v, c, q * u % v, q * u - c * v, v);
    }
  }

  lemma MaskIdempotent(p: Addr, plen: u8)
    ensures MaskPrefix(MaskPrefix(p, plen), plen) == MaskPrefix(p, plen)
  {
    if plen < 128 && plen % 8 != 0 {
      MaskByteIdempotent(p[plen / 8], plen % 8);
    }
  }

  lemma MaskByteIdempotent(b: u8, k: nat)
    requires k <= 8
    ensures MaskByte(MaskByte(b, k), k) == MaskByte(b, k)
  {
    NoRemainder(b / Unit(k), Unit(k));
  }

  lemma NoRemainder(q: nat, u: nat)
    requires u > 0
    ensures q * u % u == 0
  {
    SameQuotient(q * u / u, q, q * u % u, 0, u);
  }

  // Quotient and remainder are determined by the number.
  lemma SameQuotient(a: int, b: int, r: nat, s: nat, u: nat)
    requires r < u && s < u && a * u + r == b * u + s
    ensures a == b && r == s
  {
    if a < b {
      AtLeastOnce(b - a, u);
    } else if b < a {
      AtLeastOnce(a - b, u);
    }
  }

  lemma AtLeastOnce(d: nat, u: nat)
    requires d > 0
    ensures d * u >= u
  {
  }
}
