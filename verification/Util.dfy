// Numbers and sequence numbers shared by the Babel modules (qsrx/babeld/util.h).
module Util {
  type u8 = x: int | 0 <= x < 0x100
  type u16 = x: int | 0 <= x < 0x1_0000
  type u32 = x: int | 0 <= x < 0x1_0000_0000

  // The metric of a retracted route.
  const INFINITY: u16 := 0xFFFF

  datatype Option<+T> = None | Some(value: T)

  function Min(a: int, b: int): int {
    if a <= b then a else b
  }

  function Max(a: int, b: int): int {
    if a >= b then a else b
  }

  lemma Associative<T>(a: seq<T>, b: seq<T>, c: seq<T>)
    ensures a + b + c == a + (b + c)
  {
  }
}

// 16-bit circular sequence numbers.
module Seqno {
  import opened Util

  // 0 when equal; otherwise the sign is read off bit 15 of the 16-bit difference.
  function Compare(s1: u16, s2: u16): int {
    if s1 == s2 then 0
    else if (s2 - s1) % 0x1_0000 >= 0x8000 then 1
    else -1
  }

  // The difference as a signed 16-bit number.
  function Minus(s1: u16, s2: u16): (d: int)
    ensures -0x8000 <= d < 0x8000
    ensures (s2 + d) % 0x1_0000 == s1
  {
    var d := (s1 - s2) % 0x1_0000;
    if d >= 0x8000 then d - 0x1_0000 else d
  }

  function Plus(s: u16, plus: int): (r: u16)
    ensures -0x8000 <= plus < 0x8000 ==> Minus(r, s) == plus
  {
    (s + plus) % 0x1_0000
  }

  // How far s lies ahead of base, going forwards round the circle.
  function Offset(base: u16, s: u16): nat {
    (s - base) % 0x1_0000
  }

  // s is less than half the circle ahead of base.
  predicate InWindow(base: u16, s: u16) {
    Offset(base, s) < 0x8000
  }

  // Comparing is antisymmetric except for two numbers exactly half the circle apart,
  // where each claims to be ahead of the other.
  lemma CompareAntisymmetric(s1: u16, s2: u16)
    ensures Compare(s1, s2) == -Compare(s2, s1) <==> (s2 - s1) % 0x1_0000 != 0x8000
  {
    if s1 < s2 {
      assert (s1 - s2) % 0x1_0000 == s1 - s2 + 0x1_0000;
    } else if s2 < s1 {
      assert (s2 - s1) % 0x1_0000 == s2 - s1 + 0x1_0000;
    }
  }

  // Inside one window the circular order is the order of the offsets, so it is a total order there.
  lemma CompareInWindow(base: u16, s1: u16, s2: u16)
    requires InWindow(base, s1) && InWindow(base, s2)
    ensures Compare(s1, s2) > 0 <==> Offset(base, s1) > Offset(base, s2)
    ensures Compare(s1, s2) < 0 <==> Offset(base, s1) < Offset(base, s2)
    ensures s1 == s2 <==> Offset(base, s1) == Offset(base, s2)
  {
    assert Offset(base, s1) == if s1 >= base then s1 - base else s1 - base + 0x1_0000;
    assert Offset(base, s2) == if s2 >= base then s2 - base else s2 - base + 0x1_0000;
    assert (s2 - s1) % 0x1_0000 == if s2 >= s1 then s2 - s1 else s2 - s1 + 0x1_0000;
  }

  // Without the window the order need not even be transitive.
  lemma CompareIsCircular()
    ensures Compare(0x6000, 0) > 0 && Compare(0xC000, 0x6000) > 0 && Compare(0, 0xC000) > 0
  {
  }
}
