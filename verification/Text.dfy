// Decimal numbers and white space in texts.
module Text {
  import opened Util

  predicate IsSpace(c: char) {
    c == ' ' || 9 <= c as int <= 13
  }

  predicate IsDigit(c: char) {
    '0' <= c <= '9'
  }

  function Digit(d: nat): (c: char)
    requires d < 10
    ensures IsDigit(c) && DigitValue(c) == d
  {
    ('0' as int + d) as char
  }

  function DigitValue(c: char): nat
    requires IsDigit(c)
  {
    c as int - '0' as int
  }

  // As printed by %u.
  function Decimal(n: nat): (s: string)
    ensures s != [] && IsDigit(s[0])
  {
    if n < 10 then [Digit(n)] else Decimal(n / 10) + [Digit(n % 10)]
  }

  // Reading on from acc in 32-bit arithmetic: the number and what is left of the text.
  function ReadDigits(s: string, acc: u32): (r: (u32, string))
    ensures |r.1| <= |s|
  {
    if s == [] || !IsDigit(s[0]) then (acc, s)
    else ReadDigits(s[1..], (acc * 10 + DigitValue(s[0])) % 0x1_0000_0000)
  }

  predicate NoDigitFirst(s: string) {
    s == [] || !IsDigit(s[0])
  }

  lemma Recomposed(n: u32)
    ensures (n / 10 * 10 + n % 10) % 0x1_0000_0000 == n
  {
  }

  lemma DigitRead(d: nat, rest: string, acc: u32)
    requires d < 10
    ensures ReadDigits([Digit(d)] + rest, acc) == ReadDigits(rest, (acc * 10 + d) % 0x1_0000_0000)
  {
    assert ([Digit(d)] + rest)[1..] == rest;
  }

  lemma FirstDigit(s: string)
    requires s != [] && IsDigit(s[0])
    ensures ReadDigits(s, 0) == ReadDigits(s[1..], DigitValue(s[0]))
  {
  }

  lemma {:induction false} DecimalRead(n: u32, rest: string)
    ensures ReadDigits(Decimal(n) + rest, 0) == ReadDigits(rest, n)
    decreases n
  {
    DigitRead(n % 10, rest, n / 10);
    Recomposed(n);
    if n < 10 {
    } else {
      Associative(Decimal(n / 10), [Digit(n % 10)], rest);
      DecimalRead(n / 10, [Digit(n % 10)] + rest);
    }
  }

  // A printed number is read back, up to what follows it.
  lemma NumberRead(n: u32, rest: string)
    requires NoDigitFirst(rest)
    ensures ReadDigits(Decimal(n) + rest, 0) == (n, rest)
  {
    DecimalRead(n, rest);
  }

  function Power10(k: nat): nat {
    if k == 0 then 1 else 10 * Power10(k - 1)
  }

  lemma {:induction false} DecimalLength(n: nat, k: nat)
    requires k > 0 && n < Power10(k)
    ensures |Decimal(n)| <= k
    decreases k
  {
    assert Power10(1) == 10 * Power10(0);
    if n < 10 {
    } else {
      DecimalLength(n / 10, k - 1);
    }
  }

  lemma AsnLength(n: u32)
    ensures |Decimal(n)| <= 10
  {
    assert Power10(2) == 100 && Power10(4) == 10000 && Power10(6) == 1000000;
    assert Power10(8) == 100000000 && Power10(10) == 10000000000;
    DecimalLength(n, 10);
  }
}
