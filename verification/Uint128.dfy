/** `Uint128`: 128-bit numbers in two 64-bit halves that wrap around. */
module Uint128 {
  import opened HexDigits

  const BASE := 0x1_0000_0000_0000_0000

  type uint64 = n: int | 0 <= n < BASE

  class Uint128 {
    var high: uint64
    var low: uint64

    function Value(): (v: nat)
      reads this
      ensures v < BASE * BASE
    {
      high * BASE + low
    }

    constructor (h: uint64, l: uint64)
      ensures high == h && low == l
    {
      high, low := h, l;
    }

    /** `operator+=`; `other` may be this object itself. */
    method AddAssign(other: Uint128)
      modifies this
      ensures Value() == Sum(old(Value()), old(other.Value()))
    {
      hide Sum;
      Halves(high, low, other.high, other.low);
      high := (high + other.high) % BASE;
      var newLow := (low + other.low) % BASE;
      if newLow < low {
        high := (high + 1) % BASE;
      }
      low := newLow;
    }

    /** `operator-=`, likewise. */
    method SubAssign(other: Uint128)
      modifies this
      ensures Value() == Difference(old(Value()), old(other.Value()))
    {
      hide Difference;
      HalvesBack(high, low, other.high, other.low);
      high := (high - other.high) % BASE;
      var newLow := (low - other.low) % BASE;
      if newLow > low {
        high := (high - 1) % BASE;
      }
      low := newLow;
    }

    predicate Equals(b: Uint128)
      reads this, b
      ensures Equals(b) <==> Value() == b.Value()
    {
      high == b.high && low == b.low
    }

    predicate Less(b: Uint128)
      reads this, b
      ensures Less(b) <==> Value() < b.Value()
    {
      high < b.high || (high == b.high && low < b.low)
    }

    predicate LessOrEqual(b: Uint128)
      reads this, b
      ensures LessOrEqual(b) <==> Value() <= b.Value()
    {
      high < b.high || (high == b.high && low <= b.low)
    }
  }

  /** Addition modulo 2^128. */
  function Sum(a: nat, b: nat): nat {
    (a + b) % (BASE * BASE)
  }

  /** Subtraction modulo 2^128. */
  function Difference(a: nat, b: nat): nat {
    (a - b) % (BASE * BASE)
  }

  lemma Wrapped(x: int, k: int, r: int)
    requires 0 <= r < BASE * BASE && x == k * (BASE * BASE) + r
    ensures x % (BASE * BASE) == r
  {
  }

  /** One wrap-around at most. */
  lemma Wrap64(x: int)
    requires -BASE <= x < 2 * BASE
    ensures x % BASE == if x < 0 then x + BASE else if x < BASE then x else x - BASE
  {
  }

  lemma Halves(h: uint64, l: uint64, h2: uint64, l2: uint64)
    ensures var l' := (l + l2) % BASE;
            var h' := if l' < l then ((h + h2) % BASE + 1) % BASE else (h + h2) % BASE;
            h' * BASE + l' == Sum(h * BASE + l, h2 * BASE + l2)
  {
    var carry := if l + l2 >= BASE then 1 else 0;
    var over := if h + h2 + carry >= BASE then 1 else 0;
    var high, low := h + h2 + carry - over * BASE, l + l2 - carry * BASE;
    assert (l + l2) % BASE == low by { Wrap64(l + l2); }
    assert (if low < l then ((h + h2) % BASE + 1) % BASE else (h + h2) % BASE) == high by {
      Wrap64(h + h2);
      Wrap64((h + h2) % BASE + 1);
    }
    assert Sum(h * BASE + l, h2 * BASE + l2) == high * BASE + low by {
      Wrapped(h * BASE + l + (h2 * BASE + l2), over, high * BASE + low);
    }
  }

  lemma HalvesBack(h: uint64, l: uint64, h2: uint64, l2: uint64)
    ensures var l' := (l - l2) % BASE;
            var h' := if l' > l then ((h - h2) % BASE - 1) % BASE else (h - h2) % BASE;
            h' * BASE + l' == Difference(h * BASE + l, h2 * BASE + l2)
  {
    var borrow := if l < l2 then 1 else 0;
    var under := if h - h2 - borrow < 0 then 1 else 0;
    var high, low := h - h2 - borrow + under * BASE, l - l2 + borrow * BASE;
    assert (l - l2) % BASE == low by { Wrap64(l - l2); }
    assert (if low > l then ((h - h2) % BASE - 1) % BASE else (h - h2) % BASE) == high by {
      Wrap64(h - h2);
      Wrap64((h - h2) % BASE - 1);
    }
    assert Difference(h * BASE + l, h2 * BASE + l2) == high * BASE + low by {
      Wrapped(h * BASE + l - (h2 * BASE + l2), -under, high * BASE + low);
    }
  }

  /** Adding and subtracting the same number undo each other. */
  lemma AddSubUndo(a: nat, b: nat)
    requires a < BASE * BASE && b < BASE * BASE
    ensures Difference(Sum(a, b), b) == a && Sum(Difference(a, b), b) == a
  {
    var over := if a + b >= BASE * BASE then 1 else 0;
    Wrapped(a + b, over, a + b - over * (BASE * BASE));
    Wrapped(Sum(a, b) - b, -over, a);
    var under := if a < b then 1 else 0;
    Wrapped(a - b, -under, a - b + under * (BASE * BASE));
    Wrapped(Difference(a, b) + b, under, a);
  }

  // ----- Printing -----

  /** `std::hex` without a width: no leading zeros. */
  function Hex(n: nat): (s: string)
    ensures |s| > 0
  {
    if n < 16 then [Digit(n, false)] else Hex(n / 16) + [Digit(n % 16, false)]
  }

  /** `std::hex` with width `w` and fill '0'. */
  function HexPadded(n: nat, w: nat): string {
    if w <= |Hex(n)| then Hex(n) else Zeros(w - |Hex(n)|) + Hex(n)
  }

  function Zeros(n: nat): string {
    if n == 0 then "" else ['0'] + Zeros(n - 1)
  }

  /** `operator<<`. */
  function Print(high: uint64, low: uint64): string {
    "0x" + if high == 0 then Hex(low) else Hex(high) + HexPadded(low, 16)
  }

  function Parse(s: string): int {
    if s == "" then 0 else 16 * Parse(s[..|s| - 1]) + CharToInt(s[|s| - 1])
  }

  function Power16(n: nat): nat {
    if n == 0 then 1 else 16 * Power16(n - 1)
  }

  lemma {:induction false} ParseHex(n: nat)
    ensures Parse(Hex(n)) == n
  {
    hide Digit, CharToInt;
    DigitRoundTrip(n % 16, false);
    if n < 16 {
      assert [Digit(n, false)][..0] == "";
    } else {
      ParseHex(n / 16);
      assert Hex(n)[..|Hex(n)| - 1] == Hex(n / 16);
    }
  }

  lemma {:induction false} ParseConcat(a: string, b: string)
    ensures Parse(a + b) == Parse(a) * Power16(|b|) + Parse(b)
    decreases |b|
  {
    hide CharToInt;
    if b == "" {
      assert a + b == a;
    } else {
      var b' := b[..|b| - 1];
      ParseConcat(a, b');
      assert (a + b)[..|a + b| - 1] == a + b';
      assert 16 * (Parse(a) * Power16(|b'|)) == Parse(a) * Power16(|b|);
    }
  }

  lemma {:induction false} ParseZeros(n: nat)
    ensures |Zeros(n)| == n && Parse(Zeros(n)) == 0
  {
    if n == 0 {
    } else {
      ParseZeros(n - 1);
      ParseConcat(['0'], Zeros(n - 1));
      assert ['0'][..0] == "";
    }
  }

  lemma {:induction false} HexLength(n: nat, w: nat)
    requires w > 0 && n < Power16(w)
    ensures |Hex(n)| <= w
    decreases w
  {
    if n < 16 {
    } else {
      HexLength(n / 16, w - 1);
    }
  }

  /** Reading the printed digits as one hexadecimal number gives the value back. */
  lemma PrintRoundTrip(high: uint64, low: uint64)
    ensures Print(high, low)[..2] == "0x" && Parse(Print(high, low)[2..]) == high * BASE + low
  {
    hide Hex, Parse;
    ParseHex(low);
    ParseHex(high);
    if high == 0 {
      assert Print(high, low)[2..] == Hex(low);
    } else {
      assert Print(high, low)[2..] == Hex(high) + HexPadded(low, 16);
      PaddedIs16(low);
      ParseConcat(Hex(high), HexPadded(low, 16));
      BaseIsPower();
    }
  }

  lemma PaddedIs16(low: uint64)
    ensures |HexPadded(low, 16)| == 16 && Parse(HexPadded(low, 16)) == low
  {
    hide Hex, Parse;
    BaseIsPower();
    HexLength(low, 16);
    ParseHex(low);
    var z := 16 - |Hex(low)|;
    ParseZeros(z);
    ParseConcat(Zeros(z), Hex(low));
  }

  lemma BaseIsPower()
    ensures Power16(16) == BASE
  {
    assert Power16(4) == 0x1_0000;
    assert Power16(8) == 0x1_0000_0000;
    assert Power16(12) == 0x1_0000_0000_0000;
  }
}
