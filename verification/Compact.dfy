/**
The compact form of a target: a base-256 exponent in the top byte and a 23-bit mantissa.
This module is the arithmetic of the format; `ArithUint256` has the code that reads and
writes it.
*/
module Compact {
  import opened Bits

  function BitLen(x: nat): nat {
    if x == 0 then 0 else 1 + BitLen(x / 2)
  }

  // The number of bytes of x.
  function Size(x: nat): nat {
    (BitLen(x) + 7) / 8
  }

  // The top three bytes of x, those it has not got being zero.
  function TopBytes(x: nat): nat {
    var size := Size(x);
    if size <= 3 then x * Pow2(8 * (3 - size)) else Over(x, Pow2(8 * (size - 3)))
  }

  // The exponent and mantissa written: a mantissa that would touch the sign bit moves a byte down.
  function Exponent(x: nat): nat {
    if TopBytes(x) >= 0x80_0000 then Size(x) + 1 else Size(x)
  }

  function Mantissa(x: nat): nat {
    if TopBytes(x) >= 0x80_0000 then TopBytes(x) / 256 else TopBytes(x)
  }

  function Encode(x: nat): nat {
    Mantissa(x) + Exponent(x) * 0x100_0000
  }

  function Word(c: nat): nat {
    c % 0x80_0000
  }

  // What a compact number stands for, before it is cut to 256 bits.
  function Decode(c: nat): nat {
    var size := c / 0x100_0000;
    if size <= 3 then Over(Word(c), Pow2(8 * (3 - size))) else Word(c) * Pow2(8 * (size - 3))
  }

  // ----- Normal form -----

  // The mantissa x has at exponent s.
  function Scaled(x: nat, s: nat): nat {
    Over(x * 0x100_0000, Pow2(8 * s))
  }

  predicate Normal(m: nat) {
    0x8000 <= m < 0x80_0000
  }

  lemma {:induction false} BitLenBounds(x: nat)
    requires x > 0
    ensures BitLen(x) > 0 && Pow2(BitLen(x) - 1) <= x < Pow2(BitLen(x))
  {
    if x > 1 {
      BitLenBounds(x / 2);
    }
  }

  lemma BitLenIs(x: nat, bits: nat)
    requires bits > 0 && Pow2(bits - 1) <= x < Pow2(bits)
    ensures BitLen(x) == bits
  {
    BitLenBounds(x);
    if BitLen(x) < bits {
      Pow2Monotone(BitLen(x), bits - 1);
    } else if BitLen(x) > bits {
      Pow2Monotone(bits, BitLen(x) - 1);
    }
  }

  lemma SizeBounds(x: nat)
    requires x > 0
    ensures Size(x) > 0 && Pow2(8 * Size(x) - 8) <= x < Pow2(8 * Size(x))
  {
    BitLenBounds(x);
    Pow2Monotone(8 * Size(x) - 8, BitLen(x) - 1);
    Pow2Monotone(BitLen(x), 8 * Size(x));
  }

  lemma TopBytesScaled(x: nat)
    ensures TopBytes(x) == Scaled(x, Size(x))
  {
    var size := Size(x);
    Pow2Values();
    if size <= 3 {
      Pow2Add(8 * (3 - size), 8 * size);
      SplitPower(x, Pow2(8 * (3 - size)), Pow2(8 * size));
    } else {
      Pow2Add(8 * (size - 3), 24);
      CancelFactor(x, Pow2(8 * (size - 3)), 0x100_0000);
    }
  }

  lemma SplitPower(x: nat, a: nat, b: nat)
    requires b > 0 && a * b == 0x100_0000
    ensures x * 0x100_0000 / b == x * a
  {
    MulAssoc(x, a, b);
    DivIs(x * 0x100_0000, x * a, 0, b);
  }

  lemma CancelFactor(x: nat, a: nat, b: nat)
    requires a > 0 && b > 0
    ensures a * b > 0 && x * b / (a * b) == x / a
  {
    var q, r := x / a, x % a;
    MulStrict(0, a, b);
    assert x == q * a + r;
    Distribute(q * a, r, b);
    MulAssoc(q, a, b);
    MulMonotone(0, r, b);
    MulStrict(r, a, b);
    DivIs(x * b, q, r * b, a * b);
  }

  // x * b / c between bounds, from x between bounds.
  lemma ScaledBounds(x: nat, s: nat, lo: nat, hi: nat)
    requires lo * Pow2(8 * s) <= x * 0x100_0000 < hi * Pow2(8 * s)
    ensures lo <= Scaled(x, s) < hi
  {
    var p, n := Pow2(8 * s), x * 0x100_0000;
    var q := n / p;
    assert n == q * p + n % p;
    if q < lo {
      MulMonotone(q + 1, lo, p);
      Distribute(q, 1, p);
    }
    if q >= hi {
      MulMonotone(hi, q, p);
    }
  }

  lemma TopBytesBounds(x: nat)
    requires x > 0
    ensures 0x1_0000 <= TopBytes(x) < 0x100_0000
  {
    var s := Size(x);
    SizeBounds(x);
    TopBytesScaled(x);
    Pow2Values();
    Pow2Add(8, 8 * s - 8);
    assert 0x1_0000 * Pow2(8 * s) == 0x100_0000 * Pow2(8 * s - 8);
    ScaledBounds(x, s, 0x1_0000, 0x100_0000);
  }

  lemma ScaledNext(x: nat, s: nat)
    ensures Scaled(x, s) / 256 == Scaled(x, s + 1)
  {
    Pow2Values();
    Pow2Add(8 * s, 8);
    DivDiv(x * 0x100_0000, Pow2(8 * s), 256);
  }

  // Every positive number is written with a normal mantissa, cut off at its exponent.
  lemma EncodeNormal(x: nat)
    requires x > 0
    ensures Exponent(x) > 0 && Mantissa(x) == Scaled(x, Exponent(x)) && Normal(Mantissa(x))
  {
    SizeBounds(x);
    TopBytesBounds(x);
    TopBytesScaled(x);
    ScaledNext(x, Size(x));
  }

  // A larger exponent leaves less than a normal mantissa.
  lemma {:induction false} ScaledFalls(x: nat, s: nat, t: nat)
    requires s < t && Scaled(x, s) < 0x80_0000
    ensures Scaled(x, t) < 0x8000
  {
    ScaledNext(x, t - 1);
    if s < t - 1 {
      ScaledFalls(x, s, t - 1);
    }
  }

  lemma ScaledMonotone(x: nat, y: nat, s: nat)
    requires x <= y
    ensures Scaled(x, s) <= Scaled(y, s)
  {
    DivMonotone(x * 0x100_0000, y * 0x100_0000, Pow2(8 * s));
  }

  // Only one exponent gives a normal mantissa.
  lemma ExponentUnique(x: nat, s: nat)
    requires x > 0 && Normal(Scaled(x, s))
    ensures s == Exponent(x) && Scaled(x, s) == Mantissa(x)
  {
    EncodeNormal(x);
    if s < Exponent(x) {
      ScaledFalls(x, s, Exponent(x));
    } else if s > Exponent(x) {
      ScaledFalls(x, Exponent(x), s);
    }
  }

  // ----- Encoding and decoding -----

  lemma EncodeParts(x: nat)
    ensures Word(Encode(x)) == Mantissa(x) && Encode(x) / 0x100_0000 == Exponent(x)
    ensures Mantissa(x) < 0x80_0000
  {
    if x > 0 {
      EncodeNormal(x);
    }
    Parts(Mantissa(x), Exponent(x));
  }

  lemma Parts(m: nat, e: nat)
    requires m < 0x80_0000
    ensures (m + e * 0x100_0000) % 0x80_0000 == m && (m + e * 0x100_0000) / 0x100_0000 == e
  {
  }

  // Reading back what was written loses less than one part in 2^15, never upwards.
  lemma DecodeEncode(x: nat)
    ensures Decode(Encode(x)) <= x
    ensures x > 0 ==> (x - Decode(Encode(x))) * 0x8000 < x
    ensures Size(x) <= 2 ==> Decode(Encode(x)) == x
  {
    EncodeParts(x);
    if x > 0 {
      EncodeNormal(x);
      var s := Exponent(x);
      Pow2Values();
      if s <= 3 {
        Pow2Add(8 * (3 - s), 8 * s);
        SplitPower(x, Pow2(8 * (3 - s)), Pow2(8 * s));
        DivIs(x * Pow2(8 * (3 - s)), x, 0, Pow2(8 * (3 - s)));
      } else {
        Pow2Add(8 * (s - 3), 24);
        CancelFactor(x, Pow2(8 * (s - 3)), 0x100_0000);
        CutLoss(x, Mantissa(x), Pow2(8 * (s - 3)));
      }
    }
  }

  lemma CutLoss(x: nat, m: nat, u: nat)
    requires u > 0 && m == x / u && m >= 0x8000
    ensures m * u <= x && (x - m * u) * 0x8000 < x
  {
    assert x == m * u + x % u;
    MulMonotone(0x8000, m, u);
  }

  // The order of numbers is the order of their compact forms.
  lemma EncodeMonotone(x: nat, y: nat)
    requires x <= y
    ensures Encode(x) <= Encode(y)
  {
    EncodeParts(x);
    EncodeParts(y);
    if x > 0 {
      EncodeNormal(x);
      EncodeNormal(y);
      ScaledMonotone(x, y, Exponent(x));
      if Exponent(x) > Exponent(y) {
        ScaledFalls(y, Exponent(y), Exponent(x));
      }
    }
  }

  // Writing again what was read back changes nothing.
  lemma EncodeIdempotent(x: nat)
    ensures Encode(Decode(Encode(x))) == Encode(x)
  {
    EncodeParts(x);
    if x > 0 {
      EncodeNormal(x);
      DecodeEncode(x);
      var r, s, m := Decode(Encode(x)), Exponent(x), Mantissa(x);
      Pow2Values();
      if s > 3 {
        var u := Pow2(8 * (s - 3));
        Pow2Add(8 * (s - 3), 24);
        CancelFactor(r, u, 0x100_0000);
        DivIs(r, m, 0, u);
        ExponentUnique(r, s);
      } else {
        Pow2Add(8 * (3 - s), 8 * s);
        SplitPower(x, Pow2(8 * (3 - s)), Pow2(8 * s));
        DivIs(x * Pow2(8 * (3 - s)), x, 0, Pow2(8 * (3 - s)));
      }
    }
  }

  // ----- Published pairs -----

  lemma SmallPowers()
    ensures Pow2(0) == 1 && Pow2(4) == 16 && Pow2(5) == 32 && Pow2(7) == 128 && Pow2(8) == 256
    ensures Pow2(16) == 0x1_0000 && Pow2(28) == 0x1000_0000 && Pow2(29) == 0x2000_0000
    ensures Pow2(31) == 0x8000_0000 && Pow2(32) == 0x1_0000_0000
  {
    Pow2Values();
    Pow2Add(4, 24);
    Pow2Add(5, 24);
    Pow2Add(7, 24);
    assert Pow2(4) == 16 && Pow2(7) == 128;
  }

  // Numbers and their compact forms, with a mantissa that is cut, that fits, and that would
  // touch the sign bit.
  lemma PublishedPairs()
    ensures Decode(0x01123456) == 0x12 && Encode(0x12) == 0x01120000
    ensures Decode(0x02008000) == 0x80 && Encode(0x80) == 0x02008000
    ensures Decode(0x04123456) == 0x12345600 && Encode(0x12345600) == 0x04123456
    ensures Decode(0x05009234) == 0x92340000 && Encode(0x92340000) == 0x05009234
  {
    hide Pow2, BitLen;
    SmallPowers();
    BitLenIs(0x12, 5);
    BitLenIs(0x80, 8);
    BitLenIs(0x12345600, 29);
    BitLenIs(0x92340000, 32);
  }
}
