/**
256-bit targets: reading and writing the compact form, and the proof of work a target
stands for.
*/
module ArithUint256 {
  import opened Bits
  import opened Limbs
  import opened ArithUint
  import Compact

  const WIDTH := 8

  // Sets the low two limbs and clears the rest.
  method AssignLow(x: BaseUint, b: nat)
    requires x.pn.Length == WIDTH && b < 0x1_0000_0000_0000_0000
    modifies x.pn
    ensures x.Val() == b
  {
    x.SetZero();
    ghost var zero := x.pn[..];
    x.pn[0] := b % 0x1_0000_0000;
    x.pn[1] := b / 0x1_0000_0000;
    ghost var one: seq<Limb> := zero[0 := x.pn[0]];
    assert x.pn[..] == one[1 := x.pn[1]];
    ValueUpdate(zero, 0, x.pn[0]);
    ValueUpdate(one, 1, x.pn[1]);
  }

  method GetLow64(x: BaseUint) returns (low: nat)
    requires x.pn.Length == WIDTH
    ensures low == x.Val() % 0x1_0000_0000_0000_0000
  {
    hide Or, Pow2;
    ghost var s := x.pn[..];
    Pow2Values();
    OrDisjoint(x.pn[0], x.pn[1], 32);
    low := Or(x.pn[0], x.pn[1] as int * 0x1_0000_0000);
    ValueSplit(s, 2);
    ValueSnoc(s, 1);
    ValueSnoc(s, 0);
    ScaleTwo(Value(s[2..]));
  }

  lemma ScaleTwo(v: int)
    ensures Scale(v, 2) == v * 0x1_0000_0000_0000_0000
  {
    assert Scale(v, 2) == 0x1_0000_0000 * Scale(v, 1);
    assert Scale(v, 1) == 0x1_0000_0000 * Scale(v, 0);
  }

  // 2 to the 256, where these numbers wrap around.
  ghost function Limit(): int {
    Power(WIDTH)
  }

  lemma LimitIs()
    ensures Limit() == Pow2(256)
  {
    PowerIsPow2(8);
  }

  // Reads a compact number: its value modulo 2^256, whether it is negative, and whether
  // 256 bits are too few for it.
  method SetCompact(x: BaseUint, nCompact: Limb) returns (negative: bool, overflow: bool)
    requires x.pn.Length == WIDTH
    modifies x.pn
    ensures x.Val() == Compact.Decode(nCompact) % Limit()
    ensures negative <==> Shown(nCompact) != 0 && nCompact / 0x80_0000 % 2 == 1
    ensures overflow <==> Compact.Decode(nCompact) >= Limit()
  {
    Pow23();
    var nSize := nCompact / 0x100_0000;
    AndMask(nCompact, 23);
    var nWord := And(nCompact, 0x7f_ffff);
    if nSize <= 3 {
      nWord := Over(nWord, Pow2(8 * (3 - nSize)));
      DecodedSmall(nCompact);
      AssignLow(x, nWord);
      DivIs(Compact.Decode(nCompact), 0, nWord, Limit());
    } else {
      AssignLow(x, nWord);
      x.ShiftLeftAssign(8 * (nSize - 3));
    }
    AndBit(nCompact, 23);
    negative := nWord != 0 && And(nCompact, 0x80_0000) != 0;
    overflow := nWord != 0 && (nSize > 34 || (nWord > 0xff && nSize > 33) || (nWord > 0xffff && nSize > 32));
    OverflowExact(nCompact);
  }

  // The mantissa as it takes part in the value: a small exponent shifts bytes of it out.
  function Shown(nCompact: nat): nat {
    var size := nCompact / 0x100_0000;
    if size <= 3 then Over(Compact.Word(nCompact), Pow2(8 * (3 - size))) else Compact.Word(nCompact)
  }

  lemma DecodedSmall(nCompact: Limb)
    requires nCompact / 0x100_0000 <= 3
    ensures Shown(nCompact) == Compact.Decode(nCompact) < 0x80_0000
    ensures 0x80_0000 < Limit()
  {
    var d := Pow2(8 * (3 - nCompact / 0x100_0000));
    var w := Compact.Word(nCompact);
    MulMonotone(1, d, Over(w, d));
    assert w / d * d <= w;
    LimitLarge();
  }

  lemma LimitLarge()
    ensures 0x80_0000 < Limit()
  {
    LimitIs();
    Pow2Values();
    Pow2Monotone(32, 256);
  }

  // The overflow test is exact: the mantissa does not fit below 2^256 at that exponent.
  lemma OverflowExact(nCompact: Limb)
    ensures var nSize, nWord := nCompact / 0x100_0000, Shown(nCompact);
            Compact.Decode(nCompact) >= Limit() <==>
            nWord != 0 && (nSize > 34 || (nWord > 0xff && nSize > 33) || (nWord > 0xffff && nSize > 32))
  {
    var nSize, nWord := nCompact / 0x100_0000, Shown(nCompact);
    LimitIs();
    if nSize <= 3 {
      DecodedSmall(nCompact);
    } else {
      var e := 8 * (nSize - 3);
      Pow2Values();
      if nSize <= 32 {
        FitsBelow(nWord, e, 24);
      } else if nSize == 33 {
        FitsExactly(nWord, e, 16);
      } else if nSize == 34 {
        FitsExactly(nWord, e, 8);
      } else if nWord != 0 {
        Pow2Monotone(256, e);
        MulMonotone(1, nWord, Pow2(e));
      }
    }
  }

  lemma FitsBelow(w: nat, e: nat, n: nat)
    requires w < Pow2(n) && e + n <= 256
    ensures w * Pow2(e) < Pow2(256)
  {
    MulStrict(w, Pow2(n), Pow2(e));
    Pow2Add(n, e);
    Pow2Monotone(n + e, 256);
  }

  lemma FitsExactly(w: nat, e: nat, n: nat)
    requires e + n == 256
    ensures w * Pow2(e) >= Pow2(256) <==> w >= Pow2(n)
  {
    Pow2Add(n, e);
    if w >= Pow2(n) {
      MulMonotone(Pow2(n), w, Pow2(e));
    } else {
      MulStrict(w, Pow2(n), Pow2(e));
    }
  }

  // Writes the compact form; the sign bit only goes with a mantissa that is not zero.
  method GetCompact(x: BaseUint, fNegative: bool) returns (nCompact: nat)
    requires x.pn.Length == WIDTH
    ensures nCompact == Compact.Encode(x.Val()) + (if fNegative && x.Val() > 0 then 0x80_0000 else 0)
    ensures nCompact < 0x1_0000_0000
  {
    x.ValBound();
    var mantissa, exponent := Normalize(x);
    Compact.EncodeParts(x.Val());
    ExponentFits(x.Val());
    if x.Val() > 0 {
      Compact.EncodeNormal(x.Val());
    }
    nCompact := Pack(mantissa, exponent, fNegative);
  }

  // The mantissa and exponent to write; one that would touch the sign bit moves a byte down.
  method Normalize(x: BaseUint) returns (m: nat, e: nat)
    requires x.pn.Length == WIDTH
    ensures m == Compact.Mantissa(x.Val()) && e == Compact.Exponent(x.Val())
  {
    var bits := x.BitLength();
    BitsAre(x.Val(), bits);
    e := (bits + 7) / 8;
    m := TopBytesOf(x, e);
    TopBytesSmall(x.Val());
    SignTest(m);
    if And(m, 0x80_0000) != 0 {
      m := m / 256;
      e := e + 1;
    }
  }

  lemma TopBytesSmall(v: nat)
    ensures Compact.TopBytes(v) < 0x100_0000
  {
    if v > 0 {
      Compact.TopBytesBounds(v);
    }
  }

  lemma Pow23()
    ensures Pow2(23) == 0x80_0000
  {
    Pow2Values();
    assert Pow2(7) == 128;
    Pow2Add(7, 16);
  }

  lemma SignTest(m: nat)
    requires m < 0x100_0000
    ensures And(m, 0x80_0000) != 0 <==> m >= 0x80_0000
  {
    Pow23();
    AndBit(m, 23);
  }

  method Pack(m: nat, e: nat, fNegative: bool) returns (nCompact: nat)
    requires m < 0x80_0000 && e < 256
    ensures nCompact == m + e * 0x100_0000 + (if fNegative && m != 0 then 0x80_0000 else 0)
    ensures nCompact < 0x1_0000_0000
  {
    Pow23();
    Pow2Values();
    OrDisjoint(m, e, 24);
    nCompact := Or(m, e * 0x100_0000);
    AndMask(nCompact, 23);
    Compact.Parts(m, e);
    if fNegative && And(nCompact, 0x7f_ffff) != 0 {
      OrBit(nCompact, 23);
      nCompact := Or(nCompact, 0x80_0000);
    }
  }

  lemma BitsAre(v: nat, bits: nat)
    requires if v == 0 then bits == 0 else bits > 0 && Pow2(bits - 1) <= v < Pow2(bits)
    ensures bits == Compact.BitLen(v)
  {
    if v > 0 {
      Compact.BitLenIs(v, bits);
    }
  }

  // The top three bytes, from the low half of the number or of a copy shifted down.
  method TopBytesOf(x: BaseUint, nSize: nat) returns (top: nat)
    requires x.pn.Length == WIDTH && nSize == Compact.Size(x.Val())
    ensures top == Compact.TopBytes(x.Val())
  {
    if nSize <= 3 {
      var low := GetLow64(x);
      TopSmall(x.Val(), nSize);
      top := low * Pow2(8 * (3 - nSize)) % 0x1_0000_0000;
    } else {
      var bn := new BaseUint.Copy(x);
      bn.ShiftRightAssign(8 * (nSize - 3));
      TopLarge(x.Val(), bn.Val(), nSize);
      var low := GetLow64(bn);
      top := low % 0x1_0000_0000;
    }
  }

  lemma TopSmall(v: nat, size: nat)
    requires size <= 3 && size == Compact.Size(v)
    ensures v % 0x1_0000_0000_0000_0000 == v
    ensures v * Pow2(8 * (3 - size)) % 0x1_0000_0000 == Compact.TopBytes(v)
  {
    hide Pow2;
    SmallSize(v, size);
    TopBytesSmall(v);
    assert v * Pow2(8 * (3 - size)) == Compact.TopBytes(v);
  }

  lemma SmallSize(v: nat, size: nat)
    requires size <= 3 && size == Compact.Size(v)
    ensures v < 0x100_0000
  {
    Pow2Values();
    if v > 0 {
      Compact.SizeBounds(v);
      Pow2Monotone(8 * size, 24);
    }
  }

  lemma TopLarge(v: nat, w: nat, size: nat)
    requires size > 3 && size == Compact.Size(v) && w == v / Pow2(8 * (size - 3))
    ensures w == Compact.TopBytes(v) < 0x100_0000
    ensures w % 0x1_0000_0000_0000_0000 % 0x1_0000_0000 == w
  {
    TopBytesSmall(v);
  }

  // 256 bits give an exponent of at most 33.
  lemma ExponentFits(v: nat)
    requires v < Limit()
    ensures Compact.Exponent(v) <= 33
  {
    hide Pow2, Limit, Power;
    LimitIs();
    if v > 0 {
      Compact.SizeBounds(v);
      if Compact.Size(v) > 32 {
        Pow2Monotone(256, 8 * Compact.Size(v) - 8);
      }
    }
  }

  // ----- Work -----

  // The work a compact target stands for: 2^256 over the target plus one, or none if the
  // target is negative, too large or zero.
  method GetBitsProof(bits: Limb) returns (work: BaseUint)
    ensures work.pn.Length == WIDTH
    ensures work.Val() == Work(bits)
  {
    var target := new BaseUint.Zero(WIDTH);
    var negative, overflow := SetCompact(target, bits);
    var zero := new BaseUint.Zero(WIDTH);
    var order := target.CompareTo(zero);
    TargetFits(bits, target.Val());
    if negative || overflow || order == 0 {
      return zero;
    }
    work := WorkOf(target);
  }

  // ~target / (target + 1) + 1
  method WorkOf(target: BaseUint) returns (work: BaseUint)
    requires target.pn.Length == WIDTH && 0 < target.Val() < Limit() - 1
    modifies target.pn
    ensures fresh(work.pn) && work.pn.Length == WIDTH && work.Val() == Limit() / (old(target.Val()) + 1)
  {
    WorkIs(target.Val());
    work := target.Complement();
    target.Increment();
    var threw := work.DivAssign(target);
    work.Increment();
  }

  function Work(bits: nat): nat {
    if IsTarget(bits) then Over(Pow2(256), Compact.Decode(bits) + 1) else 0
  }

  predicate IsTarget(bits: nat) {
    && !(Shown(bits) != 0 && bits / 0x80_0000 % 2 == 1)
    && 0 < Compact.Decode(bits) < Pow2(256)
  }

  lemma TargetFits(bits: Limb, t: int)
    requires t == Compact.Decode(bits) % Limit()
    ensures Compact.Decode(bits) < Limit() ==> t == Compact.Decode(bits) < Limit() - 1
    ensures IsTarget(bits) <==>
              !(Shown(bits) != 0 && bits / 0x80_0000 % 2 == 1) && Compact.Decode(bits) < Limit() && t != 0
    ensures IsTarget(bits) ==> Work(bits) == Limit() / (t + 1)
  {
    LimitIs();
    if Compact.Decode(bits) < Limit() {
      DivOf(0, Compact.Decode(bits), Limit());
      NotAllOnes(bits);
    }
  }

  // A target is small or ends in a zero byte, so it is not 2^256 - 1.
  lemma NotAllOnes(bits: Limb)
    ensures Compact.Decode(bits) != Limit() - 1
  {
    var size := bits / 0x100_0000;
    LimitIs();
    LimitLarge();
    if size <= 3 {
      DecodedSmall(bits);
    } else {
      Pow2Add(8, 248);
      Pow2Add(8, 8 * (size - 3) - 8);
      Pow2Values();
      var w, p := Compact.Word(bits), Pow2(8 * (size - 3) - 8);
      MulAssoc(w, 256, p);
      assert Compact.Decode(bits) == 256 * (w * p);
    }
  }

  // (2^256 - 1 - t) / (t + 1) + 1 is 2^256 / (t + 1), and nothing wraps around.
  lemma WorkIs(t: nat)
    requires 0 < t < Limit() - 1
    ensures (t + 1) % Limit() == t + 1
    ensures (Limit() - 1 - t) / (t + 1) + 1 == Limit() / (t + 1) < Limit()
    ensures Limit() / (t + 1) % Limit() == Limit() / (t + 1)
  {
    var m := Limit();
    DivOf(0, t + 1, m);
    var q, r := m / (t + 1), m % (t + 1);
    assert m == q * (t + 1) + r;
    Distribute(q, 1, t + 1);
    DivIs(m - 1 - t, q - 1, r, t + 1);
    DivMonotone(0, m, t + 1);
    DivOf(0, 0, t + 1);
    DivOf(0, q, m);
  }
}
