/**
Unsigned big integers of any number of limbs, as objects whose operators rewrite the
limb array in place.  Every operator is stated on the value the limbs stand for.
*/
module ArithUint {
  import opened Bits
  import opened Limbs
  import opened Shifts
  import opened Division

  class BaseUint {
    const pn: array<Limb>

    // Values wrap around here.
    ghost function Modulus(): int {
      Power(pn.Length)
    }

    ghost function Val(): nat
      reads pn
    {
      ValueBound(pn[..]);
      Value(pn[..])
    }

    lemma ValBound()
      ensures 0 <= Val() < Modulus()
    {
      ValueBound(pn[..]);
    }

    constructor Zero(width: nat)
      ensures fresh(pn) && pn.Length == width && Val() == 0
    {
      pn := new Limb[width](_ => 0);
      new;
      ValueZeros(pn[..]);
    }

    constructor Copy(b: BaseUint)
      ensures fresh(pn) && pn[..] == b.pn[..]
    {
      pn := new Limb[b.pn.Length](i requires 0 <= i < b.pn.Length reads b.pn => b.pn[i]);
      new;
      assert pn[..] == b.pn[..];
    }

    // ----- Addition and subtraction -----

    method AddAssign(b: BaseUint)
      requires b.pn.Length == pn.Length
      modifies pn
      ensures Val() == (old(Val()) + old(b.Val())) % Modulus()
    {
      ghost var was, other := pn[..], b.pn[..];
      var carry: int, i: int := 0, 0;
      while i < pn.Length
        invariant 0 <= i <= pn.Length && 0 <= carry <= 1
        invariant pn[i..] == was[i..] && b.pn[i..] == other[i..]
        invariant Value(pn[..i]) + Scale(carry, i) == Value(was[..i]) + Value(other[..i])
      {
        assert pn[i] == was[i] && b.pn[i] == other[i];
        var n := carry + pn[i] as int + b.pn[i] as int;
        assert n < 0x1_0000_0000_0000_0000;
        ghost var low := pn[..i];
        pn[i] := n % 0x1_0000_0000;
        assert pn[..][..i] == low;
        AddStep(pn[..], was, other, i, carry);
        carry := n / 0x1_0000_0000;
        i := i + 1;
        assert pn[..i] == pn[..][..i];
      }
      assert pn[..i] == pn[..] && was[..i] == was && other[..i] == other;
      ValueBound(pn[..]);
      Truncated(Val(), carry, Value(was) + Value(other), pn.Length);
    }

    // ~this, as a new number.
    method Complement() returns (r: BaseUint)
      ensures fresh(r.pn) && r.pn.Length == pn.Length && r.Val() == Modulus() - 1 - Val()
    {
      r := new BaseUint.Zero(pn.Length);
      for i := 0 to pn.Length
        invariant forall j | 0 <= j < i :: r.pn[j] == 0xffff_ffff - pn[j]
      {
        r.pn[i] := 0xffff_ffff - pn[i];
      }
      ComplementValue(r.pn[..], pn[..]);
    }

    method Increment()
      modifies pn
      ensures Val() == (old(Val()) + 1) % Modulus()
    {
      ghost var was := pn[..];
      var i := 0;
      assert Value(pn[..0]) + Power(0) == Value(was[..0]) + 1;
      while i < pn.Length
        invariant 0 <= i <= pn.Length && pn[i..] == was[i..]
        invariant Value(pn[..i]) + Power(i) == Value(was[..i]) + 1
      {
        assert pn[i] == was[i];
        ghost var before := pn[..];
        var n := pn[i] as int + 1;
        pn[i] := n % 0x1_0000_0000;
        assert pn[..] == before[i := pn[i]];
        assert pn[..][..i] == before[..i];
        if pn[i] != 0 {
          IncrementStop(before, was, i, pn[i]);
          ValueBound(pn[..]);
          ScaleZero(pn.Length);
          Truncated(Val(), 0, Value(was) + 1, pn.Length);
          return;
        }
        IncrementCarry(pn[..], was, i);
        i := i + 1;
        assert pn[..i] == pn[..][..i];
      }
      assert pn[..i] == pn[..] && was[..i] == was;
      ValueBound(pn[..]);
      Truncated(Val(), 1, Value(was) + 1, pn.Length);
    }

    method Negate() returns (r: BaseUint)
      ensures fresh(r.pn) && r.pn.Length == pn.Length && r.Val() == (Modulus() - Val()) % Modulus()
    {
      r := Complement();
      r.Increment();
    }

    method SubAssign(b: BaseUint)
      requires b.pn.Length == pn.Length
      modifies pn
      ensures Val() == (old(Val()) - old(b.Val())) % Modulus()
    {
      ghost var m, x, y := Modulus(), Val(), b.Val();
      ValBound();
      b.ValBound();
      var neg := b.Negate();
      AddAssign(neg);
      if y == 0 {
        ModOf(1, 0, m);
        ModOf(0, x, m);
      } else {
        ModOf(0, m - y, m);
        if x >= y {
          ModOf(1, x - y, m);
          ModOf(0, x - y, m);
        } else {
          ModOf(0, x + m - y, m);
          ModOf(-1, x + m - y, m);
        }
      }
    }

    // ----- Multiplication -----

    method MulAssign32(b32: Limb)
      modifies pn
      ensures Val() == b32 * old(Val()) % Modulus()
    {
      ghost var was := pn[..];
      var carry: int, i: int := 0, 0;
      while i < pn.Length
        invariant 0 <= i <= pn.Length && 0 <= carry < 0x1_0000_0000
        invariant pn[i..] == was[i..]
        invariant Value(pn[..i]) + Scale(carry, i) == b32 * Value(was[..i])
      {
        assert pn[i] == was[i];
        ProductFits(carry, 0, b32, pn[i]);
        var n := carry + b32 as int * pn[i] as int;
        ghost var low := pn[..i];
        pn[i] := n % 0x1_0000_0000;
        assert pn[..][..i] == low;
        ScaleStep(pn[..], was, b32, i, carry);
        carry := n / 0x1_0000_0000;
        i := i + 1;
        assert pn[..i] == pn[..][..i];
      }
      assert pn[..i] == pn[..] && was[..i] == was;
      ValueBound(pn[..]);
      Truncated(Val(), carry, b32 * Value(was), pn.Length);
    }

    // Adds pn[j] times b to an accumulator, j limbs up.
    method AddRow(acc: BaseUint, b: BaseUint, j: nat) returns (ghost last: int)
      requires b.pn.Length == pn.Length == acc.pn.Length && j < pn.Length
      requires acc.pn != pn && acc.pn != b.pn
      modifies acc.pn
      ensures acc.Val() + Scale(last, pn.Length) == old(acc.Val()) + Scale(pn[j] * Value(b.pn[..pn.Length - j]), j)
    {
      ghost var was, other := acc.pn[..], b.pn[..];
      var carry: int, i: int, x := 0, 0, pn[j];
      while i + j < pn.Length
        invariant 0 <= i && i + j <= pn.Length && 0 <= carry < 0x1_0000_0000
        invariant acc.pn[i + j..] == was[i + j..]
        invariant RowSoFar(acc.pn[..], was, other, x, i, j, carry)
      {
        assert acc.pn[i + j] == was[i + j];
        ProductFits(carry, acc.pn[i + j], x, b.pn[i]);
        var n := carry + acc.pn[i + j] as int + x as int * b.pn[i] as int;
        ghost var now := acc.pn[..];
        acc.pn[i + j] := n % 0x1_0000_0000;
        RowFrame(now, acc.pn[..], was, other, x, i, j, carry);
        RowStep(acc.pn[..], was, other, x, i, j, carry, n);
        carry := n / 0x1_0000_0000;
        i := i + 1;
      }
      assert acc.pn[..][..i + j] == acc.pn[..] && was[..i + j] == was && other[..i] == b.pn[..pn.Length - j];
      last := carry;
    }

    method MulAssign(b: BaseUint)
      requires b.pn.Length == pn.Length
      modifies pn
      ensures Val() == old(Val()) * old(b.Val()) % Modulus()
    {
      var a := new BaseUint.Zero(pn.Length);
      ghost var lost: int := 0;
      ScaleZero(pn.Length);
      for j := 0 to pn.Length
        invariant pn[..] == old(pn[..]) && b.pn[..] == old(b.pn[..])
        invariant a.Val() + Scale(lost, pn.Length) == Value(pn[..][..j]) * b.Val()
      {
        ghost var acc := a.Val();
        ghost var last := AddRow(a, b, j);
        lost := RowDone(a.Val(), acc, b.pn[..], pn[..], j, last, lost);
      }
      assert pn[..][..pn.Length] == pn[..];
      a.ValBound();
      Truncated(a.Val(), lost, Val() * b.Val(), pn.Length);
      Assign(a);
    }

    method Assign(a: BaseUint)
      requires a.pn.Length == pn.Length
      modifies pn
      ensures pn[..] == old(a.pn[..])
    {
      ghost var src := a.pn[..];
      for i := 0 to pn.Length
        invariant pn[..i] == src[..i] && a.pn[i..] == src[i..]
      {
        assert a.pn[i] == src[i];
        pn[i] := a.pn[i];
      }
    }

    // ----- Shifts -----

    method ShiftLeftAssign(shift: nat)
      modifies pn
      ensures Val() == old(Val()) * Pow2(shift) % Modulus()
    {
      hide Pow2, Value, Power;
      var a := pn[..];
      for i := 0 to pn.Length
        invariant forall j | 0 <= j < i :: pn[j] == 0
      {
        pn[i] := 0;
      }
      var k, s := shift / 32, shift % 32;
      for i := 0 to pn.Length
        invariant forall j: nat | j < pn.Length :: pn[j] == LeftSoFar(a, k, s, i, j)
      {
        SpreadLeft(a, k, s, i);
      }
      assert 32 * k + s == shift;
      LeftValue(pn[..], a, k, s);
    }

    // The two limbs that limb i of the operand reaches.
    method SpreadLeft(a: seq<Limb>, k: nat, s: nat, i: nat)
      requires i < |a| == pn.Length && s < 32
      requires forall j: nat | j < pn.Length :: pn[j] == LeftSoFar(a, k, s, i, j)
      modifies pn
      ensures forall j: nat | j < pn.Length :: pn[j] == LeftSoFar(a, k, s, i + 1, j)
    {
      forall j: nat | j < pn.Length ensures LeftStepAt(a, k, s, i, j) {
        LeftSoFarStep(a, k, s, i, j);
      }
      if i + k + 1 < pn.Length && s != 0 {
        pn[i + k + 1] := OrLimb(pn[i + k + 1], High(a[i], s));
      }
      if i + k < pn.Length {
        pn[i + k] := OrLimb(pn[i + k], Low(a[i], s));
      }
    }

    method ShiftRightAssign(shift: nat)
      modifies pn
      ensures Val() == old(Val()) / Pow2(shift)
    {
      var a := pn[..];
      for i := 0 to pn.Length
        invariant forall j | 0 <= j < i :: pn[j] == 0
      {
        pn[i] := 0;
      }
      var k, s := shift / 32, shift % 32;
      for i := 0 to pn.Length
        invariant forall j: nat | j < pn.Length :: pn[j] == RightSoFar(a, k, s, i, j)
      {
        forall j: nat | j < pn.Length ensures RightStepAt(a, k, s, i, j) {
          RightSoFarStep(a, k, s, i, j);
        }
        if i - k - 1 >= 0 && s != 0 {
          pn[i - k - 1] := OrLimb(pn[i - k - 1], Down(a[i], s));
        }
        if i - k >= 0 {
          pn[i - k] := OrLimb(pn[i - k], Shrunk(a[i], s));
        }
      }
      assert 32 * k + s == shift;
      RightValue(pn[..], a, k, s);
    }

    // ----- Comparison and bit length -----

    method CompareTo(b: BaseUint) returns (order: int)
      requires b.pn.Length == pn.Length
      ensures order < 0 <==> Val() < b.Val()
      ensures order == 0 <==> Val() == b.Val()
      ensures order > 0 <==> Val() > b.Val()
    {
      var i := pn.Length;
      while i > 0
        invariant 0 <= i <= pn.Length && pn[i..] == b.pn[i..]
      {
        i := i - 1;
        assert pn[i + 1..] == pn[..][i + 1..] && b.pn[i + 1..] == b.pn[..][i + 1..];
        if pn[i] < b.pn[i] {
          HighestDecides(pn[..], b.pn[..], i);
          return -1;
        }
        if pn[i] > b.pn[i] {
          HighestDecides(b.pn[..], pn[..], i);
          return 1;
        }
      }
      assert pn[..] == b.pn[..];
      return 0;
    }

    // The position of the highest one bit plus one, or zero.
    method BitLength() returns (bits: nat)
      ensures if Val() == 0 then bits == 0 else bits > 0 && Pow2(bits - 1) <= Val() < Pow2(bits)
    {
      var pos := pn.Length;
      while pos > 0
        invariant 0 <= pos <= pn.Length && forall j | pos <= j < pn.Length :: pn[j] == 0
      {
        pos := pos - 1;
        if pn[pos] != 0 {
          var n := TopBit(pn[pos]);
          TopLimb(pn[..], pos, n);
          Pow2Positive(32 * pos + n);
          return 32 * pos + n + 1;
        }
      }
      ValueZeros(pn[..]);
      return 0;
    }

    // ----- Division -----

    method SetZero()
      modifies pn
      ensures Val() == 0 && forall j | 0 <= j < pn.Length :: pn[j] == 0
    {
      for i := 0 to pn.Length
        invariant forall j | 0 <= j < i :: pn[j] == 0
      {
        pn[i] := 0;
      }
      ValueZeros(pn[..]);
    }

    method SetQuotientBit(shift: nat)
      requires shift / 32 < pn.Length && LowClear(pn[..], shift + 1)
      modifies pn
      ensures LowClear(pn[..], shift) && Val() == old(Val()) + Pow2(shift)
    {
      SetBit(pn[..], shift);
      ghost var was := pn[..];
      var l := shift / 32;
      var bit := Or(pn[l], Pow2(shift % 32));
      pn[l] := bit;
      assert pn[..] == was[l := bit];
    }

    // Division by zero throws, leaving zero; otherwise this becomes the quotient.
    method DivAssign(b: BaseUint) returns (threw: bool)
      requires b.pn.Length == pn.Length
      modifies pn
      ensures threw <==> old(b.Val()) == 0
      ensures Val() == if threw then 0 else old(Val()) / old(b.Val())
    {
      ghost var n, d := Val(), b.Val();
      ValBound();
      b.ValBound();
      var div := new BaseUint.Copy(b);
      var num := new BaseUint.Copy(this);
      SetZero();
      var numBits := num.BitLength();
      var divBits := div.BitLength();
      if divBits == 0 {
        return true;
      }
      threw := false;
      if divBits > numBits {
        FewerBits(n, d, numBits, divBits);
        return;
      }
      var shift := numBits - divBits;
      Align(n, d, divBits, shift);
      BitsFit(n, numBits, pn.Length);
      DivOf(0, d * Pow2(shift), Modulus());
      div.ShiftLeftAssign(shift);
      ZerosClear(pn[..], shift + 1);
      SubtractLoop(num, div, shift, n, d);
    }

    // Subtracts the divisor from the top shift down, setting a quotient bit each time it fits.
    method SubtractLoop(num: BaseUint, div: BaseUint, start: nat, ghost n: int, ghost d: nat)
      requires pn != num.pn && pn != div.pn && num.pn != div.pn && d > 0
      requires pn.Length == num.pn.Length == div.pn.Length && start / 32 < pn.Length
      requires Val() == 0 && LowClear(pn[..], start + 1)
      requires num.Val() == n && div.Val() == d * Pow2(start) && n < d * Pow2(start + 1)
      modifies pn, num.pn, div.pn
      ensures Val() == n / d
    {
      var shift := start as int;
      num.ValBound();
      while shift >= 0
        invariant -1 <= shift <= start
        invariant LowClear(pn[..], shift + 1)
        invariant num.Val() + Val() * d == n && 0 <= num.Val() < d * Pow2(shift + 1)
        invariant shift >= 0 ==> div.Val() == d * Pow2(shift)
      {
        SubtractOnce(num, div, shift, n, d);
        if shift > 0 {
          HalveDivisor(d, shift);
        }
        div.ShiftRightAssign(1);
        shift := shift - 1;
      }
      DivIs(n, Val(), num.Val(), d);
    }

    // One round of the loop: the quotient bit at `shift`.
    method SubtractOnce(num: BaseUint, div: BaseUint, shift: nat, ghost n: int, ghost d: nat)
      requires pn != num.pn && pn != div.pn && num.pn != div.pn
      requires pn.Length == num.pn.Length == div.pn.Length && shift / 32 < pn.Length
      requires LowClear(pn[..], shift + 1) && div.Val() == d * Pow2(shift)
      requires num.Val() + Val() * d == n && num.Val() < d * Pow2(shift + 1)
      modifies pn, num.pn
      ensures LowClear(pn[..], shift)
      ensures num.Val() + Val() * d == n && 0 <= num.Val() < d * Pow2(shift)
    {
      num.ValBound();
      Doubled(d, shift);
      var order := num.CompareTo(div);
      if order >= 0 {
        QuotientBit(num.Val(), Val(), d, n, Pow2(shift));
        div.ValBound();
        DivOf(0, num.Val() - div.Val(), num.Modulus());
        num.SubAssign(div);
        SetQuotientBit(shift);
      } else {
        ClearLess(pn[..], shift);
      }
    }
  }

  lemma FewerBits(n: nat, d: nat, numBits: nat, divBits: nat)
    requires numBits < divBits && Pow2(divBits - 1) <= d
    requires if n == 0 then numBits == 0 else numBits > 0 && n < Pow2(numBits)
    ensures n / d == 0
  {
    Pow2Monotone(numBits, divBits - 1);
    DivOf(0, n, d);
  }

  // A number of w limbs has at most 32 w bits.
  lemma BitsFit(n: nat, bits: nat, w: nat)
    requires bits > 0 && Pow2(bits - 1) <= n < Power(w)
    ensures bits <= 32 * w && Pow2(bits) <= Power(w)
  {
    PowerIsPow2(w);
    if bits > 32 * w {
      Pow2Monotone(32 * w, bits - 1);
    } else {
      Pow2Monotone(bits, 32 * w);
    }
  }

  lemma Pow2Positive(n: nat)
    ensures Pow2(n) > 0
  {
  }

  // The highest one bit of a limb, looked for from the top.
  method TopBit(x: Limb) returns (n: nat)
    requires x != 0
    ensures n < 32 && Pow2(n) <= x < Pow2(n + 1)
  {
    Pow2Values();
    n := 31;
    while n > 0
      invariant 0 <= n <= 31 && x < Pow2(n + 1)
    {
      AndBit(x, n);
      if And(x, Pow2(n)) != 0 {
        BitIsTop(x, Pow2(n));
        return;
      }
      BitNotTop(x, Pow2(n));
      n := n - 1;
    }
  }

  lemma BitIsTop(x: nat, p: nat)
    requires p > 0 && x / p % 2 == 1
    ensures p <= x
  {
    if x < p {
      DivOf(0, x, p);
    }
  }

  lemma BitNotTop(x: nat, p: nat)
    requires p > 0 && x / p % 2 != 1 && x < 2 * p
    ensures x < p
  {
    if x >= p {
      DivOf(1, x - p, p);
    }
  }

  // The limb of a left shift after the first i limbs of the operand went in.
  ghost function LeftSoFar(a: seq<Limb>, k: nat, s: nat, i: nat, j: nat): nat
    requires s < 32 && i <= |a|
  {
    Or(if k < j <= k + i then High(a[j - k - 1], s) else 0, if k <= j < k + i then Low(a[j - k], s) else 0)
  }

  // What the i-th limb of the operand adds to limb j.
  ghost predicate LeftStepAt(a: seq<Limb>, k: nat, s: nat, i: nat, j: nat)
    requires s < 32 && i < |a|
  {
    LeftSoFar(a, k, s, i + 1, j) ==
      if j == i + k + 1 then Or(LeftSoFar(a, k, s, i, j), High(a[i], s))
      else if j == i + k then Or(LeftSoFar(a, k, s, i, j), Low(a[i], s))
      else LeftSoFar(a, k, s, i, j)
  }

  lemma LeftSoFarStep(a: seq<Limb>, k: nat, s: nat, i: nat, j: nat)
    requires s < 32 && i < |a|
    ensures LeftStepAt(a, k, s, i, j)
  {
  }

  ghost predicate RightStepAt(a: seq<Limb>, k: nat, s: nat, i: nat, j: nat)
    requires s < 32 && i < |a|
  {
    RightSoFar(a, k, s, i + 1, j) ==
      if j + k + 1 == i then Or(RightSoFar(a, k, s, i, j), Down(a[i], s))
      else if j + k == i then Or(RightSoFar(a, k, s, i, j), Shrunk(a[i], s))
      else RightSoFar(a, k, s, i, j)
  }

  lemma RightSoFarStep(a: seq<Limb>, k: nat, s: nat, i: nat, j: nat)
    requires s < 32 && i < |a|
    ensures RightStepAt(a, k, s, i, j)
  {
  }

  ghost function RightSoFar(a: seq<Limb>, k: nat, s: nat, i: nat, j: nat): nat
    requires s < 32 && i <= |a|
  {
    Or(if j + k < i then Shrunk(a[j + k], s) else 0, if j + k + 1 < i then Down(a[j + k + 1], s) else 0)
  }

  function OrLimb(a: Limb, b: Limb): (r: Limb)
    ensures r == Or(a, b)
  {
    Pow2Values();
    OrBound(a, b, 32);
    Or(a, b)
  }
}
