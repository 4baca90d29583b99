/** Numbers as 32-bit limbs, the least significant first. */
module Limbs {
  import opened Bits

  type Limb = x: int | 0 <= x < 0x1_0000_0000

  // v moved up by n limbs.
  function Scale(v: int, n: nat): int {
    if n == 0 then v else 0x1_0000_0000 * Scale(v, n - 1)
  }

  function Value(s: seq<Limb>): int {
    if s == [] then 0 else Value(s[..|s| - 1]) + Scale(s[|s| - 1], |s| - 1)
  }

  // The numbers of n limbs are those below this.
  function Power(n: nat): (p: int)
    ensures p > 0
  {
    ScaleMonotone(0, 1, n);
    ScaleZero(n);
    Scale(1, n)
  }

  // ----- Scale -----

  lemma {:induction false} ScaleSum(a: int, b: int, n: nat)
    ensures Scale(a + b, n) == Scale(a, n) + Scale(b, n)
  {
    if n > 0 {
      ScaleSum(a, b, n - 1);
    }
  }

  lemma {:induction false} ScaleTimes(k: int, v: int, n: nat)
    ensures Scale(k * v, n) == k * Scale(v, n)
  {
    if n > 0 {
      ScaleTimes(k, v, n - 1);
      var x := Scale(v, n - 1);
      assert 0x1_0000_0000 * (k * x) == k * (0x1_0000_0000 * x);
    }
  }

  lemma ScaleIsProduct(v: int, n: nat)
    ensures Scale(v, n) == v * Power(n)
  {
    ScaleTimes(v, 1, n);
  }

  lemma {:induction false} ScaleScale(v: int, m: nat, n: nat)
    ensures Scale(Scale(v, m), n) == Scale(v, m + n)
  {
    if n > 0 {
      ScaleScale(v, m, n - 1);
    }
  }

  lemma {:induction false} ScaleMonotone(a: int, b: int, n: nat)
    requires a <= b
    ensures Scale(a, n) <= Scale(b, n)
    ensures a < b ==> Scale(a, n) < Scale(b, n)
  {
    if n > 0 {
      ScaleMonotone(a, b, n - 1);
    }
  }

  lemma {:induction false} PowerIsPow2(n: nat)
    ensures Power(n) == Pow2(32 * n)
  {
    if n > 0 {
      PowerIsPow2(n - 1);
      Pow2Add(32, 32 * (n - 1));
      Pow2Values();
    }
  }

  // Zero scales to zero, and one more limb multiplies by the base.
  lemma ScaleBase(v: int, n: nat)
    ensures Scale(0x1_0000_0000 * v, n) == Scale(v, n + 1)
  {
    ScaleTimes(0x1_0000_0000, v, n);
  }

  lemma {:induction false} ScaleZero(n: nat)
    ensures Scale(0, n) == 0
  {
    if n > 0 {
      ScaleZero(n - 1);
    }
  }

  // ----- Value -----

  lemma ValueSnoc(s: seq<Limb>, i: nat)
    requires i < |s|
    ensures Value(s[..i + 1]) == Value(s[..i]) + Scale(s[i], i)
  {
    assert s[..i + 1][..i] == s[..i];
  }

  lemma {:induction false} ValueBound(s: seq<Limb>)
    ensures 0 <= Value(s) < Power(|s|)
  {
    if s != [] {
      var n := |s| - 1;
      ValueBound(s[..n]);
      ScaleMonotone(0, s[n], n);
      ScaleZero(n);
      ScaleMonotone(s[n], 0xffff_ffff, n);
      ScaleSum(0xffff_ffff, 1, n);
      ScaleBase(1, n);
    }
  }

  // The high limbs count from the i-th limb up.
  lemma {:induction false} ValueSplit(s: seq<Limb>, i: nat)
    requires i <= |s|
    ensures Value(s) == Value(s[..i]) + Scale(Value(s[i..]), i)
    decreases |s|
  {
    if i == |s| {
      assert s[..i] == s;
      ScaleZero(i);
    } else {
      var n := |s| - 1;
      ValueSplit(s[..n], i);
      assert s[..n][..i] == s[..i] && s[..n][i..] == s[i..n] == s[i..][..n - i];
      ScaleScale(s[n], n - i, i);
      ScaleSum(Value(s[i..n]), Scale(s[n], n - i), i);
    }
  }

  lemma {:induction false} ValueZeros(s: seq<Limb>)
    requires forall i | 0 <= i < |s| :: s[i] == 0
    ensures Value(s) == 0
  {
    if s != [] {
      ValueZeros(s[..|s| - 1]);
      ScaleZero(|s| - 1);
    }
  }

  // ----- Carry chains -----

  // A count in units of the i-th limb, split into a limb and a carry.
  lemma CarryStep(n: int, i: nat)
    ensures Scale(n % 0x1_0000_0000, i) + Scale(n / 0x1_0000_0000, i + 1) == Scale(n, i)
  {
    ScaleBase(n / 0x1_0000_0000, i);
    ScaleSum(0x1_0000_0000 * (n / 0x1_0000_0000), n % 0x1_0000_0000, i);
  }

  // What a full carry chain leaves, once the last carry falls off the end.
  lemma Truncated(v: int, carry: int, total: int, n: nat)
    requires 0 <= v < Power(n) && v + Scale(carry, n) == total
    ensures v == total % Power(n)
  {
    ScaleIsProduct(carry, n);
    DivIs(total, carry, v, Power(n));
  }

  // One limb of an addition.
  lemma AddStep(s: seq<Limb>, a: seq<Limb>, b: seq<Limb>, i: nat, carry: int)
    requires i < |s| == |a| == |b| && s[i] == (carry + a[i] + b[i]) % 0x1_0000_0000
    requires Value(s[..i]) + Scale(carry, i) == Value(a[..i]) + Value(b[..i])
    ensures Value(s[..i + 1]) + Scale((carry + a[i] + b[i]) / 0x1_0000_0000, i + 1) ==
            Value(a[..i + 1]) + Value(b[..i + 1])
  {
    ValueSnoc(s, i);
    ValueSnoc(a, i);
    ValueSnoc(b, i);
    CarryStep(carry + a[i] + b[i], i);
    ScaleSum(carry + a[i], b[i], i);
    ScaleSum(carry, a[i], i);
  }

  // One limb of a multiplication by a single number.
  lemma ScaleStep(s: seq<Limb>, a: seq<Limb>, b: int, i: nat, carry: int)
    requires i < |s| == |a| && s[i] == (carry + b * a[i]) % 0x1_0000_0000
    requires Value(s[..i]) + Scale(carry, i) == b * Value(a[..i])
    ensures Value(s[..i + 1]) + Scale((carry + b * a[i]) / 0x1_0000_0000, i + 1) == b * Value(a[..i + 1])
  {
    ValueSnoc(s, i);
    ValueSnoc(a, i);
    CarryStep(carry + b * a[i], i);
    ScaleSum(carry, b * a[i], i);
    ScaleTimes(b, a[i], i);
    Distribute(Value(a[..i]), Scale(a[i], i), b);
  }

  // A product of two limbs with two more added still fits 64 bits.
  lemma ProductFits(carry: Limb, a: Limb, b: Limb, c: Limb)
    ensures 0 <= carry + a + b * c < 0x1_0000_0000_0000_0000
    ensures 0 <= (carry + a + b * c) / 0x1_0000_0000 < 0x1_0000_0000
  {
    MulMonotone(b, 0xffff_ffff, c);
    MulMonotone(0, b, c);
  }

  // One limb of a row of a schoolbook product, j limbs up.
  lemma RowStep(s: seq<Limb>, acc: seq<Limb>, b: seq<Limb>, x: Limb, i: nat, j: nat, carry: int, n: int)
    requires i + j < |s| == |acc| == |b|
    requires n == carry + acc[i + j] + x * b[i] && s[i + j] == n % 0x1_0000_0000
    requires RowSoFar(s, acc, b, x, i, j, carry)
    ensures RowSoFar(s, acc, b, x, i + 1, j, n / 0x1_0000_0000)
  {
    hide Value, Scale;
    ValueSnoc(s, i + j);
    ValueSnoc(acc, i + j);
    ValueSnoc(b, i);
    CarryStep(n, i + j);
    ScaleSum(carry + acc[i + j], x * b[i], i + j);
    ScaleSum(carry, acc[i + j], i + j);
    ScaleTimes(x, b[i], i);
    ScaleScale(x * b[i], i, j);
    Distribute(Value(b[..i]), Scale(b[i], i), x);
    ScaleSum(x * Value(b[..i]), x * Scale(b[i], i), j);
  }

  // The limbs of s below i + j hold acc plus x times b, j limbs up, with a carry left over.
  ghost predicate RowSoFar(s: seq<Limb>, acc: seq<Limb>, b: seq<Limb>, x: Limb, i: nat, j: nat, carry: int)
    requires i + j <= |s| == |acc| == |b|
  {
    Value(s[..i + j]) + Scale(carry, i + j) == Value(acc[..i + j]) + Scale(x * Value(b[..i]), j)
  }

  lemma RowFrame(s: seq<Limb>, s': seq<Limb>, acc: seq<Limb>, b: seq<Limb>, x: Limb, i: nat, j: nat, carry: int)
    requires i + j <= |s| == |s'| == |acc| == |b| && s[..i + j] == s'[..i + j]
    requires RowSoFar(s, acc, b, x, i, j, carry)
    ensures RowSoFar(s', acc, b, x, i, j, carry)
  {
  }

  // A whole row: what runs off the end is a multiple of the modulus.
  lemma RowDone(now: int, acc: int, b: seq<Limb>, a: seq<Limb>, j: nat, carry: int, lost: int) returns (lost': int)
    requires j < |b| == |a|
    requires now + Scale(carry, |b|) == acc + Scale(a[j] * Value(b[..|b| - j]), j)
    requires acc + Scale(lost, |b|) == Value(a[..j]) * Value(b)
    ensures now + Scale(lost', |b|) == Value(a[..j + 1]) * Value(b)
  {
    var w, x, low, high := |b|, a[j], Value(b[..|b| - j]), Value(b[|b| - j..]);
    ValueSplit(b, w - j);
    ValueSnoc(a, j);
    ScaleTimes(x, high, w - j);
    ScaleScale(x * high, w - j, j);
    Distribute(low, Scale(high, w - j), x);
    ScaleSum(x * low, x * Scale(high, w - j), j);
    ScaleTimes(Value(b), x, j);
    assert Scale(x * Value(b), j) == Scale(x, j) * Value(b);
    Distribute(Value(a[..j]), Scale(x, j), Value(b));
    lost' := lost + carry + x * high;
    ScaleSum(lost + carry, x * high, w);
    ScaleSum(lost, carry, w);
  }

  lemma {:induction false} ComplementValue(s: seq<Limb>, a: seq<Limb>)
    requires |s| == |a| && forall i | 0 <= i < |a| :: s[i] == 0xffff_ffff - a[i]
    ensures Value(s) + Value(a) == Power(|a|) - 1
  {
    if a != [] {
      var n := |a| - 1;
      ComplementValue(s[..n], a[..n]);
      ScaleSum(s[n], a[n], n);
      ScaleSum(0xffff_ffff, 1, n);
      ScaleBase(1, n);
    }
  }

  lemma IncrementCarry(s: seq<Limb>, a: seq<Limb>, i: nat)
    requires i < |s| == |a| && s[i] == 0 && a[i] == 0xffff_ffff
    requires Value(s[..i]) + Power(i) == Value(a[..i]) + 1
    ensures Value(s[..i + 1]) + Power(i + 1) == Value(a[..i + 1]) + 1
  {
    ValueSnoc(s, i);
    ValueSnoc(a, i);
    ScaleZero(i);
    ScaleSum(0xffff_ffff, 1, i);
    ScaleBase(1, i);
  }

  // Changing one limb changes the value by the difference, that far up.
  lemma {:induction false} ValueUpdate(a: seq<Limb>, i: nat, x: Limb)
    requires i < |a|
    ensures Value(a[i := x]) == Value(a) - Scale(a[i], i) + Scale(x, i)
  {
    var n := |a| - 1;
    if i == n {
      assert a[i := x][..n] == a[..n];
    } else {
      ValueUpdate(a[..n], i, x);
      assert a[i := x][..n] == a[..n][i := x];
    }
  }

  // Incrementing turned i full limbs to zero and adds one to the next.
  lemma IncrementStop(s: seq<Limb>, a: seq<Limb>, i: nat, x: Limb)
    requires i < |s| == |a| && s[i..] == a[i..] && x as int == a[i] as int + 1
    requires Value(s[..i]) + Power(i) == Value(a[..i]) + 1
    ensures Value(s[i := x]) == Value(a) + 1
  {
    assert s[i] == s[i..][0] == a[i..][0] == a[i];
    ValueSplit(s, i);
    ValueSplit(a, i);
    ValueUpdate(s, i, x);
    ScaleSum(a[i], 1, i);
  }
}
