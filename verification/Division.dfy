/** The facts behind comparison, bit length and shift-subtract division of limbs. */
module Division {
  import opened Bits
  import opened Limbs
  import opened Shifts

  // The highest limb that differs decides.
  lemma HighestDecides(a: seq<Limb>, b: seq<Limb>, i: nat)
    requires i < |a| == |b| && a[i + 1..] == b[i + 1..] && a[i] < b[i]
    ensures Value(a) < Value(b)
  {
    ValueSplit(a, i + 1);
    ValueSplit(b, i + 1);
    ValueSnoc(a, i);
    ValueSnoc(b, i);
    ValueBound(a[..i]);
    ValueBound(b[..i]);
    ScaleSum(a[i], 1, i);
    ScaleMonotone(a[i] as int + 1, b[i], i);
  }

  // The number of a limb run whose top limb has n + 1 bits.
  lemma TopLimb(a: seq<Limb>, pos: nat, n: nat)
    requires pos < |a| && (forall j | pos < j < |a| :: a[j] == 0)
    requires Pow2(n) <= a[pos] < Pow2(n + 1)
    ensures Pow2(32 * pos + n) <= Value(a) < Pow2(32 * pos + n + 1)
  {
    ValueSplit(a, pos + 1);
    ValueZeros(a[pos + 1..]);
    ScaleZero(pos + 1);
    ValueSnoc(a, pos);
    ValueBound(a[..pos]);
    ScaleMonotone(Pow2(n), a[pos], pos);
    ScaleSum(a[pos], 1, pos);
    ScaleMonotone(a[pos] as int + 1, Pow2(n + 1), pos);
    PowScale(n, pos);
    PowScale(n + 1, pos);
  }

  lemma PowScale(n: nat, pos: nat)
    ensures Scale(Pow2(n), pos) == Pow2(32 * pos + n)
  {
    ScaleIsProduct(Pow2(n), pos);
    PowerIsPow2(pos);
    Pow2Add(32 * pos, n);
  }

  // All bits below the m-th are zero.
  ghost predicate LowClear(s: seq<Limb>, m: nat) {
    forall j | 0 <= j < |s| ::
      if 32 * j + 32 <= m then s[j] == 0 else 32 * j < m ==> s[j] % Pow2(m - 32 * j) == 0
  }

  lemma ZeroLimb(m: nat)
    ensures 0 % Pow2(m) == 0
  {
    DivOf(0, 0, Pow2(m));
  }

  lemma ZerosClear(s: seq<Limb>, m: nat)
    requires forall j | 0 <= j < |s| :: s[j] == 0
    ensures LowClear(s, m)
  {
    forall j | 0 <= j < |s| && 32 * j < m ensures s[j] % Pow2(m - 32 * j) == 0 {
      ZeroLimb(m - 32 * j);
    }
  }

  // A limb with its low r + 1 bits clear gets bit r.
  lemma BitIntoLimb(x: Limb, r: nat)
    requires r < 32 && x % Pow2(r + 1) == 0
    ensures Or(x, Pow2(r)) == x + Pow2(r)
    ensures x + Pow2(r) < 0x1_0000_0000
    ensures (x + Pow2(r)) % Pow2(r) == 0
  {
    var y := x / Pow2(r + 1);
    assert x == y * Pow2(r + 1);
    OrDisjoint(Pow2(r), y, r + 1);
    BitClear(y, Pow2(r));
    ShrunkSmall(x, r + 1);
    BelowTop(y, Pow2(32 - (r + 1)), Pow2(r + 1), Pow2(r));
    LimbBits(r + 1);
  }

  lemma BitClear(y: int, p: nat)
    requires p > 0
    ensures (y * (2 * p) + p) % p == 0
  {
    MulAssoc(y, 2, p);
    Distribute(2 * y, 1, p);
    DivOf(2 * y + 1, 0, p);
  }

  lemma BelowTop(y: int, d: int, q: nat, p: int)
    requires y < d && p < q
    ensures y * q + p < q * d
  {
    MulMonotone(y + 1, d, q);
    Distribute(y, 1, q);
  }

  lemma SetBit(s: seq<Limb>, shift: nat)
    requires shift / 32 < |s| && LowClear(s, shift + 1)
    ensures var l, r := shift / 32, shift % 32;
            && 0 <= Or(s[l], Pow2(r)) < 0x1_0000_0000
            && LowClear(s[l := Or(s[l], Pow2(r))], shift)
            && Value(s[l := Or(s[l], Pow2(r))]) == Value(s) + Pow2(shift)
  {
    var l, r := shift / 32, shift % 32;
    assert s[l] % Pow2(r + 1) == 0 by {
      assert shift + 1 - 32 * l == r + 1;
      if r == 31 {
        assert s[l] == 0;
        ZeroLimb(r + 1);
      }
    }
    BitIntoLimb(s[l], r);
    var x: Limb := Or(s[l], Pow2(r));
    ValueUpdate(s, l, x);
    ScaleSum(s[l], Pow2(r), l);
    PowScale(r, l);
  }

  // Clear below m is clear below anything less.
  lemma ClearLess(s: seq<Limb>, m: nat)
    requires LowClear(s, m + 1)
    ensures LowClear(s, m)
  {
    forall j | 0 <= j < |s| && 32 * j < m < 32 * j + 32
      ensures s[j] % Pow2(m - 32 * j) == 0
    {
      var n := m - 32 * j;
      if 32 * j + 32 <= m + 1 {
        ZeroLimb(n);
      } else {
        assert s[j] % Pow2(n + 1) == 0;
        HalfClear(s[j], Pow2(n));
      }
    }
  }

  lemma HalfClear(x: nat, p: nat)
    requires p > 0 && x % (2 * p) == 0
    ensures x % p == 0
  {
    var y := x / (2 * p);
    assert x == y * (2 * p);
    MulAssoc(y, 2, p);
    DivOf(2 * y, 0, p);
  }

  // ----- The division loop on values -----

  // Aligning the divisor under a number with `shift` more bits.
  lemma Align(num: nat, div: nat, bits: nat, shift: nat)
    requires bits > 0 && Pow2(bits - 1) <= div < Pow2(bits)
    requires Pow2(bits + shift - 1) <= num < Pow2(bits + shift)
    ensures div * Pow2(shift) < Pow2(bits + shift)
    ensures num < div * Pow2(shift + 1)
    ensures Pow2(bits + shift) <= 2 * num
  {
    Pow2Add(bits, shift);
    Pow2Add(bits - 1, shift + 1);
    MulStrict(div, Pow2(bits), Pow2(shift));
    MulMonotone(Pow2(bits - 1), div, Pow2(shift + 1));
    assert bits - 1 + (shift + 1) == bits + shift;
  }

  // One more bit of the quotient.
  lemma QuotientBit(num: int, q: int, d: int, n: int, p: int)
    requires num + q * d == n
    ensures num - d * p + (q + p) * d == n
  {
    Distribute(q, p, d);
  }

  lemma HalveDivisor(d: nat, shift: nat)
    requires shift > 0
    ensures d * Pow2(shift) / Pow2(1) == d * Pow2(shift - 1)
  {
    assert Pow2(1) == 2;
    MulAssoc(2, d, Pow2(shift - 1));
    DivOf(d * Pow2(shift - 1), 0, 2);
  }

  lemma Doubled(d: nat, shift: nat)
    ensures d * Pow2(shift + 1) == 2 * (d * Pow2(shift))
  {
    MulAssoc(2, d, Pow2(shift));
  }
}
