/** Shifting limbs: the limbs a shift produces, and the number they stand for. */
module Shifts {
  import opened Bits
  import opened Limbs

  // A limb shifted left, cut to 32 bits, and the bits it loses, in the next limb.
  function Low(x: Limb, s: nat): (r: Limb)
    requires s < 32
  {
    x * Pow2(s) % 0x1_0000_0000
  }

  function High(x: Limb, s: nat): (r: Limb)
    requires s < 32
  {
    if s == 0 then 0
    else
      Pow2Monotone(1, 32 - s);
      ShrinkBy(x, Pow2(32 - s));
      x / Pow2(32 - s)
  }

  lemma ShrinkBy(x: nat, d: nat)
    requires d > 0
    ensures 0 <= x / d <= x
  {
    MulMonotone(1, d, x / d);
    assert x / d * d <= x;
  }

  // x cut into a high part and a low part, and both moved up by a factor p.
  lemma CutAndMove(x: Limb, p: nat, d: nat) returns (h: nat, l: nat)
    requires p > 0 && d > 0 && p * d == 0x1_0000_0000
    ensures h == x / d < p
    ensures x * p == h * 0x1_0000_0000 + l * p && l * p <= 0x1_0000_0000 - p
  {
    h, l := x / d, x % d;
    assert x == h * d + l;
    CutProduct(h, d, l, p);
    LowPart(l, d, p);
    if h >= p {
      MulMonotone(p, h, d);
    }
  }

  lemma CutProduct(h: int, d: int, l: int, p: int)
    ensures (h * d + l) * p == h * (p * d) + l * p
  {
    Distribute(h * d, l, p);
    MulAssoc(h, d, p);
  }

  lemma LowPart(l: int, d: int, p: nat)
    requires l < d
    ensures l * p <= p * d - p
  {
    MulMonotone(l, d - 1, p);
    Distribute(d, 1, p);
  }

  lemma LimbBits(s: nat)
    requires s <= 32
    ensures Pow2(s) * Pow2(32 - s) == 0x1_0000_0000
  {
    Pow2Add(s, 32 - s);
    Pow2Values();
  }

  // Moving a limb up by s bits, on top of s bits carried in from below.
  lemma ShiftLow(x: Limb, s: nat, c: nat)
    requires s < 32 && c < Pow2(s)
    ensures Or(c, Low(x, s)) == (c + x * Pow2(s)) % 0x1_0000_0000
  {
    LimbBits(s);
    var h, l := CutAndMove(x, Pow2(s), Pow2(32 - s));
    FromParts(x * Pow2(s), h, l * Pow2(s), c);
    OrDisjoint(c, l, s);
  }

  lemma ShiftHigh(x: Limb, s: nat, c: nat)
    requires s < 32 && c < Pow2(s)
    ensures High(x, s) == (c + x * Pow2(s)) / 0x1_0000_0000
    ensures High(x, s) < Pow2(s)
  {
    if s > 0 {
      hide Pow2;
      LimbBits(s);
      var h, l := CutAndMove(x, Pow2(s), Pow2(32 - s));
      FromParts(x * Pow2(s), h, l * Pow2(s), c);
    }
  }

  lemma FromParts(v: int, h: int, low: int, c: int)
    requires v == h * 0x1_0000_0000 + low && 0 <= low && 0 <= c && low + c < 0x1_0000_0000
    ensures v % 0x1_0000_0000 == low
    ensures (c + v) % 0x1_0000_0000 == c + low && (c + v) / 0x1_0000_0000 == h
  {
  }

  // ----- Left -----

  // The bits limb t - 1 hands up to limb t.
  function Carry(a: seq<Limb>, s: nat, t: nat): Limb
    requires s < 32 && t <= |a|
  {
    if t == 0 then 0 else High(a[t - 1], s)
  }

  // Limb j of a shift left by k limbs and s bits.
  function LeftLimb(a: seq<Limb>, k: nat, s: nat, j: nat): nat
    requires s < 32
  {
    Or(if k < j <= k + |a| then High(a[j - k - 1], s) else 0, if k <= j < k + |a| then Low(a[j - k], s) else 0)
  }

  lemma CarrySmall(a: seq<Limb>, s: nat, t: nat)
    requires s < 32 && t <= |a|
    ensures Carry(a, s, t) < Pow2(s)
  {
    if t > 0 {
      ShiftHigh(a[t - 1], s, 0);
    }
  }

  // The first k + t limbs of the result and the bits still to come.
  lemma {:induction false} LeftPrefix(r: seq<Limb>, a: seq<Limb>, k: nat, s: nat, t: nat)
    requires s < 32 && k + t <= |r| == |a|
    requires forall j: nat | j < |r| :: r[j] == LeftLimb(a, k, s, j)
    ensures Value(r[..k + t]) + Scale(Carry(a, s, t), k + t) == Scale(Value(a[..t]) * Pow2(s), k)
  {
    if t == 0 {
      ValueZeros(r[..k]);
      ScaleZero(k);
    } else {
      LeftPrefix(r, a, k, s, t - 1);
      LeftStep(r, a, k, s, t - 1);
    }
  }

  lemma LeftStep(r: seq<Limb>, a: seq<Limb>, k: nat, s: nat, t: nat)
    requires s < 32 && k + t < |r| == |a|
    requires r[k + t] == LeftLimb(a, k, s, k + t)
    requires Value(r[..k + t]) + Scale(Carry(a, s, t), k + t) == Scale(Value(a[..t]) * Pow2(s), k)
    ensures Value(r[..k + t + 1]) + Scale(Carry(a, s, t + 1), k + t + 1) == Scale(Value(a[..t + 1]) * Pow2(s), k)
  {
    var c := Carry(a, s, t);
    CarrySmall(a, s, t);
    ShiftLow(a[t], s, c);
    ShiftHigh(a[t], s, c);
    ValueSnoc(r, k + t);
    ValueSnoc(a, t);
    LeftAlgebra(Value(r[..k + t]), c, Value(a[..t]), a[t], Pow2(s), t, k);
  }

  lemma LeftAlgebra(vr: int, c: int, va: int, x: int, p: int, t: nat, k: nat)
    requires vr + Scale(c, k + t) == Scale(va * p, k)
    ensures vr + Scale((c + x * p) % 0x1_0000_0000, k + t) + Scale((c + x * p) / 0x1_0000_0000, k + t + 1) ==
            Scale((va + Scale(x, t)) * p, k)
  {
    CarryStep(c + x * p, k + t);
    ScaleSum(c, x * p, k + t);
    MovedLimb(va, x, p, t, k);
  }

  lemma MovedLimb(v: int, x: int, p: int, t: nat, k: nat)
    ensures Scale((v + Scale(x, t)) * p, k) == Scale(v * p, k) + Scale(x * p, k + t)
  {
    Distribute(v, Scale(x, t), p);
    ScaleTimes(p, x, t);
    ScaleScale(x * p, t, k);
    ScaleSum(v * p, Scale(x, t) * p, k);
  }

  lemma LeftValue(r: seq<Limb>, a: seq<Limb>, k: nat, s: nat)
    requires s < 32 && |r| == |a|
    requires forall j: nat | j < |r| :: r[j] == LeftLimb(a, k, s, j)
    ensures Value(r) == Value(a) * Pow2(32 * k + s) % Power(|a|)
  {
    ShiftIsScale(Value(a), k, s);
    if k >= |a| {
      ValueZeros(r);
      ScaleScale(Value(a) * Pow2(s), k - |a|, |a|);
      Truncated(0, Scale(Value(a) * Pow2(s), k - |a|), Scale(Value(a) * Pow2(s), k), |a|);
    } else {
      LeftPrefix(r, a, k, s, |a| - k);
      assert r[..|a|] == r;
      LeftCut(Value(r), Carry(a, s, |a| - k), a, k, Pow2(s));
      ValueBound(r);
      Truncated(Value(r), Carry(a, s, |a| - k) + Value(a[|a| - k..]) * Pow2(s), Scale(Value(a) * Pow2(s), k), |a|);
    }
  }

  // The limbs pushed out of a shift are a multiple of the modulus.
  lemma LeftCut(v: int, c: int, a: seq<Limb>, k: nat, p: int)
    requires k <= |a| && v + Scale(c, |a|) == Scale(Value(a[..|a| - k]) * p, k)
    ensures v + Scale(c + Value(a[|a| - k..]) * p, |a|) == Scale(Value(a) * p, k)
  {
    ValueSplit(a, |a| - k);
    MovedLimb(Value(a[..|a| - k]), Value(a[|a| - k..]), p, |a| - k, k);
    ScaleSum(c, Value(a[|a| - k..]) * p, |a|);
  }

  lemma ShiftIsScale(v: int, k: nat, s: nat)
    ensures v * Pow2(32 * k + s) == Scale(v * Pow2(s), k)
  {
    Pow2Add(32 * k, s);
    PowerIsPow2(k);
    ScaleIsProduct(v * Pow2(s), k);
    Commute(v, Pow2(32 * k), Pow2(s));
  }

  lemma Commute(a: int, b: int, c: int)
    ensures a * (b * c) == a * c * b
  {
  }

  // ----- Right -----

  // The low s bits of a limb, moved to the top of the limb below.
  function Down(x: Limb, s: nat): (r: Limb)
    requires s < 32
  {
    if s == 0 then 0 else Low(x, 32 - s)
  }

  function Shrunk(x: Limb, s: nat): (r: Limb)
    requires s < 32
  {
    ShrinkBy(x, Pow2(s));
    x / Pow2(s)
  }

  // Limb j of a shift right by k limbs and s bits.
  function RightLimb(a: seq<Limb>, k: nat, s: nat, j: nat): nat
    requires s < 32
  {
    Or(if j + k < |a| then Shrunk(a[j + k], s) else 0, if j + k + 1 < |a| then Down(a[j + k + 1], s) else 0)
  }

  // The low bits of limb t, or nothing past the end.
  function Rest(b: seq<Limb>, s: nat, t: nat): nat {
    if t < |b| then b[t] % Pow2(s) else 0
  }

  lemma DownIsRest(x: Limb, s: nat)
    requires 0 < s < 32
    ensures Down(x, s) == x % Pow2(s) * Pow2(32 - s)
  {
    LimbBits(s);
    var h, l := CutAndMove(x, Pow2(32 - s), Pow2(s));
    FromParts(x * Pow2(32 - s), h, l * Pow2(32 - s), 0);
    DivOf(h, x % Pow2(s), Pow2(s));
    LowIsRest(x, h, l, Pow2(32 - s), Pow2(s));
  }

  lemma LowIsRest(x: Limb, h: nat, l: nat, p: nat, d: nat)
    requires p > 0 && d > 0 && p * d == 0x1_0000_0000 && h == x / d
    requires x * p == h * 0x1_0000_0000 + l * p
    ensures l * p == x % d * p
  {
    assert x == h * d + x % d;
    CutProduct(h, d, x % d, p);
  }

  lemma RightLimbIs(a: seq<Limb>, k: nat, s: nat, j: nat)
    requires s < 32 && j + k < |a|
    ensures RightLimb(a, k, s, j) == Shrunk(a[j + k], s) + Rest(a[k..], s, j + 1) * Pow2(32 - s)
  {
    var x := a[j + k];
    if s == 0 {
      assert Rest(a[k..], 0, j + 1) == 0;
    } else if j + k + 1 < |a| {
      DownIsRest(a[j + k + 1], s);
      LimbBits(s);
      ShrunkSmall(x, s);
      OrDisjoint(Shrunk(x, s), a[j + k + 1] % Pow2(s), 32 - s);
    } else {
      assert Rest(a[k..], s, j + 1) * Pow2(32 - s) == 0;
    }
  }

  lemma ShrunkSmall(x: Limb, s: nat)
    requires s <= 32
    ensures x / Pow2(s) < Pow2(32 - s)
  {
    LimbBits(s);
    QuotientSmall(x, Pow2(s), Pow2(32 - s));
  }

  lemma QuotientSmall(x: Limb, p: nat, d: nat)
    requires p > 0 && p * d == 0x1_0000_0000
    ensures x / p < d
  {
    var q := x / p;
    assert q * p <= x;
    if q >= d {
      MulMonotone(d, q, p);
    }
  }

  // Multiplied back by 2^s, the first t limbs of the result differ from the first t
  // limbs of the operand by low bits only.
  lemma {:induction false} RightPrefix(r: seq<Limb>, b: seq<Limb>, s: nat, t: nat)
    requires s < 32 && t <= |b| <= |r|
    requires forall j: nat | j < |b| :: r[j] == Shrunk(b[j], s) + Rest(b, s, j + 1) * Pow2(32 - s)
    ensures Value(r[..t]) * Pow2(s) + Rest(b, s, 0) == Value(b[..t]) + Scale(Rest(b, s, t), t)
  {
    if t > 0 {
      RightPrefix(r, b, s, t - 1);
      RightStep(r, b, s, t - 1);
    }
  }

  lemma RightStep(r: seq<Limb>, b: seq<Limb>, s: nat, t: nat)
    requires s < 32 && t < |b| <= |r|
    requires r[t] == Shrunk(b[t], s) + Rest(b, s, t + 1) * Pow2(32 - s)
    requires Value(r[..t]) * Pow2(s) + Rest(b, s, 0) == Value(b[..t]) + Scale(Rest(b, s, t), t)
    ensures Value(r[..t + 1]) * Pow2(s) + Rest(b, s, 0) == Value(b[..t + 1]) + Scale(Rest(b, s, t + 1), t + 1)
  {
    ValueSnoc(r, t);
    ValueSnoc(b, t);
    RightLimbBack(b[t], s, Rest(b, s, t + 1));
    RightAlgebra(Value(r[..t]), Value(b[..t]), r[t], b[t], Rest(b, s, t), Rest(b, s, t + 1), Pow2(s), Rest(b, s, 0), t);
  }

  lemma RightAlgebra(vr: int, vb: int, x: int, y: int, low: int, next: int, p: int, first: int, t: nat)
    requires p * x == y - low + 0x1_0000_0000 * next
    requires vr * p + first == vb + Scale(low, t)
    ensures (vr + Scale(x, t)) * p + first == vb + Scale(y, t) + Scale(next, t + 1)
  {
    Distribute(vr, Scale(x, t), p);
    ScaleTimes(p, x, t);
    ScaleBase(next, t);
    ScaleSum(y - low, 0x1_0000_0000 * next, t);
    ScaleSum(y - low, low, t);
  }

  lemma RightLimbBack(x: Limb, s: nat, rest: nat)
    requires s < 32
    ensures Pow2(s) * (Shrunk(x, s) + rest * Pow2(32 - s)) == x - x % Pow2(s) + 0x1_0000_0000 * rest
  {
    LimbBits(s);
    RightLimbTimes(x / Pow2(s), rest, Pow2(s), Pow2(32 - s));
    assert x == x / Pow2(s) * Pow2(s) + x % Pow2(s);
  }

  lemma RightLimbTimes(q: int, rest: int, p: int, d: int)
    requires p * d == 0x1_0000_0000
    ensures p * (q + rest * d) == q * p + 0x1_0000_0000 * rest
  {
    Distribute(q, rest * d, p);
    MulAssoc(p, rest, d);
    MulAssoc(rest, p, d);
  }

  lemma RightValue(r: seq<Limb>, a: seq<Limb>, k: nat, s: nat)
    requires s < 32 && |r| == |a|
    requires forall j: nat | j < |r| :: r[j] == RightLimb(a, k, s, j)
    ensures Value(r) == Value(a) / Pow2(32 * k + s)
  {
    ValueBound(a);
    PowerIsPow2(k);
    Pow2Add(32 * k, s);
    DivDiv(Value(a), Power(k), Pow2(s));
    if k >= |a| {
      ValueZeros(r);
      ScaleGrows(|a|, k);
      DivOf(0, Value(a), Power(k));
      DivOf(0, 0, Pow2(s));
    } else {
      DropLimbs(a, k);
      RightBits(r, a, k, s);
    }
  }

  lemma DropLimbs(a: seq<Limb>, k: nat)
    requires k <= |a|
    ensures Value(a) / Power(k) == Value(a[k..])
  {
    ValueSplit(a, k);
    ValueBound(a[..k]);
    ScaleIsProduct(Value(a[k..]), k);
    DivIs(Value(a), Value(a[k..]), Value(a[..k]), Power(k));
  }

  lemma RightBits(r: seq<Limb>, a: seq<Limb>, k: nat, s: nat)
    requires s < 32 && k < |r| == |a|
    requires forall j: nat | j < |r| :: r[j] == RightLimb(a, k, s, j)
    ensures Value(r) == Value(a[k..]) / Pow2(s)
  {
    hide Value, Pow2, Scale, Shrunk;
    var b := a[k..];
    forall j: nat | j < |b| ensures r[j] == Shrunk(b[j], s) + Rest(b, s, j + 1) * Pow2(32 - s) {
      RightLimbIs(a, k, s, j);
    }
    RightPrefix(r, b, s, |b|);
    ScaleZero(|b|);
    assert b[..|b|] == b;
    ValueSplit(r, |b|);
    ValueZeros(r[|b|..]);
    DivIs(Value(b), Value(r), Rest(b, s, 0), Pow2(s));
  }

  lemma {:induction false} ScaleGrows(m: nat, n: nat)
    requires m <= n
    ensures Power(m) <= Power(n)
  {
    if m < n {
      ScaleGrows(m, n - 1);
    }
  }
}
