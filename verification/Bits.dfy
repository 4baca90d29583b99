/** Powers of two and bitwise operators on unsigned integers of any width. */
module Bits {

  type Byte = x: nat | x < 256

  function Pow2(n: nat): (p: nat)
    ensures p > 0
  {
    if n == 0 then 1 else 2 * Pow2(n - 1)
  }

  function And(a: nat, b: nat): nat {
    if a == 0 || b == 0 then 0 else 2 * And(a / 2, b / 2) + (if a % 2 == 1 && b % 2 == 1 then 1 else 0)
  }

  function Or(a: nat, b: nat): nat {
    if a == 0 then b else if b == 0 then a
    else 2 * Or(a / 2, b / 2) + (if a % 2 == 1 || b % 2 == 1 then 1 else 0)
  }

  lemma {:induction false} AndAtMost(a: nat, b: nat)
    ensures And(a, b) <= a && And(a, b) <= b
  {
    if a != 0 && b != 0 {
      AndAtMost(a / 2, b / 2);
    }
  }

  lemma {:induction false} Pow2Add(m: nat, n: nat)
    ensures Pow2(m + n) == Pow2(m) * Pow2(n)
  {
    if m > 0 {
      Pow2Add(m - 1, n);
      assert m + n - 1 == m - 1 + n;
      MulAssoc(2, Pow2(m - 1), Pow2(n));
    }
  }

  lemma Pow2Values()
    ensures Pow2(5) == 32 && Pow2(8) == 256 && Pow2(16) == 0x1_0000 && Pow2(24) == 0x100_0000
    ensures Pow2(32) == 0x1_0000_0000
  {
    assert Pow2(5) == 32;
    assert Pow2(8) == 256;
    Pow2Add(8, 8);
    Pow2Add(8, 16);
    Pow2Add(16, 16);
  }

  lemma {:induction false} Pow2Monotone(m: nat, n: nat)
    requires m <= n
    ensures Pow2(m) <= Pow2(n)
  {
    if m < n {
      Pow2Monotone(m, n - 1);
    }
  }

  // A mask of n ones keeps the low n bits.
  lemma {:induction false} AndMask(a: nat, n: nat)
    ensures And(a, Pow2(n) - 1) == a % Pow2(n)
  {
    if n > 0 && a > 0 {
      var m := Pow2(n - 1);
      AndMask(a / 2, n - 1);
      assert (2 * m - 1) / 2 == m - 1 && (2 * m - 1) % 2 == 1;
      HalveMod(a, m);
    } else {
      ModOf(0, 0, Pow2(n));
    }
  }

  // The bit of weight 2^n.
  lemma {:induction false} AndBit(a: nat, n: nat)
    ensures And(a, Pow2(n)) == if a / Pow2(n) % 2 == 1 then Pow2(n) else 0
  {
    if a == 0 {
      ModOf(0, 0, Pow2(n));
    } else if n == 0 {
      assert And(a / 2, 0) == 0;
    } else {
      AndBit(a / 2, n - 1);
      HalveDiv(a, Pow2(n - 1));
    }
  }

  // Bits that do not overlap add up.
  lemma {:induction false} OrDisjoint(a: nat, b: nat, n: nat)
    requires a < Pow2(n)
    ensures Or(a, b * Pow2(n)) == a + b * Pow2(n)
    ensures Or(b * Pow2(n), a) == a + b * Pow2(n)
  {
    if n > 0 {
      var c := b * Pow2(n - 1);
      MulAssoc(2, b, Pow2(n - 1));
      assert b * Pow2(n) == 2 * c;
      OrDisjoint(a / 2, b, n - 1);
    }
  }

  // Setting a bit that is clear.
  lemma {:induction false} OrBit(a: nat, n: nat)
    requires a / Pow2(n) % 2 == 0
    ensures Or(a, Pow2(n)) == a + Pow2(n)
  {
    if a > 0 {
      if n > 0 {
        HalveDiv(a, Pow2(n - 1));
        OrBit(a / 2, n - 1);
      } else {
        assert Or(a / 2, 0) == a / 2;
      }
    }
  }

  lemma {:induction false} OrBound(a: nat, b: nat, n: nat)
    requires a < Pow2(n) && b < Pow2(n)
    ensures Or(a, b) < Pow2(n)
  {
    if a != 0 && b != 0 && n > 0 {
      OrBound(a / 2, b / 2, n - 1);
    }
  }

  // ----- Arithmetic -----

  lemma MulAssoc(a: int, b: int, c: int)
    ensures a * (b * c) == a * b * c == b * (a * c)
  {
  }

  lemma Distribute(a: int, b: int, c: int)
    ensures (a + b) * c == a * c + b * c
    ensures c * (a + b) == c * a + c * b
    ensures (a - b) * c == a * c - b * c
  {
  }

  lemma MulMonotone(a: int, b: int, c: nat)
    requires a <= b
    ensures a * c <= b * c
  {
  }

  lemma MulStrict(a: int, b: int, c: nat)
    requires a < b && c > 0
    ensures a * c < b * c
  {
  }

  // Quotient and remainder are the only pair that fits.
  lemma DivOf(q: int, r: int, m: int)
    requires 0 <= r < m
    ensures (q * m + r) / m == q && (q * m + r) % m == r
  {
    var n := q * m + r;
    var d := n / m - q;
    assert n == n / m * m + n % m;
    assert d * m == r - n % m by {
      Distribute(n / m, q, m);
    }
    if d >= 1 {
      MulMonotone(1, d, m);
    } else if d <= -1 {
      MulMonotone(d, -1, m);
    }
  }

  lemma DivIs(n: int, q: int, r: int, m: int)
    requires 0 <= r < m && n == q * m + r
    ensures n / m == q && n % m == r
  {
    DivOf(q, r, m);
  }

  lemma ModOf(q: int, r: int, m: int)
    requires 0 <= r < m
    ensures (q * m + r) % m == r
  {
    DivOf(q, r, m);
  }

  lemma DivMonotone(a: int, b: int, m: int)
    requires m > 0 && a <= b
    ensures a / m <= b / m
  {
    var p, q := a / m, b / m;
    assert p * m <= a && b < q * m + m;
    if p > q {
      MulMonotone(q + 1, p, m);
      Distribute(q, 1, m);
    }
  }

  // The quotient of unsigned numbers.
  function Over(n: nat, d: nat): (q: nat)
    requires d > 0
    ensures q == n / d
  {
    DivMonotone(0, n, d);
    DivOf(0, 0, d);
    n / d
  }

  lemma HalveDiv(a: nat, m: nat)
    requires m > 0
    ensures a / 2 / m == a / (2 * m)
  {
    var h := a / 2;
    var q, r := h / m, h % m;
    assert h == q * m + r;
    MulAssoc(2, q, m);
    DivOf(q, 2 * r + a % 2, 2 * m);
    assert a == q * (2 * m) + (2 * r + a % 2);
  }

  lemma HalveMod(a: nat, m: nat)
    requires m > 0
    ensures a % (2 * m) == 2 * (a / 2 % m) + a % 2
  {
    var h := a / 2;
    var q, r := h / m, h % m;
    assert h == q * m + r;
    MulAssoc(2, q, m);
    DivOf(q, 2 * r + a % 2, 2 * m);
    assert a == q * (2 * m) + (2 * r + a % 2);
  }

  lemma DivDiv(a: nat, m: nat, n: nat)
    requires m > 0 && n > 0
    ensures m * n > 0 && a / m / n == a / (m * n)
  {
    var h, r := a / m, a % m;
    var q, s := h / n, h % n;
    MulStrict(0, m, n);
    TwoDigits(q, n, s, m, r);
    DivIs(a, q, s * m + r, m * n);
  }

  // A number of two mixed digits below its leading part.
  lemma TwoDigits(q: int, n: int, s: int, m: int, r: int)
    requires 0 <= s < n && 0 <= r < m
    ensures (q * n + s) * m + r == q * (m * n) + (s * m + r)
    ensures 0 <= s * m + r < m * n
  {
    Distribute(q * n, s, m);
    MulAssoc(q, n, m);
    MulMonotone(0, s, m);
    MulMonotone(s, n - 1, m);
    Distribute(n, 1, m);
  }
}
