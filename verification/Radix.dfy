/** Numbers in a base of at least two, with digits from the most significant on. */
module Radix {
  import opened Bits

  function Pow(b: nat, n: nat): nat {
    if n == 0 then 1 else b * Pow(b, n - 1)
  }

  function Value(b: nat, s: seq<nat>): nat {
    if s == [] then 0 else Value(b, s[..|s| - 1]) * b + s[|s| - 1]
  }

  predicate InBase(b: nat, s: seq<nat>) {
    forall i | 0 <= i < |s| :: s[i] < b
  }

  lemma QuotientLess(n: nat, b: nat)
    requires b > 1
    ensures n == n / b * b + n % b && 0 <= n % b < b && 0 <= n / b <= n && (n > 0 ==> n / b < n)
  {
    DivMonotone(0, n, b);
    DivOf(0, 0, b);
    var q := n / b;
    assert n == q * b + n % b;
    MulMonotone(2, b, q);
  }

  // The digits of a number without leading zeros.
  function Digits(b: nat, n: nat): (s: seq<nat>)
    requires b > 1
  {
    if n == 0 then [] else
    QuotientLess(n, b);
    Digits(b, n / b) + [n % b]
  }

  lemma {:induction false} DigitsMean(b: nat, n: nat)
    requires b > 1
    ensures Value(b, Digits(b, n)) == n && InBase(b, Digits(b, n))
    ensures n > 0 ==> Digits(b, n) != [] && Digits(b, n)[0] > 0
  {
    if n > 0 {
      QuotientLess(n, b);
      DigitsMean(b, n / b);
      var s := Digits(b, n);
      assert s[..|s| - 1] == Digits(b, n / b);
      if n / b > 0 {
        assert s[0] == Digits(b, n / b)[0];
      } else {
        assert s == [n];
      }
    }
  }

  // A numeral without leading zeros is the digits of its value.
  lemma {:induction false} DigitsUnique(b: nat, s: seq<nat>)
    requires b > 1 && InBase(b, s) && (s != [] ==> s[0] > 0)
    ensures Digits(b, Value(b, s)) == s && (s != [] ==> Value(b, s) > 0)
    decreases |s|
  {
    if s != [] {
      var n := |s| - 1;
      var rest := s[..n];
      DigitsUnique(b, rest);
      DivOf(Value(b, rest), s[n], b);
      MulMonotone(0, Value(b, rest), b);
      if rest != [] {
        MulMonotone(1, Value(b, rest), b);
      }
      assert s == rest + [s[n]];
    }
  }

  // ----- Powers -----

  lemma {:induction false} PowAdd(b: nat, m: nat, n: nat)
    ensures Pow(b, m + n) == Pow(b, m) * Pow(b, n)
  {
    if m > 0 {
      PowAdd(b, m - 1, n);
      assert m + n - 1 == m - 1 + n;
      MulAssoc(b, Pow(b, m - 1), Pow(b, n));
    }
  }

  lemma {:induction false} PowTimes(b: nat, m: nat, n: nat)
    ensures Pow(Pow(b, m), n) == Pow(b, m * n)
  {
    if n > 0 {
      PowTimes(b, m, n - 1);
      PowAdd(b, m, m * (n - 1));
      Distribute(n - 1, 1, m);
      assert m + m * (n - 1) == m * n;
    }
  }

  lemma {:induction false} PowPositive(b: nat, n: nat)
    requires b > 0
    ensures Pow(b, n) > 0
  {
    if n > 0 {
      PowPositive(b, n - 1);
      MulStrict(0, b, Pow(b, n - 1));
    }
  }

  lemma {:induction false} PowBase(a: nat, b: nat, n: nat)
    requires a <= b
    ensures Pow(a, n) <= Pow(b, n)
    ensures a < b && n > 0 ==> Pow(a, n) < Pow(b, n)
  {
    if n > 0 {
      PowBase(a, b, n - 1);
      MulMonotone(a, b, Pow(b, n - 1));
      MulMonotone(Pow(a, n - 1), Pow(b, n - 1), a);
      if a < b {
        PowPositive(b, n - 1);
        MulStrict(a, b, Pow(b, n - 1));
      }
    }
  }

  lemma {:induction false} PowMonotone(b: nat, m: nat, n: nat)
    requires m <= n && b > 0
    ensures Pow(b, m) <= Pow(b, n)
  {
    if m < n {
      PowMonotone(b, m, n - 1);
      MulMonotone(1, b, Pow(b, n - 1));
    }
  }

  lemma {:induction false} ValueBound(b: nat, s: seq<nat>)
    requires InBase(b, s)
    ensures Value(b, s) < Pow(b, |s|)
    decreases |s|
  {
    if s != [] {
      var rest := s[..|s| - 1];
      ValueBound(b, rest);
      MulMonotone(Value(b, rest), Pow(b, |rest|) - 1, b);
      Distribute(Pow(b, |rest|), 1, b);
    }
  }

  // A number read from its most significant digit on.
  lemma {:induction false} ValueFront(b: nat, d: nat, s: seq<nat>)
    ensures Value(b, [d] + s) == d * Pow(b, |s|) + Value(b, s)
    decreases |s|
  {
    var t := [d] + s;
    if s == [] {
      assert t[..0] == [];
    } else {
      var rest := s[..|s| - 1];
      ValueFront(b, d, rest);
      assert t[..|t| - 1] == [d] + rest;
      Distribute(d * Pow(b, |rest|), Value(b, rest), b);
      MulAssoc(d, Pow(b, |rest|), b);
      assert Pow(b, |s|) == b * Pow(b, |rest|);
    }
  }

  // Leading zeros add nothing.
  lemma {:induction false} ValuePastZeros(b: nat, s: seq<nat>, k: nat)
    requires k <= |s| && forall i | 0 <= i < k :: s[i] == 0
    ensures Value(b, s) == Value(b, s[k..])
    decreases k
  {
    if k > 0 {
      ValuePastZeros(b, s[1..], k - 1);
      ValueFront(b, 0, s[1..]);
      assert s == [0] + s[1..];
      assert s[1..][k - 1..] == s[k..];
    } else {
      assert s[0..] == s;
    }
  }

  lemma {:induction false} ValueGrows(b: nat, s: seq<nat>, k: nat)
    requires b > 0 && k <= |s|
    ensures Value(b, s[..k]) <= Value(b, s)
    decreases |s|
  {
    if k < |s| {
      var rest := s[..|s| - 1];
      ValueGrows(b, rest, k);
      assert rest[..k] == s[..k];
      MulMonotone(1, b, Value(b, rest));
    } else {
      assert s[..k] == s;
    }
  }

  lemma {:induction false} DigitsGrow(b: nat, m: nat, n: nat)
    requires b > 1 && m <= n
    ensures |Digits(b, m)| <= |Digits(b, n)|
  {
    if m > 0 {
      QuotientLess(m, b);
      QuotientLess(n, b);
      DivMonotone(m, n, b);
      DigitsGrow(b, m / b, n / b);
    }
  }

  lemma PowRoot(x: nat, y: nat, p: nat)
    requires p > 0 && Pow(x, p) <= Pow(y, p)
    ensures x <= y
  {
    hide Pow;
    if y < x {
      PowBase(y, x, p);
    }
  }

  lemma PowSwap(b: nat, m: nat, n: nat, e: nat)
    requires e == m * n
    ensures Pow(Pow(b, m), n) == Pow(Pow(b, n), m) == Pow(b, e)
  {
    hide Pow;
    PowTimes(b, m, n);
    PowTimes(b, n, m);
    assert m * n == n * m;
  }

  // If a^p <= c^q then n digits to base a fit in k digits to base c, when k/n is at least q/p.
  lemma Capacity(a: nat, c: nat, p: nat, q: nat, n: nat, k: nat)
    requires p > 0 && c > 0 && Pow(a, p) <= Pow(c, q) && q * n <= p * k
    ensures Pow(a, n) <= Pow(c, k)
  {
    hide Pow;
    CapacityStep(a, c, p, q, n, k, p * n, q * n, p * k);
  }

  lemma CapacityStep(a: nat, c: nat, p: nat, q: nat, n: nat, k: nat, e: nat, f: nat, g: nat)
    requires p > 0 && c > 0 && Pow(a, p) <= Pow(c, q)
    requires e == p * n && f == q * n && g == p * k && f <= g
    ensures Pow(a, n) <= Pow(c, k)
  {
    hide Pow;
    assert Pow(Pow(a, n), p) <= Pow(c, f) by {
      PowSwap(a, p, n, e);
      PowSwap(c, q, n, f);
      PowBase(Pow(a, p), Pow(c, q), n);
    }
    assert Pow(Pow(c, k), p) == Pow(c, g) by {
      PowSwap(c, p, k, g);
    }
    PowMonotone(c, f, g);
    PowRoot(Pow(a, n), Pow(c, k), p);
  }

  // Eight bytes fit in eleven characters of base 58.
  lemma BytesFit(n: nat)
    ensures Pow(256, n) <= Pow(58, n * 138 / 100 + 1)
  {
    EightBytes();
    Capacity(256, 58, 8, 11, n, n * 138 / 100 + 1);
  }

  lemma EightBytes()
    ensures Pow(256, 8) <= Pow(58, 11)
  {
  }

  // Seventy-one characters of base 58 fit in fifty-two bytes.
  lemma CharactersFit(n: nat)
    ensures Pow(58, n) <= Pow(256, n * 733 / 1000 + 1)
  {
    SeventyOneCharacters();
    Capacity(58, 256, 71, 52, n, n * 733 / 1000 + 1);
  }

  lemma SmallPowers()
    ensures Pow(58, 8) == 128063081718016 && Pow(58, 9) == 7427658739644928
    ensures Pow(256, 6) == 281474976710656 && Pow(256, 7) == 72057594037927936
  {
  }

  lemma SeventyOneCharacters()
    ensures Pow(58, 71) <= Pow(256, 52)
  {
    hide Pow;
    SmallPowers();
    PowAdd(58, 8, 9);
    PowAdd(58, 9, 9);
    PowAdd(58, 17, 18);
    PowAdd(58, 18, 18);
    PowAdd(58, 35, 36);
    PowAdd(256, 6, 7);
    PowAdd(256, 13, 13);
    PowAdd(256, 26, 26);
  }
}
