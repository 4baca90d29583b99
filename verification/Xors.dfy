/** Exclusive or of unsigned integers of any width. */
module Xors {
  import opened Bits

  function Xor(a: nat, b: nat): nat {
    if a == 0 then b else if b == 0 then a else 2 * Xor(a / 2, b / 2) + (a % 2 + b % 2) % 2
  }

  lemma XorStep(a: nat, b: nat)
    ensures Xor(a, b) == 2 * Xor(a / 2, b / 2) + (a % 2 + b % 2) % 2
    ensures Xor(a, b) / 2 == Xor(a / 2, b / 2) && Xor(a, b) % 2 == (a % 2 + b % 2) % 2
  {
  }

  lemma {:induction false} XorSelf(a: nat)
    ensures Xor(a, a) == 0 && Xor(a, 0) == a && Xor(0, a) == a
  {
    if a > 0 {
      XorSelf(a / 2);
    }
  }

  lemma {:induction false} XorZero(a: nat, b: nat)
    requires Xor(a, b) == 0
    ensures a == b
    decreases a + b
  {
    if a > 0 && b > 0 {
      XorZero(a / 2, b / 2);
    }
  }

  predicate Odd(a: nat) {
    a % 2 == 1
  }

  lemma SameBits(x: nat, y: nat)
    requires x / 2 == y / 2 && (Odd(x) <==> Odd(y))
    ensures x == y
  {
  }

  lemma XorBits(a: nat, b: nat)
    ensures Xor(a, b) / 2 == Xor(a / 2, b / 2) && (Odd(Xor(a, b)) <==> Odd(a) != Odd(b))
  {
    hide Xor;
    XorStep(a, b);
  }

  // Two levels, one bit at a time.
  lemma XorPair(a: nat, b: nat, c: nat, d: nat)
    ensures var x := Xor(Xor(a, b), Xor(c, d));
            && x / 2 == Xor(Xor(a / 2, b / 2), Xor(c / 2, d / 2))
            && (Odd(x) <==> (Odd(a) != Odd(b)) != (Odd(c) != Odd(d)))
  {
    hide Xor, Odd;
    XorBits(a, b);
    XorBits(c, d);
    XorBits(Xor(a, b), Xor(c, d));
  }

  // Associativity and commutativity in one: four terms may be regrouped.
  lemma {:induction false} Xor4(a: nat, b: nat, c: nat, d: nat)
    ensures Xor(Xor(a, b), Xor(c, d)) == Xor(Xor(a, c), Xor(b, d))
    decreases a + b + c + d
  {
    hide Xor, Odd;
    XorPair(a, b, c, d);
    XorPair(a, c, b, d);
    if a + b + c + d > 0 {
      Xor4(a / 2, b / 2, c / 2, d / 2);
      SameBits(Xor(Xor(a, b), Xor(c, d)), Xor(Xor(a, c), Xor(b, d)));
    }
  }

  // ----- Shifts -----

  function Up(a: nat, k: nat): nat {
    if k == 0 then a else 2 * Up(a, k - 1)
  }

  function Down(a: nat, k: nat): nat {
    if k == 0 then a else Down(a / 2, k - 1)
  }

  function Low(a: nat, k: nat): nat {
    if k == 0 then 0 else a % 2 + 2 * Low(a / 2, k - 1)
  }

  lemma {:induction false} UpIs(a: nat, k: nat)
    ensures Up(a, k) == a * Pow2(k)
  {
    if k > 0 {
      UpIs(a, k - 1);
      MulAssoc(2, a, Pow2(k - 1));
    }
  }

  lemma {:induction false} DownIs(a: nat, k: nat)
    ensures Down(a, k) == a / Pow2(k) && Low(a, k) == a % Pow2(k)
  {
    if k > 0 {
      DownIs(a / 2, k - 1);
      HalveDiv(a, Pow2(k - 1));
      HalveMod(a, Pow2(k - 1));
    }
  }

  lemma {:induction false} XorUp(a: nat, b: nat, k: nat)
    ensures Xor(Up(a, k), Up(b, k)) == Up(Xor(a, b), k)
  {
    hide Xor;
    if k > 0 {
      XorUp(a, b, k - 1);
      XorStep(Up(a, k), Up(b, k));
    }
  }

  lemma LowBits(a: nat, k: nat)
    requires k > 0
    ensures Low(a, k) / 2 == Low(a / 2, k - 1) && (Odd(Low(a, k)) <==> Odd(a))
  {
  }

  lemma {:induction false} XorDown(a: nat, b: nat, k: nat)
    ensures Down(Xor(a, b), k) == Xor(Down(a, k), Down(b, k))
  {
    hide Xor;
    if k > 0 {
      XorStep(a, b);
      XorDown(a / 2, b / 2, k - 1);
    }
  }

  lemma {:induction false} XorLow(a: nat, b: nat, k: nat)
    ensures Low(Xor(a, b), k) == Xor(Low(a, k), Low(b, k))
  {
    hide Xor, Odd;
    XorSelf(0);
    if k > 0 {
      XorLow(a / 2, b / 2, k - 1);
      XorBits(a, b);
      LowBits(a, k);
      LowBits(b, k);
      LowBits(Xor(a, b), k);
      XorBits(Low(a, k), Low(b, k));
      SameBits(Low(Xor(a, b), k), Xor(Low(a, k), Low(b, k)));
    }
  }

  // Bits that do not overlap add up.
  lemma {:induction false} XorJoin(a: nat, v: nat, k: nat)
    requires v < Pow2(k)
    ensures Xor(Up(a, k), v) == Up(a, k) + v
  {
    hide Xor;
    XorStep(Up(a, k), v);
    if k > 0 {
      XorJoin(a, v / 2, k - 1);
    } else {
      XorSelf(a);
    }
  }

  lemma {:induction false} XorBound(a: nat, b: nat, k: nat)
    requires a < Pow2(k) && b < Pow2(k)
    ensures Xor(a, b) < Pow2(k)
  {
    hide Xor;
    XorSelf(0);
    if k > 0 {
      XorStep(a, b);
      XorBound(a / 2, b / 2, k - 1);
    }
  }
}
