/**
The checksum of Bech32 and Bech32m (the checksum sections of BIP 173 and BIP 350): the
remainder of a polynomial over GF(32), with six 5-bit coefficients packed in 30 bits.
*/
module PolyMod {
  import opened Bits
  import opened Xors

  type Symbol = v: nat | v < 32

  function Tap(on: bool, k: nat): nat {
    if on then k else 0
  }

  // Multiples of the generator's remainder for the bits of the coefficient shifted out.
  function Feedback(c0: nat): nat {
    Xor(Xor(Xor(Tap(Odd(c0), 0x3b6a57b2), Tap(Odd(Down(c0, 1)), 0x26508e6d)),
            Xor(Tap(Odd(Down(c0, 2)), 0x1ea119fa), Tap(Odd(Down(c0, 3)), 0x3d4233dd))),
        Tap(Odd(Down(c0, 4)), 0x2a1462b3))
  }

  // Multiplies by x, adds a symbol and reduces.
  function Step(c: nat, v: Symbol): nat {
    Xor(Xor(Up(Low(c, 25), 5), v), Feedback(Down(c, 25)))
  }

  function Fold(c: nat, s: seq<Symbol>): nat {
    if s == [] then c else Step(Fold(c, s[..|s| - 1]), s[|s| - 1])
  }

  // ----- Linearity -----

  lemma TapLinear(p: bool, q: bool, k: nat)
    ensures Tap(p != q, k) == Xor(Tap(p, k), Tap(q, k))
  {
    hide Xor;
    XorSelf(k);
    XorSelf(0);
  }

  // A bit of an exclusive or.
  lemma BitLinear(c: nat, d: nat, i: nat)
    ensures Odd(Down(Xor(c, d), i)) <==> Odd(Down(c, i)) != Odd(Down(d, i))
  {
    hide Xor, Odd, Down;
    XorDown(c, d, i);
    XorBits(Down(c, i), Down(d, i));
  }

  lemma FiveTaps(a: nat, b: nat, c: nat, d: nat, e: nat, a': nat, b': nat, c': nat, d': nat, e': nat)
    ensures Xor(Xor(Xor(Xor(a, a'), Xor(b, b')), Xor(Xor(c, c'), Xor(d, d'))), Xor(e, e')) ==
            Xor(Xor(Xor(Xor(a, b), Xor(c, d)), e), Xor(Xor(Xor(a', b'), Xor(c', d')), e'))
  {
    hide Xor;
    Xor4(a, a', b, b');
    Xor4(c, c', d, d');
    Xor4(Xor(a, b), Xor(a', b'), Xor(c, d), Xor(c', d'));
    Xor4(Xor(Xor(a, b), Xor(c, d)), Xor(Xor(a', b'), Xor(c', d')), e, e');
  }

  lemma FeedbackLinear(c: nat, d: nat)
    ensures Feedback(Xor(c, d)) == Xor(Feedback(c), Feedback(d))
  {
    hide Xor, Odd, Down, Tap;
    XorBits(c, d);
    BitLinear(c, d, 1);
    BitLinear(c, d, 2);
    BitLinear(c, d, 3);
    BitLinear(c, d, 4);
    TapLinear(Odd(c), Odd(d), 0x3b6a57b2);
    TapLinear(Odd(Down(c, 1)), Odd(Down(d, 1)), 0x26508e6d);
    TapLinear(Odd(Down(c, 2)), Odd(Down(d, 2)), 0x1ea119fa);
    TapLinear(Odd(Down(c, 3)), Odd(Down(d, 3)), 0x3d4233dd);
    TapLinear(Odd(Down(c, 4)), Odd(Down(d, 4)), 0x2a1462b3);
    FiveTaps(Tap(Odd(c), 0x3b6a57b2), Tap(Odd(Down(c, 1)), 0x26508e6d), Tap(Odd(Down(c, 2)), 0x1ea119fa),
             Tap(Odd(Down(c, 3)), 0x3d4233dd), Tap(Odd(Down(c, 4)), 0x2a1462b3),
             Tap(Odd(d), 0x3b6a57b2), Tap(Odd(Down(d, 1)), 0x26508e6d), Tap(Odd(Down(d, 2)), 0x1ea119fa),
             Tap(Odd(Down(d, 3)), 0x3d4233dd), Tap(Odd(Down(d, 4)), 0x2a1462b3));
  }

  function SymbolXor(u: Symbol, v: Symbol): (w: Symbol)
    ensures w == Xor(u, v)
  {
    Pow2Values();
    XorBound(u, v, 5);
    Xor(u, v)
  }

  lemma StepLinear(c: nat, d: nat, u: Symbol, v: Symbol)
    ensures Step(Xor(c, d), SymbolXor(u, v)) == Xor(Step(c, u), Step(d, v))
  {
    hide Xor, Feedback, Low, Down, Up;
    XorLow(c, d, 25);
    XorDown(c, d, 25);
    XorUp(Low(c, 25), Low(d, 25), 5);
    FeedbackLinear(Down(c, 25), Down(d, 25));
    Xor4(Up(Low(c, 25), 5), Up(Low(d, 25), 5), u, v);
    Xor4(Xor(Up(Low(c, 25), 5), u), Xor(Up(Low(d, 25), 5), v), Feedback(Down(c, 25)), Feedback(Down(d, 25)));
  }

  function XorAll(s: seq<Symbol>, t: seq<Symbol>): seq<Symbol>
    requires |s| == |t|
  {
    seq(|s|, i requires 0 <= i < |s| => SymbolXor(s[i], t[i]))
  }

  // The remainder of a sum is the sum of the remainders.
  lemma {:induction false} FoldLinear(c: nat, d: nat, s: seq<Symbol>, t: seq<Symbol>)
    requires |s| == |t|
    ensures Fold(Xor(c, d), XorAll(s, t)) == Xor(Fold(c, s), Fold(d, t))
  {
    hide Step, Xor;
    if s != [] {
      var n := |s| - 1;
      FoldLinear(c, d, s[..n], t[..n]);
      assert XorAll(s, t)[..n] == XorAll(s[..n], t[..n]);
      StepLinear(Fold(c, s[..n]), Fold(d, t[..n]), s[n], t[n]);
    }
  }

  lemma {:induction false} FoldConcat(c: nat, s: seq<Symbol>, t: seq<Symbol>)
    ensures Fold(c, s + t) == Fold(Fold(c, s), t)
  {
    hide Step;
    if t == [] {
      assert s + t == s;
    } else {
      var n := |t| - 1;
      FoldConcat(c, s, t[..n]);
      assert (s + t)[..|s| + n] == s + t[..n];
    }
  }

  // ----- Nothing is lost -----

  lemma Literals()
    ensures !Odd(Down(18, 0)) && Odd(Down(18, 1)) && !Odd(Down(18, 2)) && !Odd(Down(18, 3)) && Odd(Down(18, 4))
    ensures Odd(Down(13, 0)) && !Odd(Down(13, 1)) && Odd(Down(13, 2)) && Odd(Down(13, 3)) && !Odd(Down(13, 4))
    ensures !Odd(Down(26, 0)) && Odd(Down(26, 1)) && !Odd(Down(26, 2)) && Odd(Down(26, 3)) && Odd(Down(26, 4))
    ensures Odd(Down(29, 0)) && !Odd(Down(29, 1)) && Odd(Down(29, 2)) && Odd(Down(29, 3)) && Odd(Down(29, 4))
    ensures Odd(Down(19, 0)) && Odd(Down(19, 1)) && !Odd(Down(19, 2)) && !Odd(Down(19, 3)) && Odd(Down(19, 4))
    ensures forall i: nat | i < 5 :: !Odd(Down(0, i))
  {
  }

  lemma FiveBit(a: nat, b: nat, c: nat, d: nat, e: nat, i: nat)
    ensures Odd(Down(Xor(Xor(Xor(a, b), Xor(c, d)), e), i)) <==>
            ((Odd(Down(a, i)) != Odd(Down(b, i))) != (Odd(Down(c, i)) != Odd(Down(d, i)))) != Odd(Down(e, i))
  {
    hide Xor, Odd, Down;
    BitLinear(a, b, i);
    BitLinear(c, d, i);
    BitLinear(Xor(a, b), Xor(c, d), i);
    BitLinear(Xor(Xor(a, b), Xor(c, d)), e, i);
  }

  // The constant terms of the multiples are independent.
  lemma TapsIndependent(b0: bool, b1: bool, b2: bool, b3: bool, b4: bool)
    requires Xor(Xor(Xor(Tap(b0, 18), Tap(b1, 13)), Xor(Tap(b2, 26), Tap(b3, 29))), Tap(b4, 19)) == 0
    ensures !b0 && !b1 && !b2 && !b3 && !b4
  {
    hide Xor, Odd, Down;
    Literals();
    var a, b, c, d, e := Tap(b0, 18), Tap(b1, 13), Tap(b2, 26), Tap(b3, 29), Tap(b4, 19);
    FiveBit(a, b, c, d, e, 0);
    FiveBit(a, b, c, d, e, 1);
    FiveBit(a, b, c, d, e, 2);
    FiveBit(a, b, c, d, e, 3);
    FiveBit(a, b, c, d, e, 4);
    assert !Odd(Down(0, 0)) && !Odd(Down(0, 1)) && !Odd(Down(0, 2)) && !Odd(Down(0, 3)) && !Odd(Down(0, 4));
  }

  lemma TapLow(on: bool, k: nat, low: nat)
    requires Low(k, 5) == low
    ensures Low(Tap(on, k), 5) == Tap(on, low)
  {
    LowZero(5);
  }

  lemma {:induction false} LowZero(k: nat)
    ensures Low(0, k) == 0
  {
    if k > 0 {
      LowZero(k - 1);
    }
  }

  lemma LowOfFive(a: nat, b: nat, c: nat, d: nat, e: nat)
    ensures Low(Xor(Xor(Xor(a, b), Xor(c, d)), e), 5) ==
            Xor(Xor(Xor(Low(a, 5), Low(b, 5)), Xor(Low(c, 5), Low(d, 5))), Low(e, 5))
  {
    hide Xor, Low;
    XorLow(a, b, 5);
    XorLow(c, d, 5);
    XorLow(Xor(a, b), Xor(c, d), 5);
    XorLow(Xor(Xor(a, b), Xor(c, d)), e, 5);
  }

  lemma ConstantTerms()
    ensures Low(0x3b6a57b2, 5) == 18 && Low(0x26508e6d, 5) == 13 && Low(0x1ea119fa, 5) == 26
    ensures Low(0x3d4233dd, 5) == 29 && Low(0x2a1462b3, 5) == 19
  {
    Pow2Values();
    DownIs(0x3b6a57b2, 5);
    DownIs(0x26508e6d, 5);
    DownIs(0x1ea119fa, 5);
    DownIs(0x3d4233dd, 5);
    DownIs(0x2a1462b3, 5);
  }

  // No nonzero coefficient shifted out leaves the constant term as it was.
  lemma FeedbackFelt(c0: nat)
    requires c0 < 32 && Low(Feedback(c0), 5) == 0
    ensures c0 == 0
  {
    hide Xor, Low;
    var b0, b1, b2, b3, b4 := Odd(c0), Odd(Down(c0, 1)), Odd(Down(c0, 2)), Odd(Down(c0, 3)), Odd(Down(c0, 4));
    ConstantTerms();
    TapLow(b0, 0x3b6a57b2, 18);
    TapLow(b1, 0x26508e6d, 13);
    TapLow(b2, 0x1ea119fa, 26);
    TapLow(b3, 0x3d4233dd, 29);
    TapLow(b4, 0x2a1462b3, 19);
    LowOfFive(Tap(b0, 0x3b6a57b2), Tap(b1, 0x26508e6d), Tap(b2, 0x1ea119fa), Tap(b3, 0x3d4233dd), Tap(b4, 0x2a1462b3));
    TapsIndependent(b0, b1, b2, b3, b4);
    Pow2Values();
    assert c0 == Down(c0, 0);
    NoBits(c0, 5);
  }

  lemma {:induction false} NoBits(c: nat, k: nat)
    requires c < Pow2(k) && forall i: nat | i < k :: !Odd(Down(c, i))
    ensures c == 0
  {
    if k > 0 {
      forall i: nat | i < k - 1 ensures !Odd(Down(c / 2, i)) {
        assert !Odd(Down(c, i + 1));
      }
      NoBits(c / 2, k - 1);
      assert !Odd(Down(c, 0));
    }
  }

  lemma {:induction false} UpDown(c: nat, k: nat)
    ensures c == Up(Down(c, k), k) + Low(c, k) && Low(c, k) < Pow2(k)
  {
    if k > 0 {
      UpDown(c / 2, k - 1);
    }
  }

  lemma {:induction false} LowUp(a: nat, k: nat)
    ensures Low(Up(a, k), k) == 0 && Down(Up(a, k), k) == a
  {
    if k > 0 {
      var u := Up(a, k - 1);
      DivIs(2 * u, u, 0, 2);
      LowUp(a, k - 1);
      assert Up(a, k) == 2 * u;
      hide Up;
      assert Low(2 * u, k) == 2 * Low(u, k - 1) && Down(2 * u, k) == Down(u, k - 1);
    }
  }

  lemma {:induction false} DownSmall(c: nat, j: nat, k: nat)
    requires c < Pow2(j + k)
    ensures Down(c, j) < Pow2(k)
  {
    if j > 0 {
      DownSmall(c / 2, j - 1, k);
    }
  }

  // The step loses nothing: only zero is multiplied to zero.
  lemma StepInjective(c: nat)
    requires c < Pow2(30) && Step(c, 0) == 0
    ensures c == 0
  {
    hide Xor, Feedback, Low, Down, Up, Pow2;
    var high, low := Down(c, 25), Low(c, 25);
    XorSelf(Up(low, 5));
    XorZero(Up(low, 5), Feedback(high));
    LowUp(low, 5);
    DownSmall(c, 25, 5);
    Pow2Values();
    FeedbackFelt(high);
    FeedbackOfZero();
    UpZero(5);
    UpZero(25);
    LowUp(low, 5);
    UpDown(c, 25);
    DownZero(5);
  }

  lemma FeedbackOfZero()
    ensures Feedback(0) == 0
  {
    Literals();
    hide Odd, Down, Xor;
    XorSelf(0);
    assert !Odd(0) by {
      ZeroIsEven();
    }
  }

  lemma ZeroIsEven()
    ensures !Odd(0)
  {
  }

  lemma {:induction false} UpZero(k: nat)
    ensures Up(0, k) == 0
  {
    if k > 0 {
      UpZero(k - 1);
    }
  }

  lemma {:induction false} DownZero(k: nat)
    ensures Down(0, k) == 0
  {
    if k > 0 {
      DownZero(k - 1);
    }
  }

  lemma StepOfZero()
    ensures Step(0, 0) == 0
  {
    hide Xor, Feedback, Low, Down, Up;
    LowZero(25);
    DownZero(25);
    UpZero(5);
    XorSelf(0);
    FeedbackOfZero();
  }

  // ----- The loop, on words -----

  lemma {:induction false} UpBound(a: nat, j: nat, k: nat)
    requires a < Pow2(j)
    ensures Up(a, k) < Pow2(j + k)
  {
    if k > 0 {
      UpBound(a, j, k - 1);
    }
  }

  lemma TapBound(on: bool, k: nat)
    requires k < 0x4000_0000
    ensures Tap(on, k) < Pow2(30)
  {
    Pow30();
  }

  lemma Pow30()
    ensures Pow2(30) == 0x4000_0000 && Pow2(25) == 0x200_0000
  {
    Pow2Values();
    Pow2Add(5, 24);
    Pow2Add(5, 25);
    Pow2Add(1, 24);
  }

  lemma FeedbackBound(c0: nat)
    ensures Feedback(c0) < Pow2(30)
  {
    hide Xor, Odd, Down, Pow2, Tap;
    var a, b := Tap(Odd(c0), 0x3b6a57b2), Tap(Odd(Down(c0, 1)), 0x26508e6d);
    var c, d := Tap(Odd(Down(c0, 2)), 0x1ea119fa), Tap(Odd(Down(c0, 3)), 0x3d4233dd);
    var e := Tap(Odd(Down(c0, 4)), 0x2a1462b3);
    TapBound(Odd(c0), 0x3b6a57b2);
    TapBound(Odd(Down(c0, 1)), 0x26508e6d);
    TapBound(Odd(Down(c0, 2)), 0x1ea119fa);
    TapBound(Odd(Down(c0, 3)), 0x3d4233dd);
    TapBound(Odd(Down(c0, 4)), 0x2a1462b3);
    XorBound(a, b, 30);
    XorBound(c, d, 30);
    XorBound(Xor(a, b), Xor(c, d), 30);
    XorBound(Xor(Xor(a, b), Xor(c, d)), e, 30);
  }

  // The step in the arithmetic of the program, which stays within 30 bits.
  lemma StepIs(c: nat, v: Symbol)
    ensures Step(c, v) == Xor(Xor(c % 0x200_0000 * 32, v), Feedback(c / 0x200_0000)) < Pow2(30)
  {
    hide Xor, Feedback, Low, Down, Up, Pow2;
    Pow30();
    Pow2Values();
    DownIs(c, 25);
    UpIs(Low(c, 25), 5);
    UpBound(Low(c, 25), 25, 5);
    XorBound(Up(Low(c, 25), 5), v, 30);
    FeedbackBound(Down(c, 25));
    XorBound(Xor(Up(Low(c, 25), 5), v), Feedback(Down(c, 25)), 30);
  }

  method PolyMod(s: seq<Symbol>) returns (c: nat)
    ensures c == Fold(1, s) && c < Pow2(30)
  {
    hide Step, Xor, Feedback;
    c := 1;
    Pow30();
    for i := 0 to |s|
      invariant c == Fold(1, s[..i]) && c < Pow2(30)
    {
      var c0 := c / 0x200_0000;
      StepIs(c, s[i]);
      c := Xor(Xor(c % 0x200_0000 * 32, s[i]), Feedback(c0));
      assert s[..i + 1][..i] == s[..i];
    }
    assert s[..|s|] == s;
  }

  lemma {:induction false} FoldBound(c: nat, s: seq<Symbol>)
    requires c < Pow2(30)
    ensures Fold(c, s) < Pow2(30)
  {
    hide Step, Pow2;
    if s != [] {
      StepIs(Fold(c, s[..|s| - 1]), s[|s| - 1]);
    }
  }

  // ----- Errors in a short window -----

  ghost predicate Zeros(s: seq<Symbol>) {
    forall i | 0 <= i < |s| :: s[i] == 0
  }

  lemma {:induction false} ZerosStay(c: nat, s: seq<Symbol>)
    requires Zeros(s) && c < Pow2(30)
    ensures c == 0 <==> Fold(c, s) == 0
  {
    hide Step, Pow2;
    if s != [] {
      var n := |s| - 1;
      ZerosStay(c, s[..n]);
      FoldBound(c, s[..n]);
      StepOfZero();
      if Step(Fold(c, s[..n]), 0) == 0 {
        StepInjective(Fold(c, s[..n]));
      }
    }
  }

  // Symbols packed into a word, the first in front.
  function Packed(s: seq<Symbol>): nat {
    if s == [] then 0 else Packed(s[..|s| - 1]) * 32 + s[|s| - 1]
  }

  // Up to six symbols from zero are just packed.
  lemma {:induction false} ShortIsPacked(s: seq<Symbol>)
    requires |s| <= 6
    ensures Fold(0, s) == Packed(s) < Pow2(5 * |s|) && (Packed(s) == 0 <==> Zeros(s))
  {
    hide Step;
    if s != [] {
      var n := |s| - 1;
      ShortIsPacked(s[..n]);
      Pow2Monotone(5 * n, 25);
      PackOne(Packed(s[..n]), s[n]);
      Pow2Values();
      Pow2Add(5, 5 * n);
      assert s == s[..n] + [s[n]];
    }
  }

  lemma PackOne(c: nat, v: Symbol)
    requires c < Pow2(25)
    ensures Step(c, v) == c * 32 + v
  {
    hide Xor, Feedback, Low, Down, Up, Pow2;
    Pow2Values();
    Pow30();
    DownIs(c, 25);
    FeedbackOfZero();
    UpIs(c, 5);
    XorJoin(c, v, 5);
    XorSelf(Xor(Up(c, 5), v));
  }

  // Symbols that are zero outside a window of six consecutive places.
  ghost predicate Burst(e: seq<Symbol>, a: nat) {
    forall i | 0 <= i < |e| :: i < a || i >= a + 6 ==> e[i] == 0
  }

  // No such pattern but zero has remainder zero.
  lemma BurstFelt(e: seq<Symbol>, a: nat)
    requires Burst(e, a) && Fold(0, e) == 0
    ensures Zeros(e)
  {
    hide Fold, Pow2;
    var m := if a < |e| then a else |e|;
    var n := if a + 6 < |e| then a + 6 else |e|;
    var x, y, z := e[..m], e[m..n], e[n..];
    assert e == x + (y + z);
    FoldConcat(0, x, y + z);
    FoldConcat(Fold(0, x), y, z);
    Pow30();
    ZerosStay(0, x);
    FoldBound(0, y);
    ZerosStay(Fold(0, y), z);
    ShortIsPacked(y);
    assert Zeros(y);
    forall i | 0 <= i < |e| ensures e[i] == 0 {
      if m <= i < n {
        assert e[i] == y[i - m];
      }
    }
  }
}
