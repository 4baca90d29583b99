/**
Bech32 as a code: the prefix is checked along with the data, the checksum is the remainder
of a polynomial over GF(32), and the published strings come out.
*/
module Bech32Code {
  import opened Bits
  import opened Xors
  import opened PolyMod
  import opened Bech32

  // ----- The prefix -----

  // Every character of the prefix is in the checked word, split into its high bits in front
  // of a zero and its low five bits behind.
  lemma ExpandShape(hrp: string)
    requires Ascii(hrp)
    ensures var n, e := |hrp|, Expand(hrp);
            && |e| == 2 * n + 1 && e[n] == 0
            && forall i | 0 <= i < n :: 32 * (e[i] as int) + e[n + 1 + i] == hrp[i] as int
  {
  }

  // Two words that verify, with prefixes that agree in their high bits, and that differ in at
  // most six consecutive places, are equal.
  lemma WordBurst(encoding: Encoding, h: string, g: string, v: seq<Symbol>, w: seq<Symbol>, a: nat)
    requires Ascii(h) && Ascii(g) && |h| == |g| && |v| == |w|
    requires Verifies(encoding, h, v) && Verifies(encoding, g, w)
    requires forall i | 0 <= i < |Expand(h) + v| ::
               i < a || i >= a + 6 ==> (Expand(h) + v)[i] == (Expand(g) + w)[i]
    ensures h == g && v == w
  {
    hide Xor, Fold;
    var x, y := Expand(h) + v, Expand(g) + w;
    var e := XorAll(x, y);
    FoldLinear(1, 1, x, y);
    XorSelf(1);
    XorSelf(encoding.Constant());
    forall i | 0 <= i < |e| && (i < a || i >= a + 6) ensures e[i] == 0 {
      XorSelf(x[i]);
    }
    BurstFelt(e, a);
    forall i | 0 <= i < |x| ensures x[i] == y[i] {
      assert e[i] == Xor(x[i], y[i]);
      XorZero(x[i], y[i]);
    }
    SameWord(h, g, v, w);
  }

  lemma SameWord(h: string, g: string, v: seq<Symbol>, w: seq<Symbol>)
    requires Ascii(h) && Ascii(g) && |h| == |g| && |v| == |w|
    requires forall i | 0 <= i < |Expand(h) + v| :: (Expand(h) + v)[i] == (Expand(g) + w)[i]
    ensures h == g && v == w
  {
    var n, x, y := |h|, Expand(h), Expand(g);
    ExpandShape(h);
    ExpandShape(g);
    hide Expand;
    forall i | 0 <= i < n ensures h[i] == g[i] {
      assert (x + v)[i] == (y + w)[i] && (x + v)[n + 1 + i] == (y + w)[n + 1 + i];
    }
    forall i | 0 <= i < |v| ensures v[i] == w[i] {
      assert (x + v)[2 * n + 1 + i] == (y + w)[2 * n + 1 + i];
    }
  }

  // The same, for characters of the strings instead of places of the checked words.
  lemma WindowInWord(h: string, g: string, v: seq<Symbol>, w: seq<Symbol>, a: nat) returns (b: nat)
    requires Ascii(h) && Ascii(g) && |h| == |g| && |v| == |w|
    requires forall i | 0 <= i < |h| :: h[i] as int / 32 == g[i] as int / 32
    requires forall i | 0 <= i < |h| :: i < a || i >= a + 6 ==> h[i] == g[i]
    requires forall i | 0 <= i < |v| :: i + |h| + 1 < a || i + |h| + 1 >= a + 6 ==> v[i] == w[i]
    ensures forall i | 0 <= i < |Expand(h) + v| ::
               i < b || i >= b + 6 ==> (Expand(h) + v)[i] == (Expand(g) + w)[i]
  {
    var n := |h|;
    b := if a <= n then n + 1 + a else n + a;
    forall i | 0 <= i < |Expand(h) + v| && (i < b || i >= b + 6)
      ensures (Expand(h) + v)[i] == (Expand(g) + w)[i]
    {
      if n < i < 2 * n + 1 {
        assert h[i - n - 1] == g[i - n - 1];
      } else if i >= 2 * n + 1 {
        assert v[i - 2 * n - 1] == w[i - 2 * n - 1];
      }
    }
  }

  // Two good strings of one encoding that differ in at most six consecutive characters, in
  // the prefix or in the data or across both, are the same up to case, provided the prefixes
  // have the same length and their characters the same high bits.
  lemma StringBurstAnywhere(s: string, t: string, limit: nat, a: nat)
    requires DecodeSpec(s, limit).Decoded? && DecodeSpec(t, limit).Decoded? && |s| == |t|
    requires DecodeSpec(s, limit).encoding == DecodeSpec(t, limit).encoding
    requires var h, g := DecodeSpec(s, limit).hrp, DecodeSpec(t, limit).hrp;
             |h| == |g| && forall i | 0 <= i < |h| :: h[i] as int / 32 == g[i] as int / 32
    requires forall i | 0 <= i < |s| :: i < a || i >= a + 6 ==> LowerCase(s[i]) == LowerCase(t[i])
    ensures Lowered(s) == Lowered(t) && DecodeSpec(s, limit) == DecodeSpec(t, limit)
  {
    hide DecodeSpec, Charset, CharsetRev, Verifies, Expand;
    var c, d := DecodeSpec(s, limit), DecodeSpec(t, limit);
    var h, g := c.hrp, d.hrp;
    var v := DecodedSymbols(s, limit);
    var w := DecodedSymbols(t, limit);
    var k := |h| + 1;
    forall i | 0 <= i < |h| && (i < a || i >= a + 6) ensures h[i] == g[i] {
      assert Lowered(s)[i] == h[i] && Lowered(t)[i] == g[i];
    }
    forall i | 0 <= i < |v| && (i + k < a || i + k >= a + 6) ensures v[i] == w[i] {
      assert Lowered(s)[i + k] == Charset(v[i]) && Lowered(t)[i + k] == Charset(w[i]);
      RevOfCharset(v[i]);
      RevOfCharset(w[i]);
    }
    var b := WindowInWord(h, g, v, w, a);
    WordBurst(c.encoding, h, g, v, w, b);
    EncodeDecode(s, limit);
    EncodeDecode(t, limit);
    DataEqual(c.encoding, h, c.data, d.data);
  }

  // ----- The field -----

  // Elements of GF(32) are polynomials over the bits modulo a^5 + a^3 + 1; this is the
  // product with a.
  function TimesA(v: Symbol): Symbol {
    if v < 16 then 2 * v else SymbolXor(2 * v - 32, 9)
  }

  function TimesPower(v: Symbol, k: nat): Symbol {
    if k == 0 then v else TimesA(TimesPower(v, k - 1))
  }

  function Part(on: bool, v: Symbol): Symbol {
    if on then v else 0
  }

  // The product of two elements: the sum of the multiples of v for the bits of u.
  function Times(u: Symbol, v: Symbol): Symbol {
    SymbolXor(
      SymbolXor(SymbolXor(Part(Odd(u), v), Part(Odd(Down(u, 1)), TimesPower(v, 1))),
                SymbolXor(Part(Odd(Down(u, 2)), TimesPower(v, 2)), Part(Odd(Down(u, 3)), TimesPower(v, 3)))),
      Part(Odd(Down(u, 4)), TimesPower(v, 4)))
  }

  // The generator x^6 + {29}x^5 + {22}x^4 + {20}x^3 + {21}x^2 + {29}x + {18} without its
  // leading term, and its multiples by powers of a.
  const GENERATOR: seq<Symbol> := [29, 22, 20, 21, 29, 18]

  function Multiple(k: nat): seq<Symbol> {
    seq(6, i requires 0 <= i < 6 => TimesPower(GENERATOR[i], k))
  }

  // ----- Sums as words of five bits -----

  lemma Halves(a: bv5)
    ensures (a as nat) / 2 == (a >> 1) as nat && (a as nat) % 2 == (a & 1) as nat
  {
  }

  lemma LastBits(a: bv5, b: bv5)
    ensures ((a & 1) as nat + (b & 1) as nat) % 2 == ((a ^ b) & 1) as nat
  {
    assert (a & 1 == 0 || a & 1 == 1) && (b & 1 == 0 || b & 1 == 1);
    assert (a ^ b) & 1 == (a & 1) ^ (b & 1);
  }

  lemma HalvesXor(a: bv5, b: bv5)
    ensures (a ^ b) >> 1 == (a >> 1) ^ (b >> 1)
  {
  }

  lemma Smaller(a: bv5)
    requires a != 0
    ensures (a >> 1) as nat < a as nat
  {
  }

  lemma Joined(x: nat, y: nat, z: nat, half: nat)
    requires Xor(x / 2, y / 2) == half == z / 2 && z % 2 == (x % 2 + y % 2) % 2
    ensures Xor(x, y) == z
  {
    hide Xor;
    XorStep(x, y);
  }

  lemma {:induction false} XorIs(a: bv5, b: bv5)
    ensures Xor(a as nat, b as nat) == (a ^ b) as nat
    decreases a as nat
  {
    hide Xor;
    if a == 0 {
      XorSelf(b as nat);
    } else {
      Smaller(a);
      XorIs(a >> 1, b >> 1);
      Halves(a);
      Halves(b);
      Halves(a ^ b);
      LastBits(a, b);
      HalvesXor(a, b);
      Joined(a as nat, b as nat, (a ^ b) as nat, ((a ^ b) >> 1) as nat);
    }
  }

  lemma TimesAValues()
    ensures TimesA(29) == 19 && TimesA(22) == 5 && TimesA(20) == 1 && TimesA(21) == 3 && TimesA(18) == 13
    ensures TimesA(19) == 15 && TimesA(5) == 10 && TimesA(1) == 2 && TimesA(3) == 6 && TimesA(13) == 26
    ensures TimesA(15) == 30 && TimesA(10) == 20 && TimesA(2) == 4 && TimesA(6) == 12 && TimesA(26) == 29
    ensures TimesA(30) == 21 && TimesA(4) == 8 && TimesA(12) == 24
  {
    hide Xor;
    XorIs(26, 9);
    XorIs(12, 9);
    XorIs(8, 9);
    XorIs(10, 9);
    XorIs(4, 9);
    XorIs(6, 9);
    XorIs(20, 9);
    XorIs(28, 9);
  }

  lemma MultipleValues()
    ensures Multiple(0) == [29, 22, 20, 21, 29, 18]
    ensures Multiple(1) == [19, 5, 1, 3, 19, 13]
    ensures Multiple(2) == [15, 10, 2, 6, 15, 26]
    ensures Multiple(3) == [30, 20, 4, 12, 30, 29]
    ensures Multiple(4) == [21, 1, 8, 24, 21, 19]
  {
    hide TimesA;
    TimesAValues();
    forall i, k: nat | 0 <= i < 6 && k > 0 ensures Multiple(k)[i] == TimesA(Multiple(k - 1)[i]) {
    }
    assert |Multiple(0)| == |Multiple(1)| == |Multiple(2)| == |Multiple(3)| == |Multiple(4)| == 6;
  }

  // ----- The remainder -----

  // The product of an element and the generator without its leading term.
  function Scaled(u: Symbol): (r: seq<Symbol>)
    ensures |r| == 6
  {
    seq(6, i requires 0 <= i < 6 => Times(u, GENERATOR[i]))
  }

  lemma PackedXor(s: seq<Symbol>, t: seq<Symbol>)
    requires |s| == |t| <= 6
    ensures Packed(XorAll(s, t)) == Xor(Packed(s), Packed(t))
  {
    hide Xor, Fold, Packed;
    FoldLinear(0, 0, s, t);
    XorSelf(0);
    ShortIsPacked(s);
    ShortIsPacked(t);
    ShortIsPacked(XorAll(s, t));
  }

  function Word(a: nat, b: nat, c: nat, d: nat, e: nat, f: nat): nat {
    ((((a * 32 + b) * 32 + c) * 32 + d) * 32 + e) * 32 + f
  }

  lemma PackedSix(s: seq<Symbol>)
    requires |s| == 6
    ensures Packed(s) == Word(s[0], s[1], s[2], s[3], s[4], s[5])
  {
    assert s[..6] == s;
    PackedSnoc(s, 0);
    PackedSnoc(s, 1);
    PackedSnoc(s, 2);
    PackedSnoc(s, 3);
    PackedSnoc(s, 4);
    PackedSnoc(s, 5);
  }

  // A multiple of the generator, or nothing.
  function PartOf(on: bool, k: nat): seq<Symbol> {
    seq(6, i requires 0 <= i < 6 => Part(on, TimesPower(GENERATOR[i], k)))
  }

  lemma PartPacked(on: bool, k: nat, word: nat)
    requires Packed(Multiple(k)) == word
    ensures Packed(PartOf(on, k)) == Tap(on, word)
  {
    if on {
      assert PartOf(on, k) == Multiple(k);
    } else {
      PackedSix(PartOf(on, k));
    }
  }

  lemma MultipleWords()
    ensures Packed(Multiple(0)) == 0x3b6a57b2 && Packed(Multiple(1)) == 0x26508e6d && Packed(Multiple(2)) == 0x1ea119fa
    ensures Packed(Multiple(3)) == 0x3d4233dd && Packed(Multiple(4)) == 0x2a1462b3
  {
    hide Packed;
    MultipleValues();
    PackedSix(Multiple(0));
    PackedSix(Multiple(1));
    PackedSix(Multiple(2));
    PackedSix(Multiple(3));
    PackedSix(Multiple(4));
  }

  // The words exclusive-ored in for the bits of a coefficient make up its product with the
  // generator.
  lemma FeedbackIsProduct(u: Symbol)
    ensures Feedback(u) == Packed(Scaled(u))
  {
    hide Xor, Packed, Odd, Down, TimesPower;
    MultipleWords();
    var b0, b1, b2, b3, b4 := Odd(u), Odd(Down(u, 1)), Odd(Down(u, 2)), Odd(Down(u, 3)), Odd(Down(u, 4));
    PartPacked(b0, 0, 0x3b6a57b2);
    PartPacked(b1, 1, 0x26508e6d);
    PartPacked(b2, 2, 0x1ea119fa);
    PartPacked(b3, 3, 0x3d4233dd);
    PartPacked(b4, 4, 0x2a1462b3);
    var p, q := XorAll(PartOf(b0, 0), PartOf(b1, 1)), XorAll(PartOf(b2, 2), PartOf(b3, 3));
    PackedXor(PartOf(b0, 0), PartOf(b1, 1));
    PackedXor(PartOf(b2, 2), PartOf(b3, 3));
    PackedXor(p, q);
    PackedXor(XorAll(p, q), PartOf(b4, 4));
    ScaledIs(u);
  }

  lemma ScaledIs(u: Symbol)
    ensures Scaled(u) ==
            XorAll(XorAll(XorAll(PartOf(Odd(u), 0), PartOf(Odd(Down(u, 1)), 1)),
                          XorAll(PartOf(Odd(Down(u, 2)), 2), PartOf(Odd(Down(u, 3)), 3))),
                   PartOf(Odd(Down(u, 4)), 4))
  {
    hide Xor, Odd, Down, TimesA;
  }

  // One step of the checksum: the polynomial c times x plus v, less the multiple of the
  // generator that cancels the leading term.
  function Reduced(c: seq<Symbol>, v: Symbol): seq<Symbol>
    requires |c| == 6
  {
    XorAll(c[1..] + [v], Scaled(c[0]))
  }

  lemma StepReduces(c: seq<Symbol>, v: Symbol)
    requires |c| == 6
    ensures Step(Packed(c), v) == Packed(Reduced(c, v))
  {
    hide Step, Xor, Packed, Scaled, Feedback, Word;
    PackedSix(c);
    PackedSix(c[1..] + [v]);
    StepOfWord(c[0], c[1], c[2], c[3], c[4], c[5], v);
    FeedbackIsProduct(c[0]);
    PackedXor(c[1..] + [v], Scaled(c[0]));
  }

  lemma StepOf(word: nat, first: Symbol, low: nat, v: Symbol)
    requires word / 0x200_0000 == first && word % 0x200_0000 == low
    ensures Step(word, v) == Xor(low * 32 + v, Feedback(first))
  {
    hide Xor, Feedback;
    StepIs(word, v);
    Shifted(low, v);
  }

  lemma StepOfWord(a: Symbol, b: Symbol, c: Symbol, d: Symbol, e: Symbol, f: Symbol, v: Symbol)
    ensures Step(Word(a, b, c, d, e, f), v) == Xor(Word(b, c, d, e, f, v), Feedback(a))
  {
    hide Step, Xor, Feedback, Word;
    FirstOut(a, b, c, d, e, f, v);
    StepOf(Word(a, b, c, d, e, f), a, Word(0, b, c, d, e, f), v);
  }

  lemma FirstOut(a: Symbol, b: Symbol, c: Symbol, d: Symbol, e: Symbol, f: Symbol, v: Symbol)
    ensures Word(a, b, c, d, e, f) / 0x200_0000 == a
    ensures Word(a, b, c, d, e, f) % 0x200_0000 == Word(0, b, c, d, e, f)
    ensures Word(0, b, c, d, e, f) * 32 + v == Word(b, c, d, e, f, v)
  {
  }

  lemma Shifted(low: nat, v: Symbol)
    ensures Xor(low * 32, v) == low * 32 + v
  {
    hide Xor;
    Pow2Values();
    UpIs(low, 5);
    XorJoin(low, v, 5);
  }

  // The remainder, modulo the generator, of the polynomial with leading coefficient 1 and the
  // given symbols as its further coefficients.
  function Remainder(s: seq<Symbol>): (r: seq<Symbol>)
    ensures |r| == 6
  {
    if s == [] then [0, 0, 0, 0, 0, 1] else Reduced(Remainder(s[..|s| - 1]), s[|s| - 1])
  }

  lemma {:induction false} FoldIsRemainder(s: seq<Symbol>)
    ensures Fold(1, s) == Packed(Remainder(s))
  {
    hide Step, Packed, Reduced;
    if s == [] {
      PackedSix([0, 0, 0, 0, 0, 1]);
    } else {
      FoldIsRemainder(s[..|s| - 1]);
      StepReduces(Remainder(s[..|s| - 1]), s[|s| - 1]);
    }
  }

  // ----- Published strings -----

  // The sum of two polynomials, coefficient by coefficient.
  lemma Summed(a: bv5, b: bv5, c: bv5, d: bv5, e: bv5, f: bv5, a': bv5, b': bv5, c': bv5, d': bv5, e': bv5, f': bv5)
    ensures XorAll([a as nat, b as nat, c as nat, d as nat, e as nat, f as nat],
                   [a' as nat, b' as nat, c' as nat, d' as nat, e' as nat, f' as nat]) ==
            [(a ^ a') as nat, (b ^ b') as nat, (c ^ c') as nat, (d ^ d') as nat, (e ^ e') as nat, (f ^ f') as nat]
  {
    hide Xor;
    XorIs(a, a');
    XorIs(b, b');
    XorIs(c, c');
    XorIs(d, d');
    XorIs(e, e');
    XorIs(f, f');
  }

  lemma PartOfIs(on: bool, k: nat)
    ensures PartOf(on, k) == if on then Multiple(k) else SIX_ZEROS
  {
    hide TimesPower;
  }

  lemma ScaledBy1()
    ensures Scaled(1) == [29, 22, 20, 21, 29, 18]
  {
    hide Xor, XorAll, Multiple, Scaled, PartOf, Odd, Down;
    ScaledIs(1);
    MultipleValues();
    BitsOf();
    Parts();
    Summed(0, 0, 0, 0, 0, 0, 0, 0, 0, 0, 0, 0);
    Summed(29, 22, 20, 21, 29, 18, 0, 0, 0, 0, 0, 0);
  }

  lemma ScaledBy18()
    ensures Scaled(18) == [6, 4, 9, 27, 6, 30]
  {
    hide Xor, XorAll, Multiple, Scaled, PartOf, Odd, Down;
    ScaledIs(18);
    MultipleValues();
    BitsOf();
    Parts();
    Summed(0, 0, 0, 0, 0, 0, 19, 5, 1, 3, 19, 13);
    Summed(0, 0, 0, 0, 0, 0, 0, 0, 0, 0, 0, 0);
    Summed(19, 5, 1, 3, 19, 13, 0, 0, 0, 0, 0, 0);
    Summed(19, 5, 1, 3, 19, 13, 21, 1, 8, 24, 21, 19);
  }

  lemma ScaledBy30()
    ensures Scaled(30) == [23, 26, 15, 17, 23, 25]
  {
    hide Xor, XorAll, Multiple, Scaled, PartOf, Odd, Down;
    ScaledIs(30);
    MultipleValues();
    BitsOf();
    Parts();
    Summed(0, 0, 0, 0, 0, 0, 19, 5, 1, 3, 19, 13);
    Summed(15, 10, 2, 6, 15, 26, 30, 20, 4, 12, 30, 29);
    Summed(19, 5, 1, 3, 19, 13, 17, 30, 6, 10, 17, 7);
    Summed(2, 27, 7, 9, 2, 10, 21, 1, 8, 24, 21, 19);
  }

  lemma Parts()
    ensures forall on, k :: PartOf(on, k) == if on then Multiple(k) else SIX_ZEROS
  {
    forall on, k ensures PartOf(on, k) == if on then Multiple(k) else SIX_ZEROS {
      PartOfIs(on, k);
    }
  }

  lemma BitsOf()
    ensures Odd(1) && !Odd(Down(1, 1)) && !Odd(Down(1, 2)) && !Odd(Down(1, 3)) && !Odd(Down(1, 4))
    ensures !Odd(30) && Odd(Down(30, 1)) && Odd(Down(30, 2)) && Odd(Down(30, 3)) && Odd(Down(30, 4))
    ensures !Odd(18) && Odd(Down(18, 1)) && !Odd(Down(18, 2)) && !Odd(Down(18, 3)) && Odd(Down(18, 4))
  {
  }

  lemma Reduces(c: seq<Symbol>, v: Symbol, k: seq<Symbol>, r: seq<Symbol>)
    requires |c| == |k| == |r| == 6 && k == Scaled(c[0]) && XorAll(c[1..] + [v], k) == r
    ensures Step(Packed(c), v) == Packed(r)
  {
    hide Step, Packed, Scaled, XorAll;
    StepReduces(c, v);
  }

  // The prefix "a" and two more symbols, before anything is reduced.
  lemma AfterFive(x: Symbol, y: Symbol)
    ensures Fold(1, [3, 0, 1, x, y]) == Packed([1, 3, 0, 1, x, y])
  {
    hide Fold, Packed;
    ShortIsPacked([1]);
    OneIsPacked();
    ShortIsPacked([1, 3, 0, 1, x, y]);
    FoldConcat(0, [1], [3, 0, 1, x, y]);
    assert [1] + [3, 0, 1, x, y] == [1, 3, 0, 1, x, y];
  }

  lemma OneIsPacked()
    ensures Packed([1]) == 1
  {
    PackedSnoc([1], 0);
  }

  lemma FoldSnoc(s: seq<Symbol>, v: Symbol, c: nat, d: nat)
    requires Fold(1, s) == c && Step(c, v) == d
    ensures Fold(1, s + [v]) == d
  {
    hide Step;
    assert (s + [v])[..|s|] == s;
  }

  // The checksum of a word behind the prefix "a" whose reductions go by 1, 30, 1 and 18.
  lemma FourSteps(x: Symbol, y: Symbol, z: Symbol, u: Symbol, t: Symbol, q: Symbol, c: seq<Symbol>, d: seq<Symbol>,
                  e: seq<Symbol>, r: seq<Symbol>)
    requires |c| == |d| == |e| == |r| == 6 && c[0] == 30 && d[0] == 1 && e[0] == 18
    requires XorAll([3, 0, 1, x, y, z], Scaled(1)) == c && XorAll(c[1..] + [u], Scaled(30)) == d
    requires XorAll(d[1..] + [t], Scaled(1)) == e && XorAll(e[1..] + [q], Scaled(18)) == r
    ensures Fold(1, [3, 0, 1, x, y, z, u, t, q]) == Packed(r)
  {
    hide Fold, Packed, Step, Scaled, XorAll;
    var s: seq<Symbol> := [3, 0, 1, x, y];
    AfterFive(x, y);
    assert [1, 3, 0, 1, x, y][1..] + [z] == [3, 0, 1, x, y, z];
    Reduces([1, 3, 0, 1, x, y], z, Scaled(1), c);
    FoldSnoc(s, z, Packed([1, 3, 0, 1, x, y]), Packed(c));
    Reduces(c, u, Scaled(30), d);
    FoldSnoc(s + [z], u, Packed(c), Packed(d));
    Reduces(d, t, Scaled(1), e);
    FoldSnoc(s + [z] + [u], t, Packed(d), Packed(e));
    Reduces(e, q, Scaled(18), r);
    FoldSnoc(s + [z] + [u] + [t], q, Packed(e), Packed(r));
    assert s + [z] + [u] + [t] + [q] == [3, 0, 1, x, y, z, u, t, q];
  }

  lemma Sums173()
    ensures XorAll([3, 0, 1, 10, 28, 25], Scaled(1)) == [30, 22, 21, 31, 1, 11]
    ensures XorAll([22, 21, 31, 1, 11, 31], Scaled(30)) == [1, 15, 16, 16, 28, 6]
    ensures XorAll([15, 16, 16, 28, 6, 20], Scaled(1)) == [18, 6, 4, 9, 27, 6]
    ensures XorAll([6, 4, 9, 27, 6, 31], Scaled(18)) == [0, 0, 0, 0, 0, 1]
  {
    hide Scaled, XorAll;
    ScaledBy1();
    ScaledBy18();
    ScaledBy30();
    Summed(3, 0, 1, 10, 28, 25, 29, 22, 20, 21, 29, 18);
    Summed(22, 21, 31, 1, 11, 31, 23, 26, 15, 17, 23, 25);
    Summed(15, 16, 16, 28, 6, 20, 29, 22, 20, 21, 29, 18);
    Summed(6, 4, 9, 27, 6, 31, 6, 4, 9, 27, 6, 30);
  }

  lemma Vector173()
    ensures Fold(1, [3, 0, 1, 10, 28, 25, 31, 20, 31]) == 1
  {
    hide Fold, Packed, Scaled, XorAll;
    Sums173();
    var c: seq<Symbol> := [30, 22, 21, 31, 1, 11];
    var d: seq<Symbol> := [1, 15, 16, 16, 28, 6];
    var e: seq<Symbol> := [18, 6, 4, 9, 27, 6];
    assert c[1..] + [31] == [22, 21, 31, 1, 11, 31];
    assert d[1..] + [20] == [15, 16, 16, 28, 6, 20];
    assert e[1..] + [31] == [6, 4, 9, 27, 6, 31];
    FourSteps(10, 28, 25, 31, 20, 31, c, d, e, [0, 0, 0, 0, 0, 1]);
    PackedSix([0, 0, 0, 0, 0, 1]);
  }

  lemma Sums350()
    ensures XorAll([3, 0, 1, 31, 0, 9], Scaled(1)) == [30, 22, 21, 10, 29, 27]
    ensures XorAll([22, 21, 10, 29, 27, 19], Scaled(30)) == [1, 15, 5, 12, 12, 10]
    ensures XorAll([15, 5, 12, 12, 10, 17], Scaled(1)) == [18, 19, 24, 25, 23, 3]
    ensures XorAll([19, 24, 25, 23, 3, 29], Scaled(18)) == [21, 28, 16, 12, 5, 3]
  {
    hide Scaled, XorAll;
    ScaledBy1();
    ScaledBy18();
    ScaledBy30();
    Summed(3, 0, 1, 31, 0, 9, 29, 22, 20, 21, 29, 18);
    Summed(22, 21, 10, 29, 27, 19, 23, 26, 15, 17, 23, 25);
    Summed(15, 5, 12, 12, 10, 17, 29, 22, 20, 21, 29, 18);
    Summed(19, 24, 25, 23, 3, 29, 6, 4, 9, 27, 6, 30);
  }

  lemma Vector350()
    ensures Fold(1, [3, 0, 1, 31, 0, 9, 19, 17, 29]) == 0x2bc830a3
  {
    hide Fold, Packed, Scaled, XorAll;
    Sums350();
    var c: seq<Symbol> := [30, 22, 21, 10, 29, 27];
    var d: seq<Symbol> := [1, 15, 5, 12, 12, 10];
    var e: seq<Symbol> := [18, 19, 24, 25, 23, 3];
    assert c[1..] + [19] == [22, 21, 10, 29, 27, 19];
    assert d[1..] + [17] == [15, 5, 12, 12, 10, 17];
    assert e[1..] + [29] == [19, 24, 25, 23, 3, 29];
    FourSteps(31, 0, 9, 19, 17, 29, c, d, e, [21, 28, 16, 12, 5, 3]);
    PackedSix([21, 28, 16, 12, 5, 3]);
  }

  lemma ExpandA()
    ensures Ascii("a") && Expand("a") == [3, 0, 1]
  {
  }

  // An empty text behind the prefix "a", encoded and read back.
  lemma EmptyText(encoding: Encoding, check: seq<Symbol>, str: string)
    requires |check| == 6 && Fold(1, [3, 0, 1] + check) == encoding.Constant() && str == "a1" + Chars(check)
    ensures Ascii("a") && EncodeSpec(encoding, "a", []) == str
    ensures DecodeSpec(str, 90) == Decoded(encoding, "a", [])
  {
    hide Fold, DecodeSpec, CreateChecksum, Charset, CharsetRev;
    ExpandA();
    ChecksumUnique(encoding, "a", check);
    assert check[..0] == [];
    DecodeEncode(encoding, "a", [], 90);
    assert [] + CreateChecksum(encoding, "a", []) == check;
    assert "a" + [SEPARATOR] == "a1";
  }

  // Valid strings of BIP 173 and of BIP 350.
  lemma PublishedStrings()
    ensures Ascii("a")
    ensures EncodeSpec(Encoding.Bech32, "a", []) == "a12uel5l"
    ensures DecodeSpec("a12uel5l", 90) == Decoded(Encoding.Bech32, "a", [])
    ensures EncodeSpec(Bech32m, "a", []) == "a1lqfn3a" && DecodeSpec("a1lqfn3a", 90) == Decoded(Bech32m, "a", [])
  {
    hide Fold, DecodeSpec, EncodeSpec;
    Vector173();
    Vector350();
    assert [3, 0, 1] + [10, 28, 25, 31, 20, 31] == [3, 0, 1, 10, 28, 25, 31, 20, 31];
    assert [3, 0, 1] + [31, 0, 9, 19, 17, 29] == [3, 0, 1, 31, 0, 9, 19, 17, 29];
    assert "a1" + Chars([10, 28, 25, 31, 20, 31]) == "a12uel5l";
    assert "a1" + Chars([31, 0, 9, 19, 17, 29]) == "a1lqfn3a";
    EmptyText(Encoding.Bech32, [10, 28, 25, 31, 20, 31], "a12uel5l");
    EmptyText(Bech32m, [31, 0, 9, 19, 17, 29], "a1lqfn3a");
  }

  // The alphabet, in order.
  lemma Alphabet()
    ensures Chars(seq(32, i requires 0 <= i < 32 => i as Symbol)) == "qpzry9x8gf2tvdw0s3jn54khce6mua7l"
  {
  }
}
