/**
The miner's own expansions of a target into eight big-endian words, written apart from
the node's: from the compact form of a block header, and from a pool difficulty.
*/
module MinerTarget {
  import opened Bits
  import opened Limbs
  import Compact
  import ArithUint256

  // Big-endian bytes and words.
  function BytesValue(s: seq<Byte>): nat {
    if s == [] then 0 else BytesValue(s[..|s| - 1]) * 256 + s[|s| - 1]
  }

  function WordsValue(s: seq<Limb>): nat {
    if s == [] then 0 else WordsValue(s[..|s| - 1]) * 0x1_0000_0000 + s[|s| - 1]
  }

  lemma {:induction false} BytesZeros(s: seq<Byte>)
    requires forall i | 0 <= i < |s| :: s[i] == 0
    ensures BytesValue(s) == 0
  {
    if s != [] {
      BytesZeros(s[..|s| - 1]);
    }
  }

  // v moved up by n bytes.
  function Up(v: int, n: nat): int {
    if n == 0 then v else 256 * Up(v, n - 1)
  }

  lemma {:induction false} UpSum(a: int, b: int, n: nat)
    ensures Up(a + b, n) == Up(a, n) + Up(b, n)
  {
    if n > 0 {
      UpSum(a, b, n - 1);
    }
  }

  lemma {:induction false} UpUp(v: int, n: nat)
    ensures Up(256 * v, n) == Up(v, n + 1)
  {
    if n > 0 {
      UpUp(v, n - 1);
    }
  }

  lemma {:induction false} UpIsProduct(v: int, n: nat)
    ensures Up(v, n) == v * Pow2(8 * n)
  {
    if n > 0 {
      UpIsProduct(v, n - 1);
      Pow2Values();
      Pow2Add(8, 8 * (n - 1));
      MulAssoc(256, v, Pow2(8 * (n - 1)));
    }
  }

  lemma UpZero(n: nat)
    ensures Up(0, n) == 0
  {
    UpIsProduct(0, n);
  }

  // Changing byte j changes the value at that byte's weight.
  lemma {:induction false} BytesUpdate(s: seq<Byte>, j: nat, x: Byte)
    requires j < |s|
    ensures BytesValue(s[j := x]) == BytesValue(s) + Up(x, |s| - 1 - j) - Up(s[j], |s| - 1 - j)
  {
    var n := |s| - 1;
    if j == n {
      assert s[j := x][..n] == s[..n];
    } else {
      BytesUpdate(s[..n], j, x);
      assert s[j := x][..n] == s[..n][j := x];
    }
  }

  // ----- From the compact form -----

  // What byte i of the mantissa contributes: nothing if it lands outside the width.
  function Placed(b: Byte, exponent: nat, i: nat, width: nat): int {
    if 0 <= width - exponent + i < width then Up(b, exponent - 1 - i) else 0
  }

  lemma {:induction false} UpTo(v: int, m: nat, n: nat)
    ensures Up(Up(v, m), n) == Up(v, m + n)
  {
    if n > 0 {
      UpTo(v, m, n - 1);
    }
  }

  lemma TwoBytes(a: int, b: int, n: nat)
    ensures Up(a * 256 + b, n) == Up(a, n + 1) + Up(b, n)
  {
    UpUp(a, n);
    UpSum(256 * a, b, n);
  }

  // The three bytes of a mantissa, k bytes up.
  lemma ThreeBytes(b0: int, b1: int, b2: int, k: nat)
    ensures Up(b0 * 0x1_0000 + b1 * 0x100 + b2, k) == Up(b0, k + 2) + Up(b1, k + 1) + Up(b2, k)
  {
    TwoBytes(b0 * 256 + b1, b2, k);
    TwoBytes(b0, b1, k + 1);
  }

  lemma {:induction false} UpLess(v: int, w: int, n: nat)
    requires v < w
    ensures Up(v, n) < Up(w, n)
  {
    if n > 0 {
      UpLess(v, w, n - 1);
    }
  }

  lemma {:induction false} UpPositive(n: nat)
    ensures Up(1, n) > 0
  {
    if n > 0 {
      UpPositive(n - 1);
    }
  }

  // A number of j bytes, n bytes up, fits in n + j bytes and in more.
  lemma {:induction false} UpBound(v: nat, n: nat, j: nat, width: nat)
    requires v < Up(1, j) && n + j <= width
    ensures 0 <= Up(v, n) < Up(1, width)
    decreases width
  {
    UpPositive(j);
    if n + j < width {
      UpBound(v, n, j, width - 1);
    } else {
      UpTo(1, j, n);
      UpLess(v, Up(1, j), n);
      UpZero(n);
      UpLess(-1, v, n);
      UpSign(v, n);
    }
  }

  lemma {:induction false} UpSign(v: nat, n: nat)
    ensures Up(v, n) >= 0
  {
    if n > 0 {
      UpSign(v, n - 1);
    }
  }

  lemma {:induction false} UpTimes(v: int, n: nat)
    ensures Up(v, n) == v * Up(1, n)
  {
    if n > 0 {
      UpTimes(v, n - 1);
      MulAssoc(256, v, Up(1, n - 1));
    }
  }

  // Only what is below the width survives the cut.
  lemma CutAt(total: int, q: int, r: int, width: nat)
    requires total == Up(q, width) + r && 0 <= r < Up(1, width)
    ensures total % Up(1, width) == r
  {
    UpTimes(q, width);
    DivIs(total, q, r, Up(1, width));
  }

  // What is left of the three bytes, e - 3 bytes up, below the width.
  lemma PlacedCut(b0: Byte, b1: Byte, b2: Byte, e: nat, width: nat)
    requires e >= 3 && width >= 3
    ensures Up(1, width) > 0
    ensures Placed(b0, e, 0, width) + Placed(b1, e, 1, width) + Placed(b2, e, 2, width) ==
            Up(b0 as int * 0x1_0000 + b1 as int * 0x100 + b2 as int, e - 3) % Up(1, width)
  {
    var m, k := b0 as int * 0x1_0000 + b1 as int * 0x100 + b2 as int, e - 3;
    UpPositive(width);
    ThreeBytes(b0, b1, b2, k);
    UpSmall();
    if e <= width {
      UpBound(m, k, 3, width);
      UpZero(width);
      CutAt(Up(m, k), 0, Up(m, k), width);
    } else if e == width + 1 {
      UpBound(b1 as int * 256 + b2 as int, k, 2, width);
      TwoBytes(b1, b2, k);
      CutAt(Up(m, k), b0, Up(b1, k + 1) + Up(b2, k), width);
    } else if e == width + 2 {
      UpBound(b2, k, 1, width);
      TwoBytes(b0, b1, k + 1);
      CutAt(Up(m, k), b0 as int * 256 + b1 as int, Up(b2, k), width);
    } else {
      UpTo(m, k - width, width);
      CutAt(Up(m, k), Up(m, k - width), 0, width);
    }
  }

  lemma UpSmall()
    ensures Up(1, 1) == 0x100 && Up(1, 2) == 0x1_0000 && Up(1, 3) == 0x100_0000
  {
  }

  lemma PlacedSmall(nBits: Limb, b0: Byte, b1: Byte, b2: Byte, width: nat)
    requires Compact.Word(nBits) == b0 as int * 0x1_0000 + b1 as int * 0x100 + b2 as int
    requires nBits / 0x100_0000 < 3 <= width
    ensures Up(1, width) > 0
    ensures var e := nBits / 0x100_0000;
            Placed(b0, e, 0, width) + Placed(b1, e, 1, width) + Placed(b2, e, 2, width) ==
            Compact.Decode(nBits) % Up(1, width)
  {
    DecodeSmall(nBits, b0, b1, b2);
    UpPositive(width);
    UpSmall();
    UpBound(Compact.Decode(nBits), 0, 3, width);
    UpZero(width);
    CutAt(Compact.Decode(nBits), 0, Compact.Decode(nBits), width);
  }

  // Below exponent 3 the low bytes of the mantissa fall off.
  lemma DecodeSmall(nBits: Limb, b0: Byte, b1: Byte, b2: Byte)
    requires Compact.Word(nBits) == b0 as int * 0x1_0000 + b1 as int * 0x100 + b2 as int
    requires nBits / 0x100_0000 < 3
    ensures Compact.Decode(nBits) == match nBits / 0x100_0000
              case 0 => 0
              case 1 => b0 as int
              case _ => Up(b0, 1) + b1 as int
  {
    Pow2Values();
  }

  lemma DecodeUp(nBits: Limb)
    requires nBits / 0x100_0000 >= 3
    ensures Compact.Decode(nBits) == Up(Compact.Word(nBits), nBits / 0x100_0000 - 3)
  {
    UpIsProduct(Compact.Word(nBits), nBits / 0x100_0000 - 3);
  }

  // Three mantissa bytes put in place are the compact number cut to the width.
  lemma PlacedBytes(nBits: Limb, b0: Byte, b1: Byte, b2: Byte, width: nat)
    requires Compact.Word(nBits) == b0 as int * 0x1_0000 + b1 as int * 0x100 + b2 as int && width >= 3
    ensures Up(1, width) > 0
    ensures var e := nBits / 0x100_0000;
            Placed(b0, e, 0, width) + Placed(b1, e, 1, width) + Placed(b2, e, 2, width) ==
            Compact.Decode(nBits) % Up(1, width)
  {
    if nBits / 0x100_0000 < 3 {
      PlacedSmall(nBits, b0, b1, b2, width);
    } else {
      DecodeUp(nBits);
      PlacedCut(b0, b1, b2, nBits / 0x100_0000, width);
    }
  }

  // Two numbers that share no bit, put together.
  lemma Joined(high: nat, low: nat, k: nat, p: nat)
    requires p == Pow2(k) && low < p
    ensures Or(high * p, low) == high * p + low
  {
    OrDisjoint(low, high, k);
  }

  // Four bytes packed into a word.
  lemma FourBytes(a: Byte, b: Byte, c: Byte, d: Byte)
    ensures Or(Or(Or(a as int * 0x100_0000, b as int * 0x1_0000), c as int * 0x100), d) ==
            a as int * 0x100_0000 + b as int * 0x1_0000 + c as int * 0x100 + d as int
  {
    Pow2Values();
    var ab := a as int * 256 + b as int;
    var abc := ab * 256 + c as int;
    Joined(a, b as int * 0x1_0000, 24, 0x100_0000);
    assert a as int * 0x100_0000 + b as int * 0x1_0000 == ab * 0x1_0000;
    Joined(ab, c as int * 0x100, 16, 0x1_0000);
    assert ab * 0x1_0000 + c as int * 0x100 == abc * 0x100;
    Joined(abc, d, 8, 0x100);
  }

  lemma FourSnoc(s: seq<Byte>, i: nat)
    requires i + 4 <= |s|
    ensures BytesValue(s[..i + 4]) == BytesValue(s[..i]) * 0x1_0000_0000 +
            (s[i] as int * 0x100_0000 + s[i + 1] as int * 0x1_0000 + s[i + 2] as int * 0x100 + s[i + 3] as int)
  {
    BytesSnoc(s, i);
    BytesSnoc(s, i + 1);
    BytesSnoc(s, i + 2);
    BytesSnoc(s, i + 3);
  }

  lemma WordOfBytes(words: seq<Limb>, bytes: seq<Byte>, w: nat)
    requires w < |words| && 4 * |words| == |bytes| && PackedAt(words, bytes, w)
    requires WordsValue(words[..w]) == BytesValue(bytes[..4 * w])
    ensures WordsValue(words[..w + 1]) == BytesValue(bytes[..4 * w + 4])
  {
    WordsSnoc(words, w);
    FourSnoc(bytes, 4 * w);
  }

  lemma {:induction false} WordsOfBytes(words: seq<Limb>, bytes: seq<Byte>, n: nat)
    requires n <= |words| && 4 * |words| == |bytes|
    requires forall w: nat | w < n :: PackedAt(words, bytes, w)
    ensures WordsValue(words[..n]) == BytesValue(bytes[..4 * n])
  {
    if n > 0 {
      var m := n - 1;
      WordsOfBytes(words, bytes, m);
      WordOfBytes(words, bytes, m);
    }
  }

  ghost predicate PackedAt(words: seq<Limb>, bytes: seq<Byte>, w: nat)
    requires w < |words| && 4 * |words| == |bytes|
  {
    words[w] as int == bytes[4 * w] as int * 0x100_0000 + bytes[4 * w + 1] as int * 0x1_0000 +
                       bytes[4 * w + 2] as int * 0x100 + bytes[4 * w + 3] as int
  }

  lemma BytesSnoc(s: seq<Byte>, i: nat)
    requires i < |s|
    ensures BytesValue(s[..i + 1]) == BytesValue(s[..i]) * 256 + s[i]
  {
    assert s[..i + 1][..i] == s[..i];
  }

  // The three bytes of the mantissa field.
  method MantissaBytes(nBits: Limb) returns (b0: Byte, b1: Byte, b2: Byte)
    ensures Compact.Word(nBits) == b0 as int * 0x1_0000 + b1 as int * 0x100 + b2 as int
  {
    var mantissa := LowBits(nBits, 0x7f_ffff, 23);
    b0 := LowBits(mantissa / 0x1_0000, 0xff, 8);
    b1 := LowBits(mantissa / 0x100, 0xff, 8);
    b2 := LowBits(mantissa, 0xff, 8);
  }

  // Masking with k low ones keeps the k low bits.
  method LowBits(n: nat, mask: nat, k: nat) returns (r: nat)
    requires (k == 23 && mask == 0x7f_ffff) || (k == 8 && mask == 0xff)
    ensures r == if k == 8 then n % 0x100 else n % 0x80_0000
  {
    Pow2Values();
    ArithUint256.Pow23();
    AndMask(n, k);
    r := And(n, mask);
  }

  // Expands a compact target into eight words, the most significant first.
  method TargetWords(nBits: Limb) returns (words: array<Limb>)
    ensures words.Length == 8
    ensures WordsValue(words[..]) == Compact.Decode(nBits) % ArithUint256.Limit()
  {
    var exponent := nBits / 0x100_0000;
    var b0, b1, b2 := MantissaBytes(nBits);
    var target := new Byte[32](_ => 0);
    BytesZeros(target[..]);
    PlaceByte(target, b0, exponent, 0);
    PlaceByte(target, b1, exponent, 1);
    PlaceByte(target, b2, exponent, 2);
    PlacedBytes(nBits, b0, b1, b2, target.Length);
    LimitBytes();
    words := PackWords(target);
  }

  lemma LimitBytes()
    ensures ArithUint256.Limit() == Up(1, 32)
  {
    ArithUint256.LimitIs();
    UpIsProduct(1, 32);
  }

  method PlaceByte(target: array<Byte>, b: Byte, exponent: nat, i: nat)
    requires target.Length == 32 && i < 3
    requires forall j | 0 <= j < 32 && j >= 32 - exponent + i :: target[j] == 0
    modifies target
    ensures BytesValue(target[..]) == BytesValue(old(target[..])) + Placed(b, exponent, i, 32)
    ensures forall j | 0 <= j < 32 && j > 32 - exponent + i :: target[j] == 0
  {
    var idx := 32 - exponent + i;
    if 0 <= idx < 32 {
      ghost var was := target[..];
      BytesUpdate(was, idx, b);
      UpZero(31 - idx);
      target[idx] := b;
      assert target[..] == was[idx := b];
    }
  }

  method PackWord(a: Byte, b: Byte, c: Byte, d: Byte) returns (w: Limb)
    ensures w as int == a as int * 0x100_0000 + b as int * 0x1_0000 + c as int * 0x100 + d as int
  {
    FourBytes(a, b, c, d);
    w := Or(Or(Or(a as int * 0x100_0000, b as int * 0x1_0000), c as int * 0x100), d);
  }

  method PackWords(target: array<Byte>) returns (words: array<Limb>)
    requires target.Length == 32
    ensures words.Length == 8 && WordsValue(words[..]) == BytesValue(target[..])
  {
    words := new Limb[8](_ => 0);
    ghost var bytes := target[..];
    for w := 0 to 8
      invariant target[..] == bytes
      invariant forall v: nat | v < w :: PackedAt(words[..], bytes, v)
    {
      ghost var was := words[..];
      var word := PackWord(target[4 * w], target[4 * w + 1], target[4 * w + 2], target[4 * w + 3]);
      words[w] := word;
      PackedMore(was, words[..], bytes, w);
    }
    WordsOfBytes(words[..], bytes, 8);
    assert words[..][..8] == words[..] && bytes[..32] == bytes;
  }

  lemma PackedMore(was: seq<Limb>, words: seq<Limb>, bytes: seq<Byte>, w: nat)
    requires w < |was| && 4 * |was| == |bytes| && |words| == |was|
    requires words == was[w := words[w]]
    requires forall v: nat | v < w :: PackedAt(was, bytes, v)
    requires PackedAt(words, bytes, w)
    ensures forall v: nat | v < w + 1 :: PackedAt(words, bytes, v)
  {
    forall v: nat | v < w + 1
      ensures PackedAt(words, bytes, v)
    {
      if v < w {
        assert PackedAt(was, bytes, v);
      }
    }
  }

  // One digit of a long division: the remainder carried in keeps the digit below 2^32.
  lemma DigitFits(rem: nat, digit: Limb, d: nat)
    requires rem < d
    ensures 0 <= (rem * 0x1_0000_0000 + digit) / d < 0x1_0000_0000
    ensures 0 <= (rem * 0x1_0000_0000 + digit) % d < d
  {
    var cur := rem * 0x1_0000_0000 + digit;
    assert cur == cur / d * d + cur % d;
    if cur / d >= 0x1_0000_0000 {
      MulMonotone(0x1_0000_0000, cur / d, d);
    }
  }

  lemma DigitStep(v: nat, q: nat, rem: nat, digit: Limb, d: nat)
    requires rem < d && v == q * d + rem
    ensures v * 0x1_0000_0000 + digit ==
            (q * 0x1_0000_0000 + (rem * 0x1_0000_0000 + digit) / d) * d + (rem * 0x1_0000_0000 + digit) % d
  {
    var cur := rem * 0x1_0000_0000 + digit;
    assert cur == cur / d * d + cur % d;
    Distribute(q * 0x1_0000_0000, cur / d, d);
    MulAssoc(0x1_0000_0000, q, d);
  }

  lemma WordsSnoc(s: seq<Limb>, i: nat)
    requires i < |s|
    ensures WordsValue(s[..i + 1]) == WordsValue(s[..i]) * 0x1_0000_0000 + s[i]
  {
    assert s[..i + 1][..i] == s[..i];
  }

  // Schoolbook division of big-endian words by one word.
  method DivideWords(dividend: array<Limb>, d: Limb) returns (quotient: array<Limb>, rem: nat)
    requires d > 0
    ensures quotient.Length == dividend.Length && fresh(quotient)
    ensures WordsValue(dividend[..]) == WordsValue(quotient[..]) * d + rem && rem < d
  {
    quotient := new Limb[dividend.Length](_ => 0);
    rem := 0;
    for i := 0 to dividend.Length
      invariant rem < d && dividend[..] == old(dividend[..])
      invariant WordsValue(dividend[..i]) == WordsValue(quotient[..i]) * d + rem
    {
      DigitFits(rem, dividend[i], d);
      DigitStep(WordsValue(dividend[..i]), WordsValue(quotient[..i]), rem, dividend[i], d);
      ghost var was := quotient[..i];
      var cur := rem * 0x1_0000_0000 + dividend[i];
      quotient[i] := cur / d;
      rem := cur % d;
      assert quotient[..i] == was;
      WordsSnoc(dividend[..], i);
      WordsSnoc(quotient[..], i);
      assert dividend[..][..i] == dividend[..i] && dividend[..][..i + 1] == dividend[..i + 1];
      assert quotient[..][..i] == quotient[..i] && quotient[..][..i + 1] == quotient[..i + 1];
    }
    assert dividend[..] == dividend[..dividend.Length] && quotient[..] == quotient[..dividend.Length];
  }

  lemma {:induction false} WordsThenZeros(s: seq<Limb>, i: nat, n: nat)
    requires i <= n <= |s| && forall j | i <= j < n :: s[j] == 0
    ensures WordsValue(s[..n]) == Scale(WordsValue(s[..i]), n - i)
  {
    if i < n {
      WordsThenZeros(s, i, n - 1);
      WordsSnoc(s, n - 1);
    }
  }

  lemma {:induction false} WordsHead(s: seq<Limb>, n: nat)
    requires 1 <= n <= |s|
    ensures WordsValue(s[..n]) == Scale(s[0], n - 1) + WordsValue(s[1..n])
  {
    WordsSnoc(s, n - 1);
    if n > 1 {
      WordsHead(s, n - 1);
      WordsSnoc(s[1..], n - 2);
      assert s[1..][..n - 1] == s[1..n] && s[1..][..n - 2] == s[1..n - 1];
    }
  }

  lemma {:induction false} WordsBound(s: seq<Limb>, n: nat)
    requires n <= |s|
    ensures WordsValue(s[..n]) < Scale(1, n)
    ensures (forall j | 0 <= j < n :: s[j] == 0xffff_ffff) ==> WordsValue(s[..n]) == Scale(1, n) - 1
  {
    if n > 0 {
      WordsBound(s, n - 1);
      WordsSnoc(s, n - 1);
    }
  }

  // The largest target, 0xffff times 2^208, moved up by 20 bits.
  function PoolDividend(): (d: int)
    ensures d == 0xffff * Pow2(208) * Pow2(20)
  {
    DividendIs();
    Scale(0xffff0, 7)
  }

  lemma DividendIs()
    ensures Scale(0xffff0, 7) == 0xffff * Pow2(208) * Pow2(20)
  {
    assert Pow2(4) == 16;
    Pow2Add(4, 224);
    Pow2Add(208, 20);
    MulAssoc(0xffff, Pow2(208), Pow2(20));
    ScaleIsProduct(0xffff0, 7);
    PowerIsPow2(7);
  }

  // Eight words of nine, or all ones when the ninth is needed.
  method Saturate(quotient: seq<Limb>) returns (words: seq<Limb>)
    requires |quotient| == 9
    ensures |words| == 8
    ensures WordsValue(words) ==
            if WordsValue(quotient) < Scale(1, 8) then WordsValue(quotient) else Scale(1, 8) - 1
  {
    WordsHead(quotient, 9);
    assert quotient[..9] == quotient && quotient[1..9] == quotient[1..];
    if quotient[0] != 0 {
      words := seq(8, _ => 0xffff_ffff);
      ScaleMonotone(1, quotient[0], 8);
    } else {
      words := quotient[1..];
      ScaleZero(8);
    }
    WordsBound(words, 8);
    assert words[..8] == words;
  }

  // The share target of a difficulty given as a 20-bit fixed point number. The dividend
  // is too small for the saturating branch ever to be taken.
  method TargetWordsFromDifficulty(fixed: Limb) returns (words: seq<Limb>)
    requires fixed > 0
    ensures |words| == 8
    ensures WordsValue(words) == PoolDividend() / fixed
  {
    var dividend := new Limb[9](_ => 0);
    dividend[1] := 0xffff0;
    DividendWords(dividend[..]);
    var quotient, rem := DivideWords(dividend, fixed);
    DivIs(WordsValue(dividend[..]), WordsValue(quotient[..]), rem, fixed);
    NeverSaturates(fixed);
    words := Saturate(quotient[..]);
  }

  lemma DividendWords(s: seq<Limb>)
    requires |s| == 9 && s[1] == 0xffff0 && forall j | 0 <= j < 9 && j != 1 :: s[j] == 0
    ensures WordsValue(s) == Scale(0xffff0, 7)
  {
    WordsThenZeros(s, 2, 9);
    WordsSnoc(s, 0);
    WordsSnoc(s, 1);
    assert s[..9] == s;
  }

  lemma NeverSaturates(fixed: Limb)
    requires fixed > 0
    ensures PoolDividend() / fixed < Scale(1, 8)
  {
    assert Scale(1, 8) == 0x1_0000_0000 * Scale(1, 7);
    ScaleTimes(0xffff0, 1, 7);
    OverAtMost(PoolDividend(), fixed);
  }

  lemma OverAtMost(n: nat, d: nat)
    requires d > 0
    ensures n / d <= n
  {
    var q := Over(n, d);
    assert n == q * d + n % d;
    MulMonotone(1, d, q);
  }
}
