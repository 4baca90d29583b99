/**
Bech32 and Bech32m strings (BIP 173 and BIP 350): a human-readable part, a separator, and
data with a checksum, both in an alphabet of 32 characters.
*/
module Bech32 {
  import opened Bits
  import opened Xors
  import opened PolyMod

  const SEPARATOR := '1'
  const CHECKSUM_SIZE := 6

  datatype Encoding = Bech32 | Bech32m {
    function Constant(): nat {
      if Bech32? then 1 else 0x2bc830a3
    }
  }

  datatype Decoded = Invalid | Decoded(encoding: Encoding, hrp: string, data: seq<Symbol>)

  predicate IsLower(c: char) {
    'a' <= c <= 'z'
  }

  predicate IsUpper(c: char) {
    'A' <= c <= 'Z'
  }

  function LowerCase(c: char): char {
    if IsUpper(c) then (c as int - 'A' as int + 'a' as int) as char else c
  }

  // The alphabet and its inverse, in which letters of either case have a value.
  function Charset(v: Symbol): char {
    match v
    case 0 => 'q'
    case 1 => 'p'
    case 2 => 'z'
    case 3 => 'r'
    case 4 => 'y'
    case 5 => '9'
    case 6 => 'x'
    case 7 => '8'
    case 8 => 'g'
    case 9 => 'f'
    case 10 => '2'
    case 11 => 't'
    case 12 => 'v'
    case 13 => 'd'
    case 14 => 'w'
    case 15 => '0'
    case 16 => 's'
    case 17 => '3'
    case 18 => 'j'
    case 19 => 'n'
    case 20 => '5'
    case 21 => '4'
    case 22 => 'k'
    case 23 => 'h'
    case 24 => 'c'
    case 25 => 'e'
    case 26 => '6'
    case 27 => 'm'
    case 28 => 'u'
    case 29 => 'a'
    case 30 => '7'
    case _ => 'l'
  }

  function CharsetRev(c: char): int {
    match c
    case 'q' => 0
    case 'Q' => 0
    case 'p' => 1
    case 'P' => 1
    case 'z' => 2
    case 'Z' => 2
    case 'r' => 3
    case 'R' => 3
    case 'y' => 4
    case 'Y' => 4
    case '9' => 5
    case 'x' => 6
    case 'X' => 6
    case '8' => 7
    case 'g' => 8
    case 'G' => 8
    case 'f' => 9
    case 'F' => 9
    case '2' => 10
    case 't' => 11
    case 'T' => 11
    case 'v' => 12
    case 'V' => 12
    case 'd' => 13
    case 'D' => 13
    case 'w' => 14
    case 'W' => 14
    case '0' => 15
    case 's' => 16
    case 'S' => 16
    case '3' => 17
    case 'j' => 18
    case 'J' => 18
    case 'n' => 19
    case 'N' => 19
    case '5' => 20
    case '4' => 21
    case 'k' => 22
    case 'K' => 22
    case 'h' => 23
    case 'H' => 23
    case 'c' => 24
    case 'C' => 24
    case 'e' => 25
    case 'E' => 25
    case '6' => 26
    case 'm' => 27
    case 'M' => 27
    case 'u' => 28
    case 'U' => 28
    case 'a' => 29
    case 'A' => 29
    case '7' => 30
    case 'l' => 31
    case 'L' => 31
    case _ => -1
  }

  lemma RevOfCharset(v: Symbol)
    ensures CharsetRev(Charset(v)) == v && Charset(v) != SEPARATOR
    ensures 33 <= Charset(v) as int <= 126 && !IsUpper(Charset(v))
  {
  }

  lemma CharsetOfRev(c: char)
    requires CharsetRev(c) != -1
    ensures 0 <= CharsetRev(c) < 32 && Charset(CharsetRev(c)) == LowerCase(c) && c != SEPARATOR
  {
  }

  // ----- The checksum -----

  predicate Ascii(s: string) {
    forall i | 0 <= i < |s| :: s[i] as int < 128
  }

  // The human-readable part as symbols: high bits, a zero, low bits.
  function Expand(hrp: string): seq<Symbol>
    requires Ascii(hrp)
  {
    seq(|hrp|, i requires 0 <= i < |hrp| => (hrp[i] as int / 32) as Symbol) + [0] +
    seq(|hrp|, i requires 0 <= i < |hrp| => (hrp[i] as int % 32) as Symbol)
  }

  function Digits(m: nat): seq<Symbol> {
    [m / 0x200_0000 % 32, m / 0x10_0000 % 32, m / 0x8000 % 32, m / 0x400 % 32, m / 0x20 % 32, m % 32]
  }

  const SIX_ZEROS: seq<Symbol> := [0, 0, 0, 0, 0, 0]

  function CreateChecksum(encoding: Encoding, hrp: string, values: seq<Symbol>): seq<Symbol>
    requires Ascii(hrp)
  {
    Digits(Xor(Fold(1, Expand(hrp) + values + SIX_ZEROS), encoding.Constant()))
  }

  predicate Verifies(encoding: Encoding, hrp: string, values: seq<Symbol>)
    requires Ascii(hrp)
  {
    Fold(1, Expand(hrp) + values) == encoding.Constant()
  }

  lemma PackedSnoc(s: seq<Symbol>, i: nat)
    requires i < |s|
    ensures Packed(s[..i + 1]) == Packed(s[..i]) * 32 + s[i]
  {
    assert s[..i + 1][..i] == s[..i];
  }

  lemma SixDigits(m: nat)
    requires m < 0x4000_0000
    ensures m / 0x200_0000 < 32
    ensures m / 0x10_0000 == m / 0x200_0000 * 32 + m / 0x10_0000 % 32
    ensures m / 0x8000 == m / 0x10_0000 * 32 + m / 0x8000 % 32
    ensures m / 0x400 == m / 0x8000 * 32 + m / 0x400 % 32
    ensures m / 0x20 == m / 0x400 * 32 + m / 0x20 % 32
  {
  }

  lemma PackedDigits(m: nat)
    requires m < 0x4000_0000
    ensures Packed(Digits(m)) == m
  {
    var d := Digits(m);
    assert d[..6] == d;
    SixDigits(m);
    PackedSnoc(d, 0);
    PackedSnoc(d, 1);
    PackedSnoc(d, 2);
    PackedSnoc(d, 3);
    PackedSnoc(d, 4);
    PackedSnoc(d, 5);
  }

  // The checksum makes the whole verify.
  lemma ChecksumVerifies(encoding: Encoding, hrp: string, values: seq<Symbol>)
    requires Ascii(hrp)
    ensures Verifies(encoding, hrp, values + CreateChecksum(encoding, hrp, values))
  {
    hide Xor, Fold, Pow2, Digits;
    var s, k := Expand(hrp) + values, encoding.Constant();
    var zeroed := Fold(1, s + SIX_ZEROS);
    var m := Xor(zeroed, k);
    Pow30();
    FoldBound(1, s + SIX_ZEROS);
    XorBound(zeroed, k, 30);
    PackedDigits(m);
    var check := Digits(m);
    assert |check| == 6 by {
      SixOf(m);
    }
    ShortIsPacked(check);
    FoldConcat(1, s, SIX_ZEROS);
    FoldConcat(1, s, check);
    XorWithZeros(check);
    FoldLinear(Fold(1, s), 0, SIX_ZEROS, check);
    XorSelf(Fold(1, s));
    XorTwice(zeroed, k);
    assert Expand(hrp) + (values + check) == s + check;
  }

  lemma SixOf(m: nat)
    ensures |Digits(m)| == 6
  {
  }

  lemma XorWithZeros(t: seq<Symbol>)
    requires |t| == 6
    ensures XorAll(SIX_ZEROS, t) == t
  {
    hide Xor;
    forall i | 0 <= i < 6 ensures SymbolXor(SIX_ZEROS[i], t[i]) == t[i] {
      XorSelf(t[i]);
    }
  }

  lemma XorTwice(a: nat, b: nat)
    ensures Xor(a, Xor(a, b)) == b
  {
    hide Xor;
    XorSelf(a);
    XorSelf(b);
    Xor4(a, 0, a, b);
    XorSelf(Xor(a, a));
  }

  // Two words with a good checksum that differ in at most six consecutive symbols are equal.
  lemma BurstDetected(encoding: Encoding, hrp: string, v: seq<Symbol>, w: seq<Symbol>, a: nat)
    requires Ascii(hrp) && |v| == |w| && Verifies(encoding, hrp, v) && Verifies(encoding, hrp, w)
    requires forall i | 0 <= i < |v| :: i < a || i >= a + 6 ==> v[i] == w[i]
    ensures v == w
  {
    hide Xor, Fold;
    var s, e := Expand(hrp), XorAll(v, w);
    var c := Fold(1, s);
    FoldConcat(1, s, v);
    FoldConcat(1, s, w);
    FoldLinear(c, c, v, w);
    XorSelf(c);
    XorSelf(encoding.Constant());
    forall i | 0 <= i < |e| && (i < a || i >= a + 6) ensures e[i] == 0 {
      XorSelf(v[i]);
    }
    BurstFelt(e, a);
    forall i | 0 <= i < |v| ensures v[i] == w[i] {
      assert e[i] == Xor(v[i], w[i]);
      XorZero(v[i], w[i]);
    }
  }

  // ----- Strings -----

  function Chars(values: seq<Symbol>): string {
    seq(|values|, i requires 0 <= i < |values| => Charset(values[i]))
  }

  function EncodeSpec(encoding: Encoding, hrp: string, values: seq<Symbol>): string
    requires Ascii(hrp)
  {
    hrp + [SEPARATOR] + Chars(values + CreateChecksum(encoding, hrp, values))
  }

  predicate Printable(str: string) {
    forall i | 0 <= i < |str| :: 33 <= str[i] as int <= 126
  }

  ghost predicate MixedCase(str: string) {
    (exists i | 0 <= i < |str| :: IsLower(str[i])) && (exists i | 0 <= i < |str| :: IsUpper(str[i]))
  }

  // The position of the last separator, or -1.
  function LastSeparator(str: string): (pos: int)
    ensures -1 <= pos < |str|
    ensures pos >= 0 ==> str[pos] == SEPARATOR
    ensures forall i | pos < i < |str| :: str[i] != SEPARATOR
  {
    if str == [] then -1
    else if str[|str| - 1] == SEPARATOR then |str| - 1
    else LastSeparator(str[..|str| - 1])
  }

  function Lowered(str: string): (r: string)
    ensures |r| == |str|
  {
    seq(|str|, i requires 0 <= i < |str| => LowerCase(str[i]))
  }

  predicate InAlphabet(str: string) {
    forall i | 0 <= i < |str| :: CharsetRev(str[i]) != -1
  }

  function Symbols(str: string): (s: seq<Symbol>)
    requires InAlphabet(str)
    ensures |s| == |str|
  {
    seq(|str|, i requires 0 <= i < |str| => CharsetOfRev(str[i]); CharsetRev(str[i]) as Symbol)
  }

  lemma LoweredAscii(str: string)
    requires Printable(str)
    ensures Ascii(Lowered(str))
  {
  }

  function Checked(hrp: string, values: seq<Symbol>): Decoded
    requires Ascii(hrp) && |values| >= CHECKSUM_SIZE
  {
    var data := values[..|values| - CHECKSUM_SIZE];
    if Verifies(Bech32, hrp, values) then Decoded(Bech32, hrp, data)
    else if Verifies(Bech32m, hrp, values) then Decoded(Bech32m, hrp, data)
    else Invalid
  }

  ghost function DecodeSpec(str: string, limit: nat): Decoded {
    if !Printable(str) || MixedCase(str) then Invalid
    else
      var pos := LastSeparator(str);
      if |str| > limit || pos <= 0 || pos + CHECKSUM_SIZE >= |str| then Invalid
      else if !InAlphabet(str[pos + 1..]) then Invalid
      else
        LoweredAscii(str[..pos]);
        Checked(Lowered(str[..pos]), Symbols(str[pos + 1..]))
  }

  // A human-readable part that may be encoded.
  ghost predicate Legal(hrp: string) {
    hrp != [] && Printable(hrp) && forall i | 0 <= i < |hrp| :: !IsUpper(hrp[i])
  }

  lemma SymbolsOfChars(values: seq<Symbol>)
    ensures InAlphabet(Chars(values)) && Symbols(Chars(values)) == values
  {
    forall i | 0 <= i < |values| ensures CharsetRev(Chars(values)[i]) == values[i] {
      RevOfCharset(values[i]);
    }
  }

  // The last separator of an encoded string is the one the encoder put there.
  lemma {:induction false} SeparatorFound(hrp: string, tail: string)
    requires forall i | 0 <= i < |tail| :: tail[i] != SEPARATOR
    ensures LastSeparator(hrp + [SEPARATOR] + tail) == |hrp|
    decreases |tail|
  {
    var str, n := hrp + [SEPARATOR] + tail, |tail| - 1;
    if tail != [] {
      SeparatorFound(hrp, tail[..n]);
      assert str[..|str| - 1] == hrp + [SEPARATOR] + tail[..n];
      assert str[|str| - 1] == tail[n];
    } else {
      assert str == hrp + [SEPARATOR];
    }
  }

  lemma LoweredLegal(hrp: string)
    requires Legal(hrp)
    ensures Lowered(hrp) == hrp && Ascii(hrp)
  {
  }

  // Everything an encoder may be given comes back.
  lemma DecodeEncode(encoding: Encoding, hrp: string, values: seq<Symbol>, limit: nat)
    requires Legal(hrp) && |hrp| + 1 + |values| + CHECKSUM_SIZE <= limit
    ensures Ascii(hrp) && DecodeSpec(EncodeSpec(encoding, hrp, values), limit) == Decoded(encoding, hrp, values)
  {
    hide Charset, CharsetRev, Verifies, CreateChecksum;
    LoweredLegal(hrp);
    ChecksumSize(encoding, hrp, values);
    var check := CreateChecksum(encoding, hrp, values);
    var all := values + check;
    var tail := Chars(all);
    var str := hrp + [SEPARATOR] + tail;
    forall i | 0 <= i < |tail|
      ensures tail[i] != SEPARATOR && 33 <= tail[i] as int <= 126 && !IsUpper(tail[i])
    {
      RevOfCharset(all[i]);
    }
    assert forall i | 0 <= i < |str| ::
        str[i] == if i < |hrp| then hrp[i] else if i == |hrp| then SEPARATOR else tail[i - |hrp| - 1];
    SeparatorFound(hrp, tail);
    assert str[..|hrp|] == hrp && str[|hrp| + 1..] == tail;
    SymbolsOfChars(all);
    ChecksumVerifies(encoding, hrp, values);
    OneEncoding(encoding, hrp, all);
    assert all[..|all| - CHECKSUM_SIZE] == values;
  }

  lemma ChecksumSize(encoding: Encoding, hrp: string, values: seq<Symbol>)
    requires Ascii(hrp)
    ensures |CreateChecksum(encoding, hrp, values)| == CHECKSUM_SIZE
  {
  }

  // The two constants differ, so a word verifies as one encoding only.
  lemma OneEncoding(encoding: Encoding, hrp: string, values: seq<Symbol>)
    requires Ascii(hrp) && |values| >= CHECKSUM_SIZE && Verifies(encoding, hrp, values)
    ensures Checked(hrp, values) == Decoded(encoding, hrp, values[..|values| - CHECKSUM_SIZE])
  {
  }

  // The checksum that verifies is the one the encoder makes.
  lemma ChecksumUnique(encoding: Encoding, hrp: string, values: seq<Symbol>)
    requires Ascii(hrp) && |values| >= CHECKSUM_SIZE && Verifies(encoding, hrp, values)
    ensures var data := values[..|values| - CHECKSUM_SIZE];
            values == data + CreateChecksum(encoding, hrp, data)
  {
    hide Verifies, CreateChecksum;
    var n := |values| - CHECKSUM_SIZE;
    var data := values[..n];
    ChecksumSize(encoding, hrp, data);
    ChecksumVerifies(encoding, hrp, data);
    BurstDetected(encoding, hrp, values, data + CreateChecksum(encoding, hrp, data), n);
  }

  // And whatever decodes is, in lower case, what the encoder makes of the result.
  lemma EncodeDecode(str: string, limit: nat)
    requires DecodeSpec(str, limit).Decoded?
    ensures var d := DecodeSpec(str, limit);
            Ascii(d.hrp) && EncodeSpec(d.encoding, d.hrp, d.data) == Lowered(str)
  {
    hide Charset, CharsetRev, Verifies, CreateChecksum;
    var pos, d := LastSeparator(str), DecodeSpec(str, limit);
    var values, hrp := Symbols(str[pos + 1..]), Lowered(str[..pos]);
    LoweredAscii(str[..pos]);
    assert Verifies(d.encoding, hrp, values);
    ChecksumUnique(d.encoding, hrp, values);
    var r := hrp + [SEPARATOR] + Chars(values);
    forall i | 0 <= i < |str| ensures r[i] == LowerCase(str[i]) {
      if i > pos {
        CharsetOfRev(str[pos + 1..][i - pos - 1]);
      }
    }
    assert r == Lowered(str);
  }

  // The symbols of a string that decodes, checksum included.
  lemma DecodedSymbols(str: string, limit: nat) returns (values: seq<Symbol>)
    requires DecodeSpec(str, limit).Decoded?
    ensures var d := DecodeSpec(str, limit);
            && Ascii(d.hrp) && Verifies(d.encoding, d.hrp, values)
            && Lowered(str) == d.hrp + [SEPARATOR] + Chars(values)
  {
    hide Charset, CharsetRev, CreateChecksum;
    var pos := LastSeparator(str);
    values := Symbols(str[pos + 1..]);
    LoweredAscii(str[..pos]);
    var r := Lowered(str[..pos]) + [SEPARATOR] + Chars(values);
    forall i | 0 <= i < |str| ensures r[i] == LowerCase(str[i]) {
      if i > pos {
        CharsetOfRev(str[pos + 1..][i - pos - 1]);
      }
    }
    assert r == Lowered(str);
  }

  // Changing up to six consecutive characters of the data never gives another good string
  // of the same encoding, at any length.
  lemma StringBurst(s: string, t: string, limit: nat, a: nat)
    requires DecodeSpec(s, limit).Decoded? && DecodeSpec(t, limit).Decoded? && |s| == |t|
    requires DecodeSpec(s, limit).encoding == DecodeSpec(t, limit).encoding
    requires DecodeSpec(s, limit).hrp == DecodeSpec(t, limit).hrp
    requires forall i | 0 <= i < |s| :: i < a || i >= a + 6 ==> LowerCase(s[i]) == LowerCase(t[i])
    ensures Lowered(s) == Lowered(t) && DecodeSpec(s, limit) == DecodeSpec(t, limit)
  {
    hide DecodeSpec, Charset, CharsetRev, Verifies;
    var d := DecodeSpec(s, limit);
    var v := DecodedSymbols(s, limit);
    var w := DecodedSymbols(t, limit);
    var k := |d.hrp| + 1;
    forall i | 0 <= i < |v| && (i + k < a || i + k >= a + 6) ensures v[i] == w[i] {
      assert Lowered(s)[i + k] == Charset(v[i]) && Lowered(t)[i + k] == Charset(w[i]);
      RevOfCharset(v[i]);
      RevOfCharset(w[i]);
    }
    BurstDetected(d.encoding, d.hrp, v, w, if a < k then 0 else a - k);
    EncodeDecode(s, limit);
    EncodeDecode(t, limit);
    DataEqual(d.encoding, d.hrp, d.data, DecodeSpec(t, limit).data);
  }

  lemma DataEqual(encoding: Encoding, hrp: string, x: seq<Symbol>, y: seq<Symbol>)
    requires Ascii(hrp) && EncodeSpec(encoding, hrp, x) == EncodeSpec(encoding, hrp, y)
    ensures x == y
  {
    hide Charset, CharsetRev, CreateChecksum;
    ChecksumSize(encoding, hrp, x);
    ChecksumSize(encoding, hrp, y);
    var k := |hrp| + 1;
    forall i | 0 <= i < |x| ensures x[i] == y[i] {
      assert EncodeSpec(encoding, hrp, x)[i + k] == Charset(x[i]);
      assert EncodeSpec(encoding, hrp, y)[i + k] == Charset(y[i]);
      RevOfCharset(x[i]);
      RevOfCharset(y[i]);
    }
  }

  // ----- The program's loops -----

  // Positions of characters that may not be there.
  method CheckCharacters(str: string) returns (errors: seq<nat>)
    ensures errors == [] <==> Printable(str) && !MixedCase(str)
  {
    errors := [];
    var lower, upper := false, false;
    for i := 0 to |str|
      invariant errors == [] ==> Printable(str[..i]) && !(lower && upper)
      invariant errors == [] ==> (lower <==> exists j | 0 <= j < i :: IsLower(str[j]))
      invariant errors == [] ==> (upper <==> exists j | 0 <= j < i :: IsUpper(str[j]))
      invariant errors != [] ==> !Printable(str) || MixedCase(str)
    {
      var c := str[i];
      if IsLower(c) {
        if upper {
          errors := errors + [i];
        } else {
          lower := true;
        }
      } else if IsUpper(c) {
        if lower {
          errors := errors + [i];
        } else {
          upper := true;
        }
      } else if c as int < 33 || c as int > 126 {
        errors := errors + [i];
      }
    }
    assert str[..|str|] == str;
  }

  // What the i-th group of five bits counts.
  function Unit(i: nat): nat
    requires i < CHECKSUM_SIZE
  {
    [0x200_0000, 0x10_0000, 0x8000, 0x400, 0x20, 1][i]
  }

  lemma DigitAt(m: nat, i: nat)
    requires i < CHECKSUM_SIZE
    ensures Unit(i) > 0 && Digits(m)[i] == m / Unit(i) % 32
  {
  }

  method CreateChecksumOf(encoding: Encoding, hrp: string, values: seq<Symbol>) returns (r: seq<Symbol>)
    requires Ascii(hrp)
    ensures r == CreateChecksum(encoding, hrp, values)
  {
    hide Xor, Fold, Digits, Unit;
    var c := PolyMod.PolyMod(Expand(hrp) + values + SIX_ZEROS);
    var m := Xor(c, encoding.Constant());
    SixOf(m);
    r := [];
    for i := 0 to CHECKSUM_SIZE
      invariant r == Digits(m)[..i]
    {
      DigitAt(m, i);
      r := r + [(m / Unit(i) % 32) as Symbol];
    }
    assert Digits(m)[..6] == Digits(m);
  }

  method Encode(encoding: Encoding, hrp: string, values: seq<Symbol>) returns (r: string)
    requires Ascii(hrp) && forall i | 0 <= i < |hrp| :: !IsUpper(hrp[i])
    ensures r == EncodeSpec(encoding, hrp, values)
  {
    r := hrp + [SEPARATOR];
    var check := CreateChecksumOf(encoding, hrp, values);
    var all := values + check;
    for i := 0 to |all|
      invariant r == hrp + [SEPARATOR] + Chars(all[..i])
    {
      assert Chars(all[..i + 1]) == Chars(all[..i]) + [Charset(all[i])];
      r := r + [Charset(all[i])];
    }
    assert all[..|all|] == all;
  }

  method ReadSymbols(str: string) returns (known: bool, values: seq<Symbol>)
    ensures known <==> InAlphabet(str)
    ensures known ==> values == Symbols(str)
  {
    hide Charset, CharsetRev;
    values := [];
    for i := 0 to |str|
      invariant InAlphabet(str[..i]) && values == Symbols(str[..i])
    {
      var rev := CharsetRev(str[i]);
      if rev == -1 {
        return false, values;
      }
      CharsetOfRev(str[i]);
      SymbolsSnoc(str, i);
      values := values + [rev as Symbol];
    }
    assert str[..|str|] == str;
    known := true;
  }

  lemma SymbolsSnoc(str: string, i: nat)
    requires i < |str| && InAlphabet(str[..i]) && CharsetRev(str[i]) != -1
    ensures InAlphabet(str[..i + 1]) && 0 <= CharsetRev(str[i]) < 32
    ensures Symbols(str[..i + 1]) == Symbols(str[..i]) + [CharsetRev(str[i]) as Symbol]
  {
    hide Charset, CharsetRev;
    CharsetOfRev(str[i]);
    assert str[..i + 1] == str[..i] + [str[i]];
  }

  method ToLower(str: string) returns (r: string)
    ensures r == Lowered(str)
  {
    r := "";
    for i := 0 to |str|
      invariant r == Lowered(str[..i])
    {
      assert Lowered(str[..i + 1]) == Lowered(str[..i]) + [LowerCase(str[i])];
      r := r + [LowerCase(str[i])];
    }
    assert str[..|str|] == str;
  }

  method Decode(str: string, limit: nat) returns (d: Decoded)
    ensures d == DecodeSpec(str, limit)
  {
    hide Charset, CharsetRev, Fold;
    var errors := CheckCharacters(str);
    if errors != [] {
      return Invalid;
    }
    var pos := LastSeparator(str);
    if |str| > limit {
      return Invalid;
    }
    if pos == -1 || pos == 0 || pos + CHECKSUM_SIZE >= |str| {
      return Invalid;
    }
    var known, values := ReadSymbols(str[pos + 1..]);
    if !known {
      return Invalid;
    }
    var hrp := ToLower(str[..pos]);
    LoweredAscii(str[..pos]);
    var c := PolyMod.PolyMod(Expand(hrp) + values);
    var data := values[..|values| - CHECKSUM_SIZE];
    if c == Bech32.Constant() {
      return Decoded(Bech32, hrp, data);
    }
    if c == Bech32m.Constant() {
      return Decoded(Bech32m, hrp, data);
    }
    return Invalid;
  }
}
