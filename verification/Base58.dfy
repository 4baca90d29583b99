/**
 * Base 58: EncodeBase58 and DecodeBase58 convert between bytes and characters in place, in
 * a buffer whose size is estimated beforehand, multiplying by one base and adding a digit
 * in the other. Both are proved against the arithmetic they stand for.
 */
module Base58 {
  import opened Bits
  import opened Options
  import opened Radix

  // ----- Characters -----

  function Character(d: nat): char
    requires d < 58
  {
    if d < 9 then (d + 49) as char
    else if d < 17 then (d + 56) as char
    else if d < 22 then (d + 57) as char
    else if d < 33 then (d + 58) as char
    else if d < 44 then (d + 64) as char
    else (d + 65) as char
  }

  function MapBase58(c: char): int {
    if '1' <= c <= '9' then c as int - 49
    else if 'A' <= c <= 'H' then c as int - 56
    else if 'J' <= c <= 'N' then c as int - 57
    else if 'P' <= c <= 'Z' then c as int - 58
    else if 'a' <= c <= 'k' then c as int - 64
    else if 'm' <= c <= 'z' then c as int - 65
    else -1
  }

  predicate IsSpace(c: char) {
    c == ' ' || c == '\U{0C}' || c == '\n' || c == '\r' || c == '\t' || c == '\U{0B}'
  }

  predicate Readable(s: string) {
    forall i | 0 <= i < |s| :: MapBase58(s[i]) != -1
  }

  function Write(digits: seq<nat>): (s: string)
    requires InBase(58, digits)
  {
    seq(|digits|, i requires 0 <= i < |digits| => Character(digits[i]))
  }

  function Read(s: string): (digits: seq<nat>)
    requires Readable(s)
  {
    seq(|s|, i requires 0 <= i < |s| => MapBase58(s[i]) as nat)
  }

  lemma ReadWrite(digits: seq<nat>)
    requires InBase(58, digits)
    ensures Readable(Write(digits)) && Read(Write(digits)) == digits
    ensures forall i | 0 <= i < |digits| :: Write(digits)[i] != '\0' && !IsSpace(Write(digits)[i])
  {
  }

  predicate Alphanumeric(c: char) {
    '0' <= c <= '9' || 'A' <= c <= 'Z' || 'a' <= c <= 'z'
  }

  // The alphabet is the digits and letters in their order, without 0, O, I and l.
  lemma Alphabet(c: char)
    ensures (exists d: nat | d < 58 :: Character(d) == c) <==> Alphanumeric(c) && c !in {'0', 'O', 'I', 'l'}
    ensures forall d: nat, e: nat | d < e < 58 :: Character(d) < Character(e)
  {
    if Alphanumeric(c) && c !in {'0', 'O', 'I', 'l'} {
      var d: nat := MapBase58(c);
      assert d < 58 && Character(d) == c;
    }
  }

  lemma WriteRead(s: string)
    requires Readable(s)
    ensures InBase(58, Read(s)) && Write(Read(s)) == s
  {
  }

  // ----- What the two functions compute -----

  function LeadingZeros(s: seq<nat>): (k: nat)
    ensures k <= |s| && (forall i | 0 <= i < k :: s[i] == 0) && (k < |s| ==> s[k] != 0)
  {
    if s == [] || s[0] != 0 then 0 else 1 + LeadingZeros(s[1..])
  }

  function Spaces(s: string): (k: nat)
    ensures k <= |s| && (forall i | 0 <= i < k :: IsSpace(s[i])) && (k < |s| ==> !IsSpace(s[k]))
  {
    if s == [] || !IsSpace(s[0]) then 0 else 1 + Spaces(s[1..])
  }

  function WordLength(s: string): (k: nat)
    ensures k <= |s| && (forall i | 0 <= i < k :: !IsSpace(s[i])) && (k < |s| ==> IsSpace(s[k]))
  {
    if s == [] || IsSpace(s[0]) then 0 else 1 + WordLength(s[1..])
  }

  function Zeros(k: nat): (s: seq<nat>)
    ensures |s| == k
  {
    seq(k, _ => 0)
  }

  // The same number in another base, with as many leading zeros.
  function Rebase(from: nat, to: nat, s: seq<nat>): (r: seq<nat>)
    requires to > 1
  {
    Zeros(LeadingZeros(s)) + Digits(to, Value(from, s))
  }

  lemma RebaseInBase(from: nat, to: nat, s: seq<nat>)
    requires to > 1
    ensures InBase(to, Rebase(from, to, s))
  {
    DigitsMean(to, Value(from, s));
  }

  // A number after k zeros, and what is found in it again.
  lemma ZerosThen(b: nat, k: nat, s: seq<nat>)
    requires s != [] ==> s[0] > 0
    ensures LeadingZeros(Zeros(k) + s) == k && Value(b, Zeros(k) + s) == Value(b, s)
  {
    hide Value, LeadingZeros;
    var t := Zeros(k) + s;
    assert t[k..] == s;
    ValuePastZeros(b, t, k);
    assert k < |t| ==> t[k] == s[0];
  }

  // Changing the base and back is the identity, zeros included.
  lemma RebaseBack(from: nat, to: nat, s: seq<nat>)
    requires from > 1 && to > 1 && InBase(from, s)
    ensures Rebase(to, from, Rebase(from, to, s)) == s
  {
    hide Value, Digits, LeadingZeros, Zeros;
    var k := LeadingZeros(s);
    var n := Value(from, s);
    assert Digits(from, n) == s[k..] by {
      ValuePastZeros(from, s, k);
      DigitsUnique(from, s[k..]);
    }
    assert n == 0 ==> Digits(to, n) == [] by {
      NoDigits(to);
    }
    DigitsMean(to, n);
    ZerosThen(to, k, Digits(to, n));
    AllZeros(s, k);
  }

  lemma NoDigits(b: nat)
    requires b > 1
    ensures Digits(b, 0) == []
  {
  }

  lemma AllZeros(s: seq<nat>, k: nat)
    requires k <= |s| && forall i | 0 <= i < k :: s[i] == 0
    ensures s == Zeros(k) + s[k..]
  {
  }

  function EncodeSpec(input: seq<Byte>): (s: string) {
    RebaseInBase(256, 58, input);
    Write(Rebase(256, 58, input))
  }

  function Word(str: string): (w: string) {
    var s := str[Spaces(str)..];
    s[..WordLength(s)]
  }

  predicate OneWord(str: string) {
    var s := str[Spaces(str)..];
    var n := WordLength(s);
    '\0' !in str && Spaces(s[n..]) == |s| - n
  }

  function DecodeSpec(str: string, maxLength: int): (r: Option<seq<nat>>) {
    var w := Word(str);
    if OneWord(str) && Readable(w) then
      var bytes := Rebase(58, 256, Read(w));
      if bytes == [] || |bytes| <= maxLength then Some(bytes) else None
    else None
  }

  lemma EncodedIsWord(input: seq<Byte>)
    ensures Word(EncodeSpec(input)) == EncodeSpec(input) && OneWord(EncodeSpec(input))
  {
    RebaseInBase(256, 58, input);
    var digits := Rebase(256, 58, input);
    ReadWrite(digits);
    var s := EncodeSpec(input);
    assert Spaces(s) == 0;
    assert s[0..] == s;
    assert WordLength(s) == |s|;
    assert s[|s|..] == [];
  }

  // What was encoded is decoded again, up to the limit on its length.
  lemma DecodeEncode(input: seq<Byte>, maxLength: int)
    ensures DecodeSpec(EncodeSpec(input), maxLength)
         == if input == [] || |input| <= maxLength then Some(input) else None
  {
    EncodedIsWord(input);
    RebaseInBase(256, 58, input);
    ReadWrite(Rebase(256, 58, input));
    RebaseBack(256, 58, input);
  }

  // Whatever is decoded, its encoding is the word that was read: no two words stand for the
  // same bytes.
  lemma EncodeDecode(str: string, maxLength: int)
    requires DecodeSpec(str, maxLength).Some?
    ensures InBase(256, DecodeSpec(str, maxLength).value)
    ensures EncodeSpec(DecodeSpec(str, maxLength).value) == Word(str)
  {
    var w := Word(str);
    WriteRead(w);
    RebaseInBase(58, 256, Read(w));
    RebaseBack(58, 256, Read(w));
  }

  // ----- The buffer -----

  // The last `length` places of the buffer are exactly the digits of v; the rest are zero.
  ghost predicate Holds(b: nat, s: seq<nat>, length: nat, v: nat)
    requires b > 1
  {
    length <= |s| && (forall i | 0 <= i < |s| - length :: s[i] == 0) && s[|s| - length..] == Digits(b, v)
  }

  lemma PlaceArithmetic(b: nat, p: nat, mul: nat, add: nat, carry: nat, digit: nat, q: nat, r: nat, x: nat, y: nat)
    requires q * b + r == carry + mul * digit && x + carry * p == mul * y + add
    ensures r * p + x + q * (b * p) == mul * (digit * p + y) + add
  {
    var qb, md := q * b, mul * digit;
    assert q * (b * p) == qb * p by {
      MulAssoc(q, b, p);
    }
    assert mul * (digit * p + y) == md * p + mul * y by {
      Distribute(digit * p, y, mul);
      MulAssoc(mul, digit, p);
    }
    Distribute(qb, r, p);
    Distribute(carry, md, p);
  }

  // One place of the multiplication: the new digit and carry stand for the old sum.
  lemma PlaceAdds(b: nat, mul: nat, add: nat, carry: nat, sum: nat, digit: nat, was: seq<nat>, now: seq<nat>)
    requires b > 1 && sum == carry + mul * digit && |was| == |now|
    requires Value(b, now) + carry * Pow(b, |now|) == mul * Value(b, was) + add
    ensures 0 <= sum % b && 0 <= sum / b
    ensures Value(b, [sum % b] + now) + sum / b * Pow(b, |now| + 1) == mul * Value(b, [digit] + was) + add
  {
    hide Value;
    QuotientLess(sum, b);
    PlaceArithmetic(b, Pow(b, |now|), mul, add, carry, digit, sum / b, sum % b, Value(b, now), Value(b, was));
    ValueFront(b, sum % b, now);
    ValueFront(b, digit, was);
  }

  // At the end of the buffer nothing is carried over if the number fits.
  lemma NothingCarried(b: nat, s: seq<nat>, carry: nat, total: nat)
    requires Value(b, s) + carry * Pow(b, |s|) == total < Pow(b, |s|)
    ensures carry == 0
  {
    if carry > 0 {
      MulMonotone(1, carry, Pow(b, |s|));
    }
  }

  lemma HeldValue(b: nat, s: seq<nat>, length: nat, v: nat, k: nat)
    requires b > 1 && Holds(b, s, length, v) && length <= k <= |s|
    ensures Value(b, s[|s| - k..]) == v
  {
    hide Value, Digits;
    var t := s[|s| - k..];
    ValuePastZeros(b, t, k - length);
    assert t[k - length..] == s[|s| - length..];
    DigitsMean(b, v);
  }

  lemma HeldTop(b: nat, s: seq<nat>, length: nat, v: nat)
    requires b > 1 && Holds(b, s, length, v) && length > 0
    ensures s[|s| - length] > 0
  {
    hide Value, Digits;
    DigitsMean(b, v);
    NoDigits(b);
    assert s[|s| - length] == s[|s| - length..][0];
  }

  // The multiplication after i places.
  ghost predicate Partial(b: nat, mul: nat, add: nat, length: nat, was: seq<nat>, now: seq<nat>, i: nat, carry: nat) {
    && |now| == |was| && i <= |was|
    && now[..|was| - i] == was[..|was| - i]
    && InBase(b, now[|was| - i..])
    && Value(b, now[|was| - i..]) + carry * Pow(b, i) == mul * Value(b, was[|was| - i..]) + add
    && (carry == 0 && i >= length && i > 0 ==> now[|was| - i] > 0)
  }

  lemma PartialStep(b: nat, mul: nat, add: nat, length: nat, v: nat, was: seq<nat>, now: seq<nat>, i: nat, carry: nat,
                    sum: nat)
    requires b > 1 && mul > 0 && i < |was| && Holds(b, was, length, v) && (carry != 0 || i < length)
    requires Partial(b, mul, add, length, was, now, i, carry)
    requires sum == carry + mul * now[|was| - i - 1]
    ensures 0 <= sum % b && 0 <= sum / b
    ensures Partial(b, mul, add, length, was, now[|was| - i - 1 := sum % b], i + 1, sum / b)
  {
    hide Value, Digits, Pow, Holds;
    var k := |was| - i - 1;
    var next := now[k := sum % b];
    assert now[k] == now[..k + 1][k] == was[..k + 1][k];
    if i + 1 == length {
      HeldTop(b, was, length, v);
    }
    PlaceAdds(b, mul, add, carry, sum, was[k], was[k + 1..], now[k + 1..]);
    PlaceTop(carry, mul, was[k], sum, b);
    assert was[k..] == [was[k]] + was[k + 1..];
    assert next[k..] == [sum % b] + now[k + 1..];
    assert next[..k] == now[..k + 1][..k] == was[..k + 1][..k];
    assert was[..k + 1][..k] == was[..k];
  }

  lemma PartialValue(b: nat, mul: nat, add: nat, length: nat, v: nat, was: seq<nat>, now: seq<nat>, i: nat, carry: nat,
                     total: nat)
    requires b > 1 && Holds(b, was, length, v) && total == mul * v + add && total < Pow(b, |was|)
    requires Partial(b, mul, add, length, was, now, i, carry) && i >= length
    ensures i == |was| ==> carry == 0
    ensures carry == 0 ==> Value(b, now[|was| - i..]) == total
  {
    hide Value, Pow, Holds;
    HeldValue(b, was, length, v, i);
    if i == |was| {
      NothingCarried(b, now[0..], carry, total);
    }
  }

  lemma PartialEnd(b: nat, mul: nat, add: nat, length: nat, v: nat, was: seq<nat>, now: seq<nat>, i: nat, carry: nat,
                   total: nat)
    requires b > 1 && Holds(b, was, length, v) && total == mul * v + add && total < Pow(b, |was|)
    requires Partial(b, mul, add, length, was, now, i, carry)
    requires i == |was| || (carry == 0 && i >= length)
    ensures carry == 0 && Holds(b, now, i, total)
  {
    hide Value, Digits, Pow, Partial, Holds;
    HeldWithin(b, was, length, v);
    PartialValue(b, mul, add, length, v, was, now, i, carry, total);
    PartialDigits(b, mul, add, length, was, now, i);
    HeldNow(b, was, length, v, now, i, total);
  }

  lemma HeldWithin(b: nat, s: seq<nat>, length: nat, v: nat)
    requires b > 1 && Holds(b, s, length, v)
    ensures length <= |s|
  {
  }

  lemma HeldNow(b: nat, was: seq<nat>, length: nat, v: nat, now: seq<nat>, i: nat, total: nat)
    requires b > 1 && Holds(b, was, length, v) && |now| == |was| && length <= i <= |was|
    requires InBase(b, now[|was| - i..]) && (i > 0 ==> now[|was| - i] > 0) && Value(b, now[|was| - i..]) == total
    requires forall j | 0 <= j < |was| - i :: now[j] == was[j]
    ensures Holds(b, now, i, total)
  {
    hide Value, Digits;
    DigitsUnique(b, now[|was| - i..]);
  }

  lemma PartialDigits(b: nat, mul: nat, add: nat, length: nat, was: seq<nat>, now: seq<nat>, i: nat)
    requires Partial(b, mul, add, length, was, now, i, 0) && length <= i
    ensures |now| == |was| && i <= |was| && InBase(b, now[|was| - i..]) && (i > 0 ==> now[|was| - i] > 0)
    ensures forall j | 0 <= j < |was| - i :: now[j] == was[j]
  {
    hide Value, Pow;
    var k := |was| - i;
    assert forall j | 0 <= j < k :: now[j] == now[..k][j] == was[..k][j];
  }

  // buffer = buffer * mul + add, from the last place on, stopping when nothing is carried
  // and the places in use are done. Nothing may be left over.
  method MulAdd(a: array<nat>, length: nat, mul: nat, add: nat, b: nat, ghost v: nat, ghost total: nat)
    returns (used: nat)
    requires b > 1 && mul > 0 && Holds(b, a[..], length, v) && total == mul * v + add && total < Pow(b, a.Length)
    modifies a
    ensures Holds(b, a[..], used, total)
  {
    hide Value, Digits, Pow, Partial, Holds;
    var size := a.Length;
    var carry: nat, i := add, 0;
    ghost var was := a[..];
    PartialStart(b, was, mul, add, length);
    while (carry != 0 || i < length) && i < size
      invariant 0 <= i <= size
      invariant Partial(b, mul, add, length, was, a[..], i, carry)
    {
      ghost var now := a[..];
      var k := size - i - 1;
      var sum: nat := carry + mul * a[k];
      PartialStep(b, mul, add, length, v, was, now, i, carry, sum);
      var digit: nat := sum % b;
      a[k] := digit;
      carry := sum / b;
      i := i + 1;
      assert a[..] == now[k := digit];
    }
    used := i;
    PartialEnd(b, mul, add, length, v, was, a[..], i, carry, total);
    assert carry == 0;
  }

  lemma PartialStart(b: nat, s: seq<nat>, mul: nat, add: nat, length: nat)
    ensures Partial(b, mul, add, length, s, s, 0, add)
  {
    assert s[|s|..] == [];
  }

  lemma PlaceTop(carry: nat, mul: nat, digit: nat, sum: nat, b: nat)
    requires b > 1 && mul > 0 && sum == carry + mul * digit
    ensures 0 <= sum % b < b && 0 <= sum / b
    ensures sum / b == 0 && (carry > 0 || digit > 0) ==> sum % b > 0
  {
    QuotientLess(sum, b);
    if digit > 0 {
      MulStrict(0, digit, mul);
    }
  }

  // ----- Encoding -----

  lemma WriteNext(s: seq<nat>, d: nat)
    requires InBase(58, s) && d < 58
    ensures InBase(58, s + [d]) && Write(s + [d]) == Write(s) + [Character(d)]
  {
  }

  lemma WriteZeros(k: nat)
    ensures InBase(58, Zeros(k)) && Write(Zeros(k)) == seq(k, _ => '1')
  {
  }

  // One more byte (or character) of the number to be rebased, and the room it has.
  lemma NextFits(from: nat, to: nat, s: seq<nat>, k: nat, size: nat)
    requires from > 1 && InBase(from, s) && k < |s| && Pow(from, |s|) <= Pow(to, size)
    ensures Value(from, s[..k + 1]) == from * Value(from, s[..k]) + s[k]
    ensures Value(from, s[..k + 1]) < Pow(to, size)
  {
    assert s[..k + 1][..k] == s[..k];
    ValueBound(from, s[..k + 1]);
    PowMonotone(from, k + 1, |s|);
  }

  lemma StartsEmpty(b: nat, from: nat, a: seq<nat>, s: seq<nat>)
    requires b > 1 && forall i | 0 <= i < |a| :: a[i] == 0
    ensures Holds(b, a, 0, Value(from, s[..0]))
  {
    assert a[|a|..] == [];
  }

  lemma HeldDigit(b: nat, s: seq<nat>, length: nat, v: nat, i: nat)
    requires b > 1 && Holds(b, s, length, v) && |s| - length <= i < |s|
    ensures s[i] < b
  {
    DigitsMean(b, v);
    assert s[i] == s[|s| - length..][i - (|s| - length)];
  }

  // Applies buffer = buffer * 256 + byte for each byte.
  method ToBase58(input: seq<Byte>) returns (b58: array<nat>, length: nat)
    ensures fresh(b58) && Holds(58, b58[..], length, Value(256, input))
  {
    hide Value, Digits, Pow, Holds;
    var size := |input| * 138 / 100 + 1;
    BytesFit(|input|);
    b58 := new nat[size](_ => 0);
    length := 0;
    StartsEmpty(58, 256, b58[..], input);
    var done := 0;
    while done < |input|
      invariant done <= |input| && fresh(b58) && b58.Length == size
      invariant Holds(58, b58[..], length, Value(256, input[..done]))
    {
      NextFits(256, 58, input, done, size);
      length := MulAdd(b58, length, 256, input[done], 58, Value(256, input[..done]), Value(256, input[..done + 1]));
      done := done + 1;
    }
    assert input[..done] == input;
  }

  // Writes the digits, after skipping zeros in front of them.
  method Output(zeroes: nat, b58: array<nat>, length: nat, ghost v: nat) returns (str: string)
    requires Holds(58, b58[..], length, v)
    ensures InBase(58, Zeros(zeroes) + Digits(58, v)) && str == Write(Zeros(zeroes) + Digits(58, v))
  {
    hide Value, Digits, Write;
    var size := b58.Length;
    ghost var from := size - length;
    var it := size - length;
    while it < size && b58[it] == 0
      invariant from <= it <= size && forall j | from <= j < it :: b58[j] == 0
    {
      it := it + 1;
    }
    if length > 0 {
      HeldTop(58, b58[..], length, v);
    }
    assert it == from;
    str := seq(zeroes, _ => '1');
    WriteZeros(zeroes);
    assert Zeros(zeroes) + b58[from..from] == Zeros(zeroes);
    while it < size
      invariant from <= it <= size
      invariant InBase(58, Zeros(zeroes) + b58[from..it])
      invariant str == Write(Zeros(zeroes) + b58[from..it])
    {
      HeldDigit(58, b58[..], length, v, it);
      WriteNext(Zeros(zeroes) + b58[from..it], b58[it]);
      assert Zeros(zeroes) + b58[from..it] + [b58[it]] == Zeros(zeroes) + b58[from..it + 1];
      str := str + [Character(b58[it])];
      it := it + 1;
    }
    assert b58[from..it] == b58[..][from..];
  }

  method EncodeBase58(input: seq<Byte>) returns (str: string)
    ensures str == EncodeSpec(input)
  {
    hide Value, Digits, Holds, LeadingZeros, Write;
    var zeroes := 0;
    while zeroes < |input| && input[zeroes] == 0
      invariant zeroes <= |input| && forall i | 0 <= i < zeroes :: input[i] == 0
    {
      zeroes := zeroes + 1;
    }
    assert zeroes == LeadingZeros(input);
    var b58, length := ToBase58(input[zeroes..]);
    ValuePastZeros(256, input, zeroes);
    str := Output(zeroes, b58, length, Value(256, input));
  }

  // ----- Decoding -----

  // What is left to decode after the leading spaces and the leading '1's.
  function BodySpec(t: string, zeroes: nat, maxLength: int): (r: Option<seq<nat>>) {
    var n := WordLength(t);
    if Spaces(t[n..]) == |t| - n && Readable(t[..n]) then
      var bytes := Zeros(zeroes) + Digits(256, Value(58, Read(t[..n])));
      if bytes == [] || |bytes| <= maxLength then Some(bytes) else None
    else None
  }

  lemma OnesRead(w: string, zeroes: nat)
    requires zeroes <= |w| && Readable(w) && forall i | 0 <= i < zeroes :: w[i] == '1'
    ensures Readable(w[zeroes..]) && Read(w)[zeroes..] == Read(w[zeroes..])
    ensures LeadingZeros(Read(w)) >= zeroes
    ensures (zeroes < |w| ==> w[zeroes] != '1') ==> LeadingZeros(Read(w)) == zeroes
    ensures Value(58, Read(w)) == Value(58, Read(w[zeroes..]))
  {
    hide Value, LeadingZeros;
    assert forall i | 0 <= i < zeroes :: Read(w)[i] == 0;
    assert zeroes < |w| && w[zeroes] != '1' ==> Read(w)[zeroes] != 0;
    ValuePastZeros(58, Read(w), zeroes);
    assert Read(w)[zeroes..] == Read(w[zeroes..]);
  }

  lemma {:induction false} WordPast(s: string, zeroes: nat)
    requires zeroes <= |s| && forall i | 0 <= i < zeroes :: s[i] == '1'
    ensures WordLength(s) == zeroes + WordLength(s[zeroes..])
    decreases zeroes
  {
    if zeroes > 0 {
      WordPast(s[1..], zeroes - 1);
      assert s[1..][zeroes - 1..] == s[zeroes..];
    } else {
      assert s[0..] == s;
    }
  }

  lemma SplitWord(s: string, zeroes: nat)
    requires zeroes <= |s| && forall i | 0 <= i < zeroes :: s[i] == '1'
    ensures WordLength(s) == zeroes + WordLength(s[zeroes..])
    ensures s[..WordLength(s)][zeroes..] == s[zeroes..][..WordLength(s[zeroes..])]
    ensures s[WordLength(s)..] == s[zeroes..][WordLength(s[zeroes..])..]
  {
    hide WordLength;
    WordPast(s, zeroes);
  }

  lemma BodyDecides(str: string, s: string, zeroes: nat, maxLength: int)
    requires '\0' !in str && s == str[Spaces(str)..]
    requires zeroes <= |s| && (forall i | 0 <= i < zeroes :: s[i] == '1') && (zeroes < |s| ==> s[zeroes] != '1')
    ensures DecodeSpec(str, maxLength) == BodySpec(s[zeroes..], zeroes, maxLength)
  {
    hide Value, Digits, LeadingZeros, WordLength, Spaces, Readable, Read;
    var t := s[zeroes..];
    var w := s[..WordLength(s)];
    SplitWord(s, zeroes);
    assert Word(str) == w;
    OnesReadable(w, zeroes);
    if Readable(w) {
      OnesRead(w, zeroes);
    }
  }

  lemma OnesReadable(w: string, zeroes: nat)
    requires zeroes <= |w| && forall i | 0 <= i < zeroes :: w[i] == '1'
    ensures Readable(w) <==> Readable(w[zeroes..])
  {
    assert forall i | zeroes <= i < |w| :: w[i] == w[zeroes..][i - zeroes];
  }

  // More '1's than the limit allows: decoding gives up at once.
  lemma TooManyOnes(str: string, s: string, zeroes: nat, maxLength: int)
    requires s == str[Spaces(str)..] && 0 < zeroes <= |s| && maxLength < zeroes
    requires forall i | 0 <= i < zeroes :: s[i] == '1'
    ensures DecodeSpec(str, maxLength) == None
  {
    hide Value, Digits, LeadingZeros, WordLength, Spaces, Readable, Read;
    SplitWord(s, zeroes);
    var w := s[..WordLength(s)];
    assert Word(str) == w;
    if Readable(w) {
      OnesRead(w, zeroes);
    }
  }

  lemma ReadNext(t: string, n: nat)
    requires n < |t| && Readable(t[..n]) && MapBase58(t[n]) != -1
    ensures Readable(t[..n + 1])
    ensures Value(58, Read(t[..n + 1])) == 58 * Value(58, Read(t[..n])) + MapBase58(t[n])
    ensures Value(58, Read(t[..n + 1])) < Pow(58, n + 1)
  {
    hide Value, Pow;
    assert forall i | 0 <= i < n :: t[..n + 1][i] == t[..n][i];
    WriteRead(t[..n + 1]);
    ValueBound(58, Read(t[..n + 1]));
    ValueNext(58, Read(t[..n + 1]));
    assert Read(t[..n + 1])[..n] == Read(t[..n]);
  }

  lemma {:induction false} ValueNext(b: nat, s: seq<nat>)
    requires s != []
    ensures Value(b, s) == b * Value(b, s[..|s| - 1]) + s[|s| - 1]
  {
  }

  lemma RoomForCharacters(size: nat, n: nat, count: nat)
    requires size == count * 733 / 1000 + 1 && n <= count
    ensures Pow(58, n) <= Pow(256, size)
  {
    hide Pow;
    CharactersFit(count);
    PowMonotone(58, n, count);
  }

  // A prefix that is already too long makes the whole too long.
  lemma TooLong(t: string, n: nat, zeroes: nat, maxLength: int)
    requires 0 < n <= WordLength(t) && Readable(t[..n]) && t[0] != '1'
    requires |Digits(256, Value(58, Read(t[..n])))| + zeroes > maxLength
    ensures BodySpec(t, zeroes, maxLength) == None
  {
    hide Value, Digits, WordLength;
    var w := t[..WordLength(t)];
    if Readable(w) {
      var digits := Read(w);
      WriteRead(w);
      assert Read(t[..n]) == digits[..n];
      ValueGrows(58, digits, n);
      DigitsGrow(256, Value(58, digits[..n]), Value(58, digits));
      DigitsUnique(58, digits);
      DigitsMean(256, Value(58, digits));
    }
  }

  lemma NotReadable(t: string, n: nat)
    requires n < WordLength(t) && MapBase58(t[n]) == -1
    ensures !Readable(t[..WordLength(t)])
  {
    assert t[..WordLength(t)][n] == t[n];
  }

  lemma InWord(t: string, n: nat)
    requires n < |t| && forall i | 0 <= i <= n :: !IsSpace(t[i])
    ensures n < WordLength(t)
  {
  }

  // Applies buffer = buffer * 58 + digit for each character up to a space, and gives up on a
  // character outside the alphabet or once the result is too long.
  method FromBase58(t: string, zeroes: nat, maxLength: int) returns (ok: bool, b256: array<nat>, length: nat, n: nat)
    requires '\0' !in t && (t != [] ==> t[0] != '1')
    ensures !ok ==> BodySpec(t, zeroes, maxLength) == None
    ensures ok ==> n == WordLength(t) && Readable(t[..n]) && Holds(256, b256[..], length, Value(58, Read(t[..n])))
    ensures ok ==> if n == 0 then length == 0 else length + zeroes <= maxLength
  {
    hide Value, Digits, Pow, Holds, WordLength, BodySpec, Readable, Read;
    var size := |t| * 733 / 1000 + 1;
    b256 := new nat[size](_ => 0);
    length, n := 0, 0;
    NothingRead(b256[..], t);
    while n < |t| && !IsSpace(t[n])
      invariant n <= |t| && fresh(b256) && b256.Length == size
      invariant forall i | 0 <= i < n :: !IsSpace(t[i])
      invariant Readable(t[..n]) && Holds(256, b256[..], length, Value(58, Read(t[..n])))
      invariant if n == 0 then length == 0 else length + zeroes <= maxLength
    {
      InWord(t, n);
      var carry := MapBase58(t[n]);
      if carry == -1 {
        NotReadable(t, n);
        BodyUnreadable(t, zeroes, maxLength);
        return false, b256, length, n;
      }
      ReadNext(t, n);
      RoomForCharacters(size, n + 1, |t|);
      length := MulAdd(b256, length, 58, carry, 256, Value(58, Read(t[..n])), Value(58, Read(t[..n + 1])));
      if length + zeroes > maxLength {
        HeldLength(256, b256[..], length, Value(58, Read(t[..n + 1])));
        TooLong(t, n + 1, zeroes, maxLength);
        return false, b256, length, n;
      }
      n := n + 1;
    }
    ok := true;
  }

  lemma NothingRead(a: seq<nat>, t: string)
    requires forall i | 0 <= i < |a| :: a[i] == 0
    ensures Readable(t[..0]) && Holds(256, a, 0, Value(58, Read(t[..0])))
  {
    assert a[|a|..] == [];
    assert Read(t[..0]) == [];
  }

  lemma BodyUnreadable(t: string, zeroes: nat, maxLength: int)
    requires !Readable(t[..WordLength(t)])
    ensures BodySpec(t, zeroes, maxLength) == None
  {
  }

  lemma HeldLength(b: nat, s: seq<nat>, length: nat, v: nat)
    requires b > 1 && Holds(b, s, length, v)
    ensures |Digits(b, v)| == length <= |s|
  {
  }

  lemma Decoded(t: string, n: nat, zeroes: nat, maxLength: int, b256: seq<nat>, length: nat)
    requires n == WordLength(t) && Readable(t[..n]) && Holds(256, b256, length, Value(58, Read(t[..n])))
    requires if n == 0 then length == 0 && (zeroes == 0 || zeroes <= maxLength) else length + zeroes <= maxLength
    ensures BodySpec(t, zeroes, maxLength)
         == if Spaces(t[n..]) == |t| - n then Some(Zeros(zeroes) + b256[|b256| - length..]) else None
  {
    hide Value, Digits, WordLength, Spaces, Readable, Read;
  }

  method SkipSpaces(s: string) returns (k: nat)
    ensures k == Spaces(s)
  {
    hide Spaces;
    k := 0;
    while k < |s| && IsSpace(s[k])
      invariant k <= |s| && forall i | 0 <= i < k :: IsSpace(s[i])
    {
      k := k + 1;
    }
  }

  method DecodeBase58(str: string, maxLength: int) returns (r: Option<seq<nat>>)
    ensures r == DecodeSpec(str, maxLength)
  {
    hide Value, Digits, Holds, WordLength, Spaces, LeadingZeros, Readable, Read, BodySpec, Zeros;
    if '\0' in str {
      return None;
    }
    var spaces := SkipSpaces(str);
    var s := str[spaces..];
    var zeroes := 0;
    while zeroes < |s| && s[zeroes] == '1'
      invariant zeroes <= |s| && (forall i | 0 <= i < zeroes :: s[i] == '1') && (zeroes == 0 || zeroes <= maxLength)
    {
      zeroes := zeroes + 1;
      if zeroes > maxLength {
        TooManyOnes(str, s, zeroes, maxLength);
        return None;
      }
    }
    BodyDecides(str, s, zeroes, maxLength);
    var t := s[zeroes..];
    var ok, b256, length, n := FromBase58(t, zeroes, maxLength);
    if !ok {
      return None;
    }
    Decoded(t, n, zeroes, maxLength, b256[..], length);
    HeldLength(256, b256[..], length, Value(58, Read(t[..n])));
    var trailing := SkipSpaces(t[n..]);
    if n + trailing < |t| {
      return None;
    }
    r := Some(Zeros(zeroes) + b256[..][b256.Length - length..]);
  }
}
