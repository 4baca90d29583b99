/**
 * The Keccak sponge around an arbitrary permutation of its state: byte by byte, as the
 * verifier has it, and in three forms for inputs of fixed length, as the mining kernel has
 * them.
 */
module Sponge {
  import opened Bits
  import opened CompactSize
  import opened Xors

  type U32 = x: nat | x < 0x1_0000_0000
  type U64 = x: nat | x < 0x1_0000_0000_0000_0000
  type State = s: seq<U64> | |s| == 25 witness seq(25, _ => 0)
  type Permutation = State -> State

  // ----- Words and bytes -----

  function Bytes4(words: seq<U32>): (b: seq<Byte>)
    ensures |b| == 4 * |words|
  {
    seq(4 * |words|, i requires 0 <= i < 4 * |words| => LittleEndian(4, words[i / 4])[i % 4])
  }

  function Bytes8(words: seq<U64>): (b: seq<Byte>)
    ensures |b| == 8 * |words|
  {
    seq(8 * |words|, i requires 0 <= i < 8 * |words| => LittleEndian(8, words[i / 8])[i % 8])
  }

  function Number4(b: seq<Byte>): U32
    requires |b| == 4
  {
    LittleEndianOf(b);
    ByteCounts();
    FromLittleEndian(b)
  }

  function Number8(b: seq<Byte>): U64
    requires |b| == 8
  {
    LittleEndianOf(b);
    ByteCounts();
    FromLittleEndian(b)
  }

  function Words4(b: seq<Byte>): (words: seq<U32>)
    ensures |words| == |b| / 4
  {
    seq(|b| / 4, k requires 0 <= k < |b| / 4 => Number4(b[4 * k..4 * k + 4]))
  }

  function Words8(b: seq<Byte>): (words: seq<U64>)
    ensures |words| == |b| / 8
  {
    seq(|b| / 8, k requires 0 <= k < |b| / 8 => Number8(b[8 * k..8 * k + 8]))
  }

  lemma {:induction false} FromParts(a: seq<Byte>, b: seq<Byte>)
    ensures FromLittleEndian(a + b) == FromLittleEndian(a) + Bytes(|a|) * FromLittleEndian(b)
  {
    if a == [] {
      assert a + b == b;
    } else {
      FromParts(a[1..], b);
      assert (a + b)[1..] == a[1..] + b;
      MulAssoc(256, Bytes(|a| - 1), FromLittleEndian(b));
    }
  }

  // Two 32-bit words are one lane of the state.
  function Joined(low: U32, high: U32): U64 {
    low + 0x1_0000_0000 * high
  }

  lemma JoinedBytes(low: U32, high: U32)
    ensures Number8(LittleEndian(4, low) + LittleEndian(4, high)) == Joined(low, high)
  {
    hide FromLittleEndian, LittleEndian;
    ByteCounts();
    FromParts(LittleEndian(4, low), LittleEndian(4, high));
    LittleEndianBack(4, low);
    LittleEndianBack(4, high);
  }

  lemma BytesOfPair(words: seq<U32>, k: nat)
    requires 2 * k + 1 < |words|
    ensures Bytes4(words)[8 * k..8 * k + 8] == LittleEndian(4, words[2 * k]) + LittleEndian(4, words[2 * k + 1])
  {
    hide LittleEndian;
    var piece := Bytes4(words)[8 * k..8 * k + 8];
    var pair := LittleEndian(4, words[2 * k]) + LittleEndian(4, words[2 * k + 1]);
    forall j | 0 <= j < 8
      ensures piece[j] == pair[j]
    {
      if j < 4 {
        DivIs(8 * k + j, 2 * k, j, 4);
      } else {
        DivIs(8 * k + j, 2 * k + 1, j - 4, 4);
      }
    }
  }

  // A lane taken apart into its two 32-bit words.
  lemma SplitBytes(w: U64)
    ensures Number4(LittleEndian(8, w)[..4]) == w % 0x1_0000_0000
    ensures Number4(LittleEndian(8, w)[4..]) == w / 0x1_0000_0000
  {
    hide FromLittleEndian, LittleEndian;
    ByteCounts();
    var b := LittleEndian(8, w);
    LittleEndianBack(8, w);
    FromParts(b[..4], b[4..]);
    assert b == b[..4] + b[4..];
    LittleEndianOf(b[..4]);
    DivIs(w, Number4(b[4..]), Number4(b[..4]), 0x1_0000_0000);
  }

  lemma WordOfBytes8(s: seq<U64>, m: nat, i: nat)
    requires m <= 8 * |s| && 8 * i + 8 <= m
    ensures Bytes8(s)[..m][8 * i..8 * i + 4] == LittleEndian(8, s[i])[..4]
    ensures Bytes8(s)[..m][8 * i + 4..8 * i + 8] == LittleEndian(8, s[i])[4..]
  {
    hide LittleEndian;
    var b := Bytes8(s)[..m];
    var piece, w := b[8 * i..8 * i + 8], LittleEndian(8, s[i]);
    forall j | 0 <= j < 8
      ensures piece[j] == w[j]
    {
      DivIs(8 * i + j, i, j, 8);
    }
    assert b[8 * i..8 * i + 4] == piece[..4] && b[8 * i + 4..8 * i + 8] == piece[4..];
  }

  // ----- The sponge on bytes -----

  datatype Absorbing = Absorbing(st: seq<Byte>, pt: nat)

  function Permute(f: Permutation, st: seq<Byte>): (r: seq<Byte>)
    requires |st| == 200
    ensures |r| == 200
  {
    Bytes8(f(Words8(st)))
  }

  lemma XorByte(a: Byte, b: Byte)
    ensures Xor(a, b) < 256
  {
    XorBound(a, b, 8);
    Pow2Values();
  }

  function Mix(st: seq<Byte>, at: nat, b: Byte): (r: seq<Byte>)
    requires at < |st|
    ensures |r| == |st|
  {
    XorByte(st[at], b);
    st[at := Xor(st[at], b)]
  }

  predicate Sound(a: Absorbing, rate: nat) {
    |a.st| == 200 && a.pt < rate <= 200
  }

  function AbsorbByte(f: Permutation, rate: nat, a: Absorbing, b: Byte): (r: Absorbing)
    requires Sound(a, rate)
    ensures Sound(r, rate)
  {
    var st := Mix(a.st, a.pt, b);
    if a.pt + 1 == rate then Absorbing(Permute(f, st), 0) else Absorbing(st, a.pt + 1)
  }

  function Absorbed(f: Permutation, rate: nat, input: seq<Byte>): (r: Absorbing)
    requires 0 < rate <= 200
    ensures Sound(r, rate)
  {
    if input == [] then Absorbing(seq(200, _ => 0), 0)
    else AbsorbByte(f, rate, Absorbed(f, rate, input[..|input| - 1]), input[|input| - 1])
  }

  function Squeezed(f: Permutation, rate: nat, input: seq<Byte>, length: nat): (out: seq<Byte>)
    requires 0 < rate <= 200 && length <= 200
    ensures |out| == length
  {
    var a := Absorbed(f, rate, input);
    Permute(f, Mix(Mix(a.st, a.pt, 0x01), rate - 1, 0x80))[..length]
  }

  method Keccak(f: Permutation, rate: nat, input: seq<Byte>, length: nat) returns (out: seq<Byte>)
    requires 0 < rate <= 200 && length <= 200
    ensures out == Squeezed(f, rate, input, length)
  {
    hide Permute, Mix;
    var st: seq<Byte> := seq(200, _ => 0);
    var pt := 0;
    var i := 0;
    assert input[..0] == [];
    while i < |input|
      invariant 0 <= i <= |input| && Sound(Absorbing(st, pt), rate)
      invariant Absorbing(st, pt) == Absorbed(f, rate, input[..i])
    {
      assert input[..i + 1][..i] == input[..i];
      st := Mix(st, pt, input[i]);
      pt := pt + 1;
      if pt == rate {
        st := Permute(f, st);
        pt := 0;
      }
      i := i + 1;
    }
    assert input[..i] == input;
    st := Mix(st, pt, 0x01);
    st := Mix(st, rate - 1, 0x80);
    st := Permute(f, st);
    out := st[..length];
  }

  // ----- Inputs of fixed length -----

  // One block of input and its padding, as bytes.
  function Padded(rate: nat, input: seq<Byte>): (st: seq<Byte>)
    requires |input| < rate <= 200
    ensures |st| == 200
  {
    Mix(Mix(input + seq(200 - |input|, _ => 0), |input|, 0x01), rate - 1, 0x80)
  }

  lemma {:induction false} ShortAbsorbed(f: Permutation, rate: nat, input: seq<Byte>)
    requires |input| < rate <= 200
    ensures Absorbed(f, rate, input) == Absorbing(input + seq(200 - |input|, _ => 0), |input|)
    decreases |input|
  {
    hide Permute, Xor;
    if input == [] {
      assert input + seq(200 - |input|, _ => 0) == seq(200, _ => 0);
    } else {
      var n := |input| - 1;
      ShortAbsorbed(f, rate, input[..n]);
      XorSelf(input[n]);
      assert Mix(input[..n] + seq(200 - n, _ => 0), n, input[n]) == input + seq(200 - |input|, _ => 0);
    }
  }

  lemma ShortSqueezed(f: Permutation, rate: nat, input: seq<Byte>, length: nat)
    requires |input| < rate <= 200 && length <= 200
    ensures Squeezed(f, rate, input, length) == Permute(f, Padded(rate, input))[..length]
  {
    hide Permute, Mix, Absorbed;
    ShortAbsorbed(f, rate, input);
  }

  // The same block as lanes: the words in pairs, a one after them, and the top bit of the
  // last lane of the rate.
  function PaddedLane(words: seq<U32>, rate: nat, k: nat): U64
    requires |words| % 2 == 0 && |words| / 2 < rate / 8
  {
    if k < |words| / 2 then Joined(words[2 * k], words[2 * k + 1])
    else (if k == |words| / 2 then 1 else 0) + (if k == rate / 8 - 1 then 0x8000_0000_0000_0000 else 0)
  }

  lemma PaddedByte(words: seq<U32>, rate: nat, i: nat)
    requires |words| % 2 == 0 && rate % 8 == 0 && |words| / 2 < rate / 8 && rate <= 200 && i < 200
    ensures Padded(rate, Bytes4(words))[i]
         == if i < 4 * |words| then Bytes4(words)[i]
            else if i == 4 * |words| then 1
            else if i == rate - 1 then 0x80
            else 0
  {
    hide Bytes4, Xor;
    XorSelf(1);
    XorSelf(0x80);
  }

  lemma PaddedLanes(words: seq<U32>, rate: nat, k: nat)
    requires |words| % 2 == 0 && rate % 8 == 0 && |words| / 2 < rate / 8 && rate <= 200 && k < 25
    ensures Words8(Padded(rate, Bytes4(words)))[k] == PaddedLane(words, rate, k)
  {
    hide Padded, Bytes4, Number8;
    var st := Padded(rate, Bytes4(words));
    var piece := st[8 * k..8 * k + 8];
    if k < |words| / 2 {
      BytesOfPair(words, k);
      forall j | 0 <= j < 8
        ensures piece[j] == Bytes4(words)[8 * k..8 * k + 8][j]
      {
        PaddedByte(words, rate, 8 * k + j);
      }
      assert piece == Bytes4(words)[8 * k..8 * k + 8];
      JoinedBytes(words[2 * k], words[2 * k + 1]);
    } else {
      var low: Byte := if k == |words| / 2 then 1 else 0;
      var high: Byte := if k == rate / 8 - 1 then 0x80 else 0;
      forall j | 0 <= j < 8
        ensures piece[j] == [low, 0, 0, 0, 0, 0, 0, high][j]
      {
        PaddedByte(words, rate, 8 * k + j);
      }
      assert piece == [low, 0, 0, 0, 0, 0, 0, high];
      EdgeLane(low, high);
    }
  }

  lemma EdgeLane(low: Byte, high: Byte)
    ensures Number8([low, 0, 0, 0, 0, 0, 0, high]) == low + 0x100_0000_0000_0000 * high
  {
    hide FromLittleEndian;
    ByteCounts();
    FromParts([low], [0, 0, 0, 0, 0, 0, high]);
    assert [low] + [0, 0, 0, 0, 0, 0, high] == [low, 0, 0, 0, 0, 0, 0, high];
    FromParts([0, 0, 0, 0, 0, 0], [high]);
    assert [0, 0, 0, 0, 0, 0] + [high] == [0, 0, 0, 0, 0, 0, high];
    OneByte(low);
    OneByte(high);
    ZeroBytes();
  }

  lemma OneByte(b: Byte)
    ensures FromLittleEndian([b]) == b && Bytes(1) == 256 && Bytes(6) == 0x1_0000_0000_0000
  {
    assert [b][1..] == [];
  }

  lemma ZeroBytes()
    ensures FromLittleEndian([0, 0, 0, 0, 0, 0]) == 0
  {
    FromParts([0, 0, 0], [0, 0, 0]);
    assert [0, 0, 0] + [0, 0, 0] == [0, 0, 0, 0, 0, 0];
  }

  function OutWords(s: State, m: nat): (words: seq<U32>)
    requires m <= 50
    ensures |words| == m
  {
    seq(m, i requires 0 <= i < m => if i % 2 == 0 then s[i / 2] % 0x1_0000_0000 else s[i / 2] / 0x1_0000_0000)
  }

  function PaddedState(words: seq<U32>, rate: nat): State
    requires |words| % 2 == 0 && |words| / 2 < rate / 8
  {
    seq(25, k requires 0 <= k < 25 => PaddedLane(words, rate, k))
  }

  // The byte sponge on words, computed on lanes.
  lemma SqueezedWords(f: Permutation, rate: nat, words: seq<U32>, m: nat)
    requires |words| % 2 == 0 && rate % 8 == 0 && |words| / 2 < rate / 8 && rate <= 200 && m % 2 == 0 && m <= 50
    ensures Words4(Squeezed(f, rate, Bytes4(words), 4 * m)) == OutWords(f(PaddedState(words, rate)), m)
  {
    hide Bytes4, Bytes8, Words8, Number4, Padded, Squeezed, LittleEndian;
    ShortSqueezed(f, rate, Bytes4(words), 4 * m);
    var lanes := Words8(Padded(rate, Bytes4(words)));
    forall k | 0 <= k < 25
      ensures lanes[k] == PaddedLane(words, rate, k)
    {
      PaddedLanes(words, rate, k);
    }
    assert lanes == PaddedState(words, rate);
    var s := f(lanes);
    var out := Squeezed(f, rate, Bytes4(words), 4 * m);
    assert out == Bytes8(s)[..4 * m];
    var w := Words4(out);
    forall i | 0 <= i < m
      ensures w[i] == OutWords(s, m)[i]
    {
      WordOfBytes8(s, 4 * m, i / 2);
      SplitBytes(s[i / 2]);
      assert i % 2 == 0 ==> 4 * i == 8 * (i / 2);
      assert i % 2 == 1 ==> 4 * i == 8 * (i / 2) + 4;
    }
  }

  // The kernel's forms. A pair of words is joined by a shift and a bitwise or.
  function OrLane(low: U32, high: U32): (lane: U64)
    ensures lane == Joined(low, high)
  {
    Pow2Values();
    OrDisjoint(low, high, 32);
    Or(low, high * 0x1_0000_0000)
  }

  function Loaded(words: seq<U32>): State {
    seq(25, k requires 0 <= k < 25 => if 2 * k + 1 < |words| then OrLane(words[2 * k], words[2 * k + 1]) else 0)
  }

  lemma XorEmptyLane(x: U64)
    ensures Xor(0, x) == x
  {
    XorSelf(x);
  }

  // st[lane] ^= x where the lane is still empty
  function Marked(s: State, lane: nat, x: U64): State
    requires lane < 25 && s[lane] == 0
  {
    XorEmptyLane(x);
    s[lane := Xor(s[lane], x)]
  }

  function Keccak512of40(f: Permutation, words: seq<U32>): (out: seq<U32>)
    requires |words| == 10
    ensures |out| == 16
  {
    XorEmptyLane(0x01);
    OutWords(f(Marked(Marked(Loaded(words), 5, 0x01), 8, 0x8000_0000_0000_0000)), 16)
  }

  function Keccak512of64(f: Permutation, words: seq<U32>): (out: seq<U32>)
    requires |words| == 16
    ensures |out| == 16
  {
    OutWords(f(Marked(Loaded(words), 8, 0x8000_0000_0000_0001)), 16)
  }

  function Keccak256of96(f: Permutation, words: seq<U32>): (out: seq<U32>)
    requires |words| == 24
    ensures |out| == 8
  {
    OutWords(f(Marked(Marked(Loaded(words), 12, 0x01), 16, 0x8000_0000_0000_0000)), 8)
  }

  // Each fixed form is the general sponge on the bytes of its words.
  lemma FixedForms(f: Permutation, words: seq<U32>)
    ensures |words| == 10 ==> Keccak512of40(f, words) == Words4(Squeezed(f, 72, Bytes4(words), 64))
    ensures |words| == 16 ==> Keccak512of64(f, words) == Words4(Squeezed(f, 72, Bytes4(words), 64))
    ensures |words| == 24 ==> Keccak256of96(f, words) == Words4(Squeezed(f, 136, Bytes4(words), 32))
  {
    hide Squeezed, Bytes4, Words4, Xor, OutWords, Joined, OrLane;
    XorEmptyLane(0x01);
    XorEmptyLane(0x8000_0000_0000_0000);
    XorEmptyLane(0x8000_0000_0000_0001);
    if |words| == 10 {
      SqueezedWords(f, 72, words, 16);
      assert Marked(Marked(Loaded(words), 5, 0x01), 8, 0x8000_0000_0000_0000) == PaddedState(words, 72);
    } else if |words| == 16 {
      SqueezedWords(f, 72, words, 16);
      assert Marked(Loaded(words), 8, 0x8000_0000_0000_0001) == PaddedState(words, 72);
    } else if |words| == 24 {
      SqueezedWords(f, 136, words, 8);
      assert Marked(Marked(Loaded(words), 12, 0x01), 16, 0x8000_0000_0000_0000) == PaddedState(words, 136);
    }
  }
}
