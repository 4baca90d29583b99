/**
What the mixing of the proof of work keeps: no word of the mix is lost on the way to the
digest.
*/
module MetalDAGLaws {
  import opened Bits
  import opened CompactSize
  import opened Sponge
  import opened Xors
  import opened MetalDAG

  const PRIME := 0x01000193

  // The inverse of the prime, which is odd, modulo 2^32.
  const INVERSE := 0x359c449b

  // ----- One application -----

  lemma FnvOfZero(a: U32, b: U32)
    ensures Fnv(0, b) == b && Fnv(a, 0) == a * 0x01000193 % 0x1_0000_0000
  {
    hide Xor;
    XorSelf(b);
    XorSelf(a * 0x01000193 % WORDS);
  }

  lemma Undone(a: U32, k: nat, r: nat)
    requires a * PRIME == k * WORDS + r
    ensures r * INVERSE == (a * 3513497 - k * INVERSE) * WORDS + a
  {
  }

  lemma PrimeInjective(a: U32, b: U32)
    requires a * PRIME % WORDS == b * PRIME % WORDS
    ensures a == b
  {
    var r := a * PRIME % WORDS;
    var p, q := a * PRIME / WORDS, b * PRIME / WORDS;
    Undone(a, p, r);
    Undone(b, q, r);
    ModUnique(a * 3513497 - p * INVERSE, b * 3513497 - q * INVERSE, a, b);
  }

  lemma ModUnique(p: int, q: int, a: U32, b: U32)
    requires p * WORDS + a == q * WORDS + b
    ensures a == b
  {
  }

  lemma XorCancel(x: nat, y: nat, b: nat)
    requires Xor(x, b) == Xor(y, b) || Xor(b, x) == Xor(b, y)
    ensures x == y
  {
    hide Xor;
    XorSelf(b);
    XorSelf(Xor(x, y));
    if Xor(x, b) == Xor(y, b) {
      Xor4(x, b, y, b);
      XorSelf(Xor(x, b));
    } else {
      Xor4(b, x, b, y);
      XorSelf(Xor(b, x));
    }
    XorZero(x, y);
  }

  // Mixing a word in loses neither the word nor what was there.
  lemma FnvInjective(a: U32, b: U32, c: U32)
    ensures Fnv(a, c) == Fnv(b, c) ==> a == b
    ensures Fnv(c, a) == Fnv(c, b) ==> a == b
  {
    hide Xor;
    if Fnv(a, c) == Fnv(b, c) {
      XorCancel(a * PRIME % WORDS, b * PRIME % WORDS, c);
      PrimeInjective(a, b);
    }
    if Fnv(c, a) == Fnv(c, b) {
      XorCancel(a, b, c * PRIME % WORDS);
    }
  }

  // ----- The compression -----

  // Two mixes that differ in exactly one word differ in exactly the digest word of its group
  // of four.
  lemma OneWordShows(mix: seq<U32>, mix': seq<U32>, k: nat)
    requires |mix| == 32 && |mix'| == 32 && k < 32 && mix[k] != mix'[k]
    requires forall i | 0 <= i < 32 && i != k :: mix[i] == mix'[i]
    ensures forall i | 0 <= i < 8 :: Compressed(mix)[i] == Compressed(mix')[i] <==> i != k / 4
  {
    hide Fnv;
    forall i | 0 <= i < 8 ensures Compressed(mix)[i] == Compressed(mix')[i] <==> i != k / 4 {
      if i == k / 4 {
        GroupShows(mix, mix', i, k);
      }
    }
  }

  lemma GroupShows(mix: seq<U32>, mix': seq<U32>, i: nat, k: nat)
    requires |mix| == 32 && |mix'| == 32 && i < 8 && 4 * i <= k < 4 * i + 4 && mix[k] != mix'[k]
    requires forall x | 4 * i <= x < 4 * i + 4 && x != k :: mix[x] == mix'[x]
    ensures Folded(mix, i) != Folded(mix', i)
  {
    hide Fnv;
    var a, b, c, d := mix[4 * i], mix[4 * i + 1], mix[4 * i + 2], mix[4 * i + 3];
    var a', b', c', d' := mix'[4 * i], mix'[4 * i + 1], mix'[4 * i + 2], mix'[4 * i + 3];
    FnvInjective(a, a', b);
    FnvInjective(b, b', a);
    FnvInjective(Fnv(a, b), Fnv(a', b'), c);
    FnvInjective(c, c', Fnv(a, b));
    FnvInjective(Fnv(Fnv(a, b), c), Fnv(Fnv(a', b'), c'), d);
    FnvInjective(d, d', Fnv(Fnv(a, b), c));
  }

  // The product with a power of the prime.
  function Once(a: U32): U32 {
    a * PRIME % WORDS
  }

  function Primed(a: U32, k: nat): U32 {
    if k == 0 then a else Once(Primed(a, k - 1))
  }

  lemma FnvZero(a: U32, b: U32)
    ensures Fnv(0, b) == b && Fnv(a, 0) == Once(a)
  {
    hide Fnv;
    FnvOfZero(a, b);
  }

  lemma FourWeights(a: U32)
    ensures Fnv(Fnv(Fnv(a, 0), 0), 0) == Primed(a, 3) && Fnv(Fnv(Fnv(0, a), 0), 0) == Primed(a, 2)
    ensures Fnv(Fnv(Fnv(0, 0), a), 0) == Primed(a, 1) && Fnv(Fnv(Fnv(0, 0), 0), a) == Primed(a, 0)
  {
    hide Fnv, Once;
    FnvZero(a, a);
    FnvZero(a, 0);
    FnvZero(Once(a), 0);
    FnvZero(Once(Once(a)), 0);
    assert Primed(a, 0) == a && Primed(a, 1) == Once(a) && Primed(a, 2) == Once(Once(a));
  }

  // A word alone in its group of four counts with one factor of the prime for every word of
  // the group behind it.
  lemma GroupWeights(mix: seq<U32>, i: nat, k: nat)
    requires |mix| == 32 && i < 8 && 4 * i <= k < 4 * i + 4
    requires forall x | 4 * i <= x < 4 * i + 4 && x != k :: mix[x] == 0
    ensures Compressed(mix)[i] == Primed(mix[k], 4 * i + 3 - k)
  {
    hide Fnv, Primed;
    FourWeights(mix[k]);
  }

  // ----- Mixing items in -----

  // Neither the mix nor the item mixed in loses a word: changing one changes the same word
  // of the result and no other.
  lemma CombinedShows(a: seq<U32>, a': seq<U32>, b: seq<U32>, k: nat)
    requires |a| == |a'| == |b| && k < |a|
    ensures Combined(a, b)[k] == Combined(a', b)[k] <==> a[k] == a'[k]
    ensures Combined(b, a)[k] == Combined(b, a')[k] <==> a[k] == a'[k]
  {
    hide Fnv;
    FnvInjective(a[k], a'[k], b[k]);
  }
}
