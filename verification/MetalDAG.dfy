/**
 * The memory-hard proof of work: the node's light verifier derives dataset items from the
 * cache as it needs them; the miner builds the whole dataset in chunks on the GPU and looks
 * items up. Both are proved to compute the same function.
 */
module MetalDAG {
  import opened Bits
  import opened CompactSize
  import opened Sponge
  import opened Xors

  type Item = s: seq<U32> | |s| == 16 witness seq(16, _ => 0)

  const WORDS := 0x1_0000_0000

  lemma XorFits(a: U32, b: U32)
    ensures Xor(a, b) < WORDS
  {
    Pow2Values();
    XorBound(a, b, 32);
  }

  function Xor32(a: U32, b: U32): U32 {
    XorFits(a, b);
    Xor(a, b)
  }

  function Fnv(a: U32, b: U32): U32 {
    Xor32(a * 0x01000193 % WORDS, b)
  }

  // ----- What is computed -----

  function Hash512(f: Permutation, item: Item): Item {
    Words4(Squeezed(f, 72, Bytes4(item), 64))
  }

  function Combined(a: seq<U32>, b: seq<U32>): (r: seq<U32>)
    requires |a| == |b|
    ensures |r| == |a|
  {
    seq(|a|, k requires 0 <= k < |a| => Fnv(a[k], b[k]))
  }

  function Seeded(cache: seq<Item>, i: U32): Item
    requires cache != []
  {
    var c := cache[i % |cache|];
    c[0 := Xor32(c[0], i)]
  }

  // The mix after the first j parents.
  function Parents(cache: seq<Item>, i: U32, mix: Item, j: nat): Item
    requires cache != [] && j <= 256
  {
    if j == 0 then mix
    else
      var m := Parents(cache, i, mix, j - 1);
      Combined(m, cache[Fnv(Xor32(i, j - 1), m[(j - 1) % 16]) % |cache|])
  }

  function DagItem(f: Permutation, cache: seq<Item>, i: U32): Item
    requires cache != []
  {
    Hash512(f, Parents(cache, i, Hash512(f, Seeded(cache, i)), 256))
  }

  predicate Sizes(cache: seq<Item>, items: nat) {
    cache != [] && 2 <= items < WORDS
  }

  function Page(items: nat, s: Item, mix: seq<U32>, i: nat): (p: U32)
    requires 2 <= items < WORDS && |mix| == 32 && i < 64
    ensures p + 1 < items
  {
    var q := Fnv(Xor32(i, s[0]), mix[i % 32]) % (items / 2);
    q * 2
  }

  function Looked(f: Permutation, cache: seq<Item>, items: nat, s: Item, mix: seq<U32>, i: nat): (r: seq<U32>)
    requires Sizes(cache, items) && |mix| == 32 && i < 64
    ensures |r| == 32
  {
    var p := Page(items, s, mix, i);
    Combined(mix, DagItem(f, cache, p) + DagItem(f, cache, p + 1))
  }

  // The mix after i accesses.
  function Accesses(f: Permutation, cache: seq<Item>, items: nat, s: Item, i: nat): (mix: seq<U32>)
    requires Sizes(cache, items) && i <= 64
    ensures |mix| == 32
  {
    if i == 0 then s + s else Looked(f, cache, items, s, Accesses(f, cache, items, s, i - 1), i - 1)
  }

  function Folded(mix: seq<U32>, i: nat): U32
    requires |mix| == 32 && i < 8
  {
    Fnv(Fnv(Fnv(mix[4 * i], mix[4 * i + 1]), mix[4 * i + 2]), mix[4 * i + 3])
  }

  lemma FoldedAt(mix: seq<U32>, i: nat)
    requires |mix| == 32 && i < 32 && i % 4 == 0
    ensures Folded(mix, i / 4) == Fnv(Fnv(Fnv(mix[i], mix[i + 1]), mix[i + 2]), mix[i + 3])
  {
  }

  function Compressed(mix: seq<U32>): (c: seq<U32>)
    requires |mix| == 32
    ensures |c| == 8
  {
    seq(8, i requires 0 <= i < 8 => Folded(mix, i))
  }

  function Start(f: Permutation, header: seq<Byte>, nonce: U64): Item
    requires |header| == 32
  {
    Words4(Squeezed(f, 72, header + LittleEndian(8, nonce), 64))
  }

  function Digest(f: Permutation, cache: seq<Item>, items: nat, header: seq<Byte>, nonce: U64): (c: seq<U32>)
    requires Sizes(cache, items) && |header| == 32
    ensures |c| == 8
  {
    Compressed(Accesses(f, cache, items, Start(f, header, nonce), 64))
  }

  function Result(f: Permutation, cache: seq<Item>, items: nat, header: seq<Byte>, nonce: U64): (r: seq<Byte>)
    requires Sizes(cache, items) && |header| == 32
    ensures |r| == 32
  {
    var s := Start(f, header, nonce);
    Squeezed(f, 136, Bytes4(s) + Bytes4(Digest(f, cache, items, header, nonce)), 32)
  }

  // ----- The light verifier -----

  method CalcDatasetItem(f: Permutation, cache: seq<Item>, i: U32) returns (mix: Item)
    requires cache != []
    ensures mix == DagItem(f, cache, i)
  {
    hide Squeezed, Bytes4, Words4, Xor, Fnv;
    var n := |cache|;
    mix := cache[i % n];
    mix := mix[0 := Xor32(mix[0], i)];
    var bytes := Keccak(f, 72, Bytes4(mix), 64);
    mix := Words4(bytes);
    ghost var first := mix;
    var j := 0;
    while j < 256
      invariant 0 <= j <= 256 && mix == Parents(cache, i, first, j)
    {
      var cacheIndex := Fnv(Xor32(i, j), mix[j % 16]);
      var c := cache[cacheIndex % n];
      ghost var was := mix;
      var k := 0;
      while k < 16
        invariant 0 <= k <= 16
        invariant forall x | 0 <= x < 16 :: mix[x] == if x < k then Fnv(was[x], c[x]) else was[x]
      {
        mix := mix[k := Fnv(mix[k], c[k])];
        k := k + 1;
      }
      assert mix == Combined(was, c);
      j := j + 1;
    }
    bytes := Keccak(f, 72, Bytes4(mix), 64);
    mix := Words4(bytes);
  }

  // Mixes words in, one by one.
  method FnvAll(mix: seq<U32>, data: seq<U32>) returns (r: seq<U32>)
    requires |mix| == |data|
    ensures r == Combined(mix, data)
  {
    hide Fnv;
    r := mix;
    var k := 0;
    while k < |mix|
      invariant 0 <= k <= |mix| == |r|
      invariant forall x | 0 <= x < |mix| :: r[x] == if x < k then Fnv(mix[x], data[x]) else mix[x]
    {
      r := r[k := Fnv(r[k], data[k])];
      k := k + 1;
    }
  }

  method HashimotoLight(f: Permutation, cache: seq<Item>, items: nat, header: seq<Byte>, nonce: U64)
    returns (digest: seq<Byte>, result: seq<Byte>)
    requires Sizes(cache, items) && |header| == 32
    ensures digest == Bytes4(Digest(f, cache, items, header, nonce))
    ensures result == Result(f, cache, items, header, nonce)
  {
    hide Squeezed, Bytes4, Words4, Xor, Fnv, DagItem, LittleEndian, Combined, Folded;
    var s8 := Keccak(f, 72, header + LittleEndian(8, nonce), 64);
    var s: Item := Words4(s8);
    var mix := seq(32, x requires 0 <= x < 32 => s[x % 16]);
    assert mix == s + s;
    var i := 0;
    while i < 64
      invariant 0 <= i <= 64 && |mix| == 32 && mix == Accesses(f, cache, items, s, i)
    {
      var p := Fnv(Xor32(i, s[0]), mix[i % 32]) % (items / 2) * 2;
      PageIs(items, s, mix, i);
      var even: seq<U32> := CalcDatasetItem(f, cache, p);
      var odd: seq<U32> := CalcDatasetItem(f, cache, p + 1);
      mix := FnvAll(mix, even + odd);
      i := i + 1;
    }
    var cmix: seq<U32> := seq(8, _ => 0);
    i := 0;
    while i < 32
      invariant 0 <= i <= 32 && i % 4 == 0 && |cmix| == 8
      invariant forall x | 0 <= x < i / 4 :: cmix[x] == Folded(mix, x)
    {
      FoldedAt(mix, i);
      cmix := cmix[i / 4 := Fnv(Fnv(Fnv(mix[i], mix[i + 1]), mix[i + 2]), mix[i + 3])];
      i := i + 4;
    }
    assert cmix == Compressed(mix);
    digest := Bytes4(cmix);
    SqueezedBytes(f, header + LittleEndian(8, nonce));
    result := Keccak(f, 136, s8 + digest, 32);
  }

  lemma PageIs(items: nat, s: Item, mix: seq<U32>, i: nat)
    requires 2 <= items < WORDS && |mix| == 32 && i < 64
    ensures Page(items, s, mix, i) == Fnv(Xor32(i, s[0]), mix[i % 32]) % (items / 2) * 2
  {
  }

  // Words taken from bytes and written out again.
  lemma BytesBack(b: seq<Byte>)
    requires |b| % 4 == 0
    ensures Bytes4(Words4(b)) == b
  {
    hide LittleEndian, FromLittleEndian;
    var words := Words4(b);
    var r := Bytes4(words);
    forall i | 0 <= i < |b|
      ensures r[i] == b[i]
    {
      var k := i / 4;
      var piece := b[4 * k..4 * k + 4];
      LittleEndianOf(piece);
      assert piece[i % 4] == b[i];
    }
  }

  lemma SqueezedBytes(f: Permutation, input: seq<Byte>)
    ensures Bytes4(Words4(Squeezed(f, 72, input, 64))) == Squeezed(f, 72, input, 64)
  {
    hide Squeezed;
    BytesBack(Squeezed(f, 72, input, 64));
  }

  // ----- The miner -----

  // Items one after another, as words.
  ghost predicate Flat(words: seq<U32>, items: seq<Item>) {
    |words| == 16 * |items| && forall i, k | 0 <= i < |items| && 0 <= k < 16 :: words[16 * i + k] == items[i][k]
  }

  // Word indexes are computed as 32-bit numbers.
  function WordIndex(i: U32, k: nat): U32 {
    (i * 16 + k) % WORDS
  }

  // They are exact for every item exactly when there are at most 2^28 of them.
  lemma IndexExact(items: nat)
    requires items <= WORDS
    ensures (forall i: U32, k | i < items && 0 <= k < 16 :: WordIndex(i, k) == i * 16 + k) <==> items <= 0x1000_0000
  {
    if items > 0x1000_0000 {
      assert WordIndex(0x1000_0000, 0) == 0;
    }
  }

  method DagItemKernel(f: Permutation, cacheWords: seq<U32>, n: U32, i: U32, ghost cache: seq<Item>) returns (out: Item)
    requires 0 < n <= 0x1000_0000 && |cache| == n && Flat(cacheWords, cache)
    ensures out == DagItem(f, cache, i)
  {
    hide Squeezed, Bytes4, Words4, Xor, Combined, Fnv, Keccak512of64;
    var mix: Item := ReadItem(cacheWords, i % n, cache);
    mix := mix[0 := Xor32(mix[0], i)];
    FixedForms(f, mix);
    mix := Keccak512of64(f, mix);
    ghost var first := mix;
    var j := 0;
    while j < 256
      invariant 0 <= j <= 256 && mix == Parents(cache, i, first, j)
    {
      var cacheIndex := Fnv(Xor32(i, j), mix[j % 16]);
      mix := MixParent(cacheWords, cacheIndex % n, mix, cache);
      j := j + 1;
    }
    FixedForms(f, mix);
    out := Keccak512of64(f, mix);
  }

  // Mixes a cache item in, word by word.
  method MixParent(words: seq<U32>, parent: U32, mix: Item, ghost items: seq<Item>) returns (r: Item)
    requires |items| <= 0x1000_0000 && parent < |items| && Flat(words, items)
    ensures r == Combined(mix, items[parent])
  {
    hide Fnv;
    r := mix;
    var k := 0;
    while k < 16
      invariant 0 <= k <= 16
      invariant forall x | 0 <= x < 16 :: r[x] == if x < k then Fnv(mix[x], items[parent][x]) else mix[x]
    {
      assert words[16 * parent + k] == items[parent][k];
      r := r[k := Fnv(r[k], words[WordIndex(parent, k)])];
      k := k + 1;
    }
  }

  method ReadItem(words: seq<U32>, i: U32, ghost items: seq<Item>) returns (item: Item)
    requires |items| <= 0x1000_0000 && i < |items| && Flat(words, items)
    ensures item == items[i]
  {
    item := seq(16, k requires 0 <= k < 16 => words[WordIndex(i, k)]);
    assert forall k | 0 <= k < 16 :: item[k] == words[16 * i + k];
  }

  // The chunk of items from `start` on: each thread writes one item.
  method BuildChunk(f: Permutation, cacheWords: seq<U32>, n: U32, dag: array<U32>, start: U32, count: nat,
                    ghost cache: seq<Item>, ghost items: nat)
    requires 0 < n <= 0x1000_0000 && |cache| == n && Flat(cacheWords, cache)
    requires items <= 0x1000_0000 && dag.Length == 16 * items && start + count <= items
    requires Built(f, cache, dag[..], start)
    modifies dag
    ensures Built(f, cache, dag[..], start + count)
  {
    hide DagItem;
    var gid := 0;
    while gid < count
      invariant 0 <= gid <= count && Built(f, cache, dag[..], start + gid)
    {
      var i := (start + gid) % WORDS;
      var out := DagItemKernel(f, cacheWords, n, i, cache);
      WriteItem(dag, i, out);
      gid := gid + 1;
    }
  }

  // The first `items` items of the dataset are in place.
  ghost predicate Built(f: Permutation, cache: seq<Item>, dag: seq<U32>, items: nat) {
    && cache != [] && items <= 0x1000_0000 && 16 * items <= |dag|
    && forall i: U32, k | 0 <= i < items && 0 <= k < 16 :: dag[16 * i + k] == DagItem(f, cache, i)[k]
  }

  method WriteItem(dag: array<U32>, i: U32, item: Item)
    requires 16 * i + 16 <= dag.Length && i < 0x1000_0000
    modifies dag
    ensures forall k | 0 <= k < 16 :: dag[16 * i + k] == item[k]
    ensures forall x | 0 <= x < dag.Length && !(16 * i <= x < 16 * i + 16) :: dag[x] == old(dag[x])
  {
    var k := 0;
    while k < 16
      invariant 0 <= k <= 16
      invariant forall j | 0 <= j < k :: dag[16 * i + j] == item[j]
      invariant forall x | 0 <= x < dag.Length && !(16 * i <= x < 16 * i + 16) :: dag[x] == old(dag[x])
    {
      dag[WordIndex(i, k)] := item[k];
      k := k + 1;
    }
  }

  const CHUNK := 0x8_0000

  // Builds the dataset chunk by chunk.
  method BuildDag(f: Permutation, cacheWords: seq<U32>, n: U32, items: nat, ghost cache: seq<Item>)
    returns (dag: array<U32>)
    requires 0 < n <= 0x1000_0000 && |cache| == n && Flat(cacheWords, cache) && items <= 0x1000_0000
    ensures fresh(dag) && dag.Length == 16 * items && Built(f, cache, dag[..], items)
  {
    hide DagItem;
    dag := new U32[16 * items];
    var start := 0;
    while start < items
      invariant 0 <= start <= items && fresh(dag) && dag.Length == 16 * items && Built(f, cache, dag[..], start)
    {
      var count := if CHUNK <= items - start then CHUNK else items - start;
      BuildChunk(f, cacheWords, n, dag, start, count, cache, items);
      start := start + count;
    }
  }

  lemma BytesJoin(a: seq<U32>, b: seq<U32>)
    ensures Bytes4(a + b) == Bytes4(a) + Bytes4(b)
  {
    hide LittleEndian;
    var s, t := Bytes4(a + b), Bytes4(a) + Bytes4(b);
    forall i | 0 <= i < |s|
      ensures s[i] == t[i]
    {
      if i >= 4 * |a| {
        DivIs(i, |a| + (i - 4 * |a|) / 4, (i - 4 * |a|) % 4, 4);
      }
    }
  }

  lemma {:induction false} LittleEndianSplit(k: nat, m: nat, n: nat)
    requires n < CompactSize.Bytes(k)
    ensures LittleEndian(k + m, n) == LittleEndian(k, n) + LittleEndian(m, 0)
  {
    if k > 0 {
      LittleEndianSplit(k - 1, m, n / 256);
      assert k + m - 1 == k - 1 + m;
    }
  }

  // A 32-bit nonce and a zero word are the bytes of the nonce as a 64-bit number.
  lemma NonceBytes(nonce: U32)
    ensures Bytes4([nonce, 0]) == LittleEndian(8, nonce)
  {
    hide LittleEndian;
    ByteCounts();
    LittleEndianSplit(4, 4, nonce);
    BytesOfPair([nonce, 0], 0);
    assert Bytes4([nonce, 0])[0..8] == Bytes4([nonce, 0]);
  }

  lemma KernelStart(f: Permutation, header: seq<U32>, nonce: U32)
    requires |header| == 8
    ensures Keccak512of40(f, header + [nonce, 0]) == Start(f, Bytes4(header), nonce)
  {
    hide Squeezed, Bytes4, Words4, Keccak512of40;
    FixedForms(f, header + [nonce, 0]);
    BytesJoin(header, [nonce, 0]);
    NonceBytes(nonce);
  }

  // Mixes the two items of a page in, one after the other.
  method MixPage(f: Permutation, dag: array<U32>, mix: seq<U32>, p: U32, ghost cache: seq<Item>, ghost items: nat)
    returns (next: seq<U32>)
    requires |mix| == 32 && Built(f, cache, dag[..], items) && p + 1 < items
    ensures next == Combined(mix, DagItem(f, cache, p) + DagItem(f, cache, p + 1))
  {
    hide DagItem, Fnv;
    next := mix;
    ghost var pair := DagItem(f, cache, p) + DagItem(f, cache, p + 1);
    var j := 0;
    while j < 2
      invariant 0 <= j <= 2 && |next| == 32
      invariant forall x | 0 <= x < 16 * j :: next[x] == Fnv(mix[x], pair[x])
      invariant forall x | 16 * j <= x < 32 :: next[x] == mix[x]
    {
      var k := 0;
      while k < 16
        invariant 0 <= k <= 16 && |next| == 32
        invariant forall x | 0 <= x < 16 * j + k :: next[x] == Fnv(mix[x], pair[x])
        invariant forall x | 16 * j + k <= x < 32 :: next[x] == mix[x]
      {
        var at := j * 16 + k;
        assert dag[..][16 * (p + j) + k] == DagItem(f, cache, p + j)[k];
        next := next[at := Fnv(next[at], dag[WordIndex(p + j, k)])];
        k := k + 1;
      }
      j := j + 1;
    }
  }

  method Hashimoto(f: Permutation, dag: array<U32>, items: nat, header: seq<U32>, nonce: U32, ghost cache: seq<Item>)
    returns (res: seq<U32>)
    requires 2 <= items && Built(f, cache, dag[..], items) && |header| == 8
    ensures res == Words4(Result(f, cache, items, Bytes4(header), nonce))
  {
    hide Squeezed, Bytes4, Words4, Xor, Fnv, DagItem, Combined, Folded, Keccak512of40, Keccak256of96, Start;
    KernelStart(f, header, nonce);
    var s: Item := Keccak512of40(f, header + [nonce, 0]);
    var mix := seq(32, x requires 0 <= x < 32 => s[x % 16]);
    assert mix == s + s;
    var i := 0;
    while i < 64
      invariant 0 <= i <= 64 && |mix| == 32 && mix == Accesses(f, cache, items, s, i)
    {
      var p := Fnv(Xor32(i, s[0]), mix[i % 32]) % (items / 2) * 2;
      PageIs(items, s, mix, i);
      mix := MixPage(f, dag, mix, p, cache, items);
      i := i + 1;
    }
    var cmix: seq<U32> := seq(8, _ => 0);
    i := 0;
    while i < 32
      invariant 0 <= i <= 32 && i % 4 == 0 && |cmix| == 8
      invariant forall x | 0 <= x < i / 4 :: cmix[x] == Folded(mix, x)
    {
      FoldedAt(mix, i);
      cmix := cmix[i / 4 := Fnv(Fnv(Fnv(mix[i], mix[i + 1]), mix[i + 2]), mix[i + 3])];
      i := i + 4;
    }
    assert cmix == Compressed(mix);
    FixedForms(f, s + cmix);
    BytesJoin(s, cmix);
    res := Keccak256of96(f, s + cmix);
  }

  // The miner's hash of a nonce is the one the node computes.
  method CrossCheck(f: Permutation, cacheWords: seq<U32>, n: U32, items: nat, header: seq<U32>, nonce: U32,
                    cache: seq<Item>)
    returns (mined: seq<U32>, result: seq<Byte>)
    requires 0 < n <= 0x1000_0000 && |cache| == n && Flat(cacheWords, cache)
    requires 2 <= items <= 0x1000_0000 && |header| == 8
    ensures mined == Words4(result) && result == Result(f, cache, items, Bytes4(header), nonce)
  {
    hide Result, Digest, Words4, Bytes4, Flat, Built;
    var dag := BuildDag(f, cacheWords, n, items, cache);
    mined := Hashimoto(f, dag, items, header, nonce, cache);
    var _, light := HashimotoLight(f, cache, items, Bytes4(header), nonce);
    result := light;
  }
}
