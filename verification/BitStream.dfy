/**
 * Bit streams over bytes: a writer that collects bits in one byte until it is full, and a
 * reader that takes them out again. The bits of a stream are a sequence of zeros and ones,
 * most significant first.
 */
module BitStream {
  import opened Bits
  import opened Radix

  // The n low bits of v.
  function Fixed(n: nat, v: nat): (s: seq<nat>)
    ensures |s| == n && InBase(2, s)
  {
    if n == 0 then [] else Fixed(n - 1, v / 2) + [v % 2]
  }

  function ByteBits(bytes: seq<Byte>): (s: seq<nat>)
    ensures |s| == 8 * |bytes| && InBase(2, s)
  {
    if bytes == [] then [] else ByteBits(bytes[..|bytes| - 1]) + Fixed(8, bytes[|bytes| - 1])
  }

  lemma {:induction false} FixedSplit(m: nat, n: nat, v: nat)
    ensures Fixed(m + n, v) == Fixed(m, Over(v, Pow2(n))) + Fixed(n, v)
  {
    if n > 0 {
      FixedSplit(m, n - 1, v / 2);
      HalveDiv(v, Pow2(n - 1));
      assert m + n - 1 == m + (n - 1);
    } else {
      assert v / 1 == v;
    }
  }

  lemma {:induction false} FixedLow(n: nat, v: nat)
    ensures Fixed(n, v % Pow2(n)) == Fixed(n, v)
  {
    if n > 0 {
      var p := Pow2(n - 1);
      HalveMod(v, p);
      var w := v % Pow2(n);
      assert w == 2 * (v / 2 % p) + v % 2;
      DivIs(w, v / 2 % p, v % 2, 2);
      FixedLow(n - 1, v / 2);
    }
  }

  lemma {:induction false} FixedValue(n: nat, v: nat)
    ensures Value(2, Fixed(n, v)) == v % Pow2(n)
  {
    if n > 0 {
      FixedValue(n - 1, v / 2);
      HalveMod(v, Pow2(n - 1));
      assert Fixed(n, v)[..n - 1] == Fixed(n - 1, v / 2);
    }
  }

  lemma {:induction false} ByteBitsFront(b: Byte, rest: seq<Byte>)
    ensures ByteBits([b] + rest) == Fixed(8, b) + ByteBits(rest)
    decreases |rest|
  {
    hide Fixed;
    var s := [b] + rest;
    if rest == [] {
      assert s[..0] == [];
    } else {
      var front, last := rest[..|rest| - 1], Fixed(8, rest[|rest| - 1]);
      ByteBitsFront(b, front);
      assert s[..|s| - 1] == [b] + front;
      assert Fixed(8, b) + ByteBits(front) + last == Fixed(8, b) + (ByteBits(front) + last);
    }
  }

  lemma ByteBitsNext(bytes: seq<Byte>, b: Byte)
    ensures ByteBits(bytes + [b]) == ByteBits(bytes) + Fixed(8, b)
  {
    assert (bytes + [b])[..|bytes|] == bytes;
  }

  // The middle bits of a number, cut on both sides in either order.
  lemma CutMiddle(d: nat, m: nat, n: nat)
    ensures d % Pow2(m + n) / Pow2(n) == d / Pow2(n) % Pow2(m)
    ensures d / Pow2(n) % Pow2(m) < Pow2(m)
  {
    Pow2Add(m, n);
    CutMiddleBy(d, Pow2(m), Pow2(n));
  }

  lemma Parts(n: nat, d: nat)
    requires d > 0
    ensures n == Over(n, d) * d + n % d && 0 <= n % d < d
  {
  }

  lemma CutMiddleBy(d: nat, p: nat, q: nat)
    requires p > 0 && q > 0
    ensures p * q > 0 && d % (p * q) / q == d / q % p && 0 <= d / q % p < p
  {
    hide Over;
    var h, r := Over(d, q), d % q;
    var a, b := Over(h, p), h % p;
    Parts(d, q);
    Parts(h, p);
    MulStrict(0, p, q);
    CutMiddleOf(d, h, a, b, r, p, q);
  }

  lemma CutMiddleOf(d: nat, h: nat, a: nat, b: nat, r: nat, p: nat, q: nat)
    requires p > 0 && q > 0 && p * q > 0 && d == h * q + r && h == a * p + b && r < q && b < p
    ensures d % (p * q) / q == b
  {
    TwoDigits(a, p, b, q, r);
    assert q * p == p * q;
    DivIs(d, a, b * q + r, p * q);
    DivOf(b, r, q);
  }

  // ----- One step of writing -----

  // What the writer ORs into its byte: the next bits of the data, moved to its offset.
  lemma NextChunk(data: nat, n: nat, offset: nat, bits: nat)
    requires 0 < n <= 64 && offset < 8 && bits == (if 8 - offset <= n then 8 - offset else n)
    ensures data * Pow2(64 - n) % Pow2(64) / Pow2(56 + offset)
         == data / Pow2(n - bits) % Pow2(bits) * Pow2(8 - offset - bits)
  {
    hide Pow2;
    Pow2Zero();
    Pow2Add(64 - n, n);
    CutMiddle(data, bits, n - bits);
    assert bits + (n - bits) == n;
    if bits == n {
      Pow2Add(56 + offset, 8 - offset - n);
      ShiftBoth(data, Pow2(n), Pow2(64 - n), Pow2(64), Pow2(56 + offset), Pow2(8 - offset - n));
    } else {
      Pow2Add(64 - n, n - bits);
      ShiftCut(data, Pow2(n), Pow2(64 - n), Pow2(64), Pow2(56 + offset), Pow2(n - bits));
    }
  }

  // Moving a number of fewer bits than there is room for up and down again.
  lemma ShiftBoth(data: nat, p: nat, q: nat, w: nat, d: nat, up: nat)
    requires p > 0 && q > 0 && w == q * p && w > 0 && d > 0 && q == d * up
    ensures data * q % w / d == data / 1 % p * up
  {
    var low := data % p;
    assert data * q % w == low * q by {
      ScaledMod(data, p, q);
    }
    assert low * q == low * up * d by {
      MulAssoc(low, d, up);
    }
    DivExact(low * up, d);
    assert data / 1 == data;
  }

  // Moving a number up and down far enough to cut off its low bits.
  lemma ShiftCut(data: nat, p: nat, q: nat, w: nat, d: nat, cut: nat)
    requires p > 0 && q > 0 && w == q * p && w > 0 && cut > 0 && d == q * cut && d > 0
    ensures data * q % w / d == data % p / cut
  {
    var low := data % p;
    assert data * q % w == low * q by {
      ScaledMod(data, p, q);
    }
    assert low * q / d == low / cut by {
      DivDiv(low * q, q, cut);
      DivExact(low, q);
    }
  }

  lemma Pow2Zero()
    ensures Pow2(0) == 1
  {
  }

  lemma DivExact(a: nat, p: nat)
    requires p > 0
    ensures a * p / p == a
  {
    DivOf(a, 0, p);
  }

  lemma ScaledMod(a: nat, m: nat, p: nat)
    requires m > 0 && p > 0
    ensures p * m > 0 && a * p % (p * m) == a % m * p
  {
    var q, r := a / m, a % m;
    assert a == q * m + r;
    MulStrict(0, p, m);
    MulMonotone(0, r, p);
    MulStrict(r, m, p);
    Distribute(q * m, r, p);
    MulAssoc(q, m, p);
    assert m * p == p * m;
    DivIs(a * p, q, r * p, p * m);
  }

  // The bits in the upper part of a byte whose lower part is clear.
  function Held(buffer: nat, offset: nat): (s: seq<nat>)
    requires offset <= 8
    ensures |s| == offset
  {
    Fixed(offset, Over(buffer, Pow2(8 - offset)))
  }

  // A chunk added below the bits held is appended to them.
  lemma ChunkAppends(buffer: nat, offset: nat, bits: nat, chunk: nat, added: nat)
    requires offset + bits <= 8 && buffer < 256 && buffer % Pow2(8 - offset) == 0 && chunk < Pow2(bits)
    requires added == chunk * Pow2(8 - offset - bits)
    ensures Or(buffer, added) == buffer + added < 256
    ensures (buffer + added) % Pow2(8 - offset - bits) == 0
    ensures Held(buffer + added, offset + bits) == Held(buffer, offset) + Fixed(bits, chunk)
  {
    hide Pow2, Fixed, Or;
    var low := 8 - offset - bits;
    var q := Over(buffer, Pow2(8 - offset));
    var joined := q * Pow2(bits) + chunk;
    Parts(buffer, Pow2(8 - offset));
    ChunkFits(q, offset, bits, chunk, added, joined);
    OrDisjoint(added, q, 8 - offset);
    ByteBound(q, offset, added);
    DivOf(joined, 0, Pow2(low));
    FixedSplit(offset, bits, joined);
    DivOf(q, chunk, Pow2(bits));
    FixedLow(bits, joined);
  }

  lemma ChunkFits(q: nat, offset: nat, bits: nat, chunk: nat, added: nat, joined: nat)
    requires offset + bits <= 8 && chunk < Pow2(bits) && added == chunk * Pow2(8 - offset - bits)
    requires joined == q * Pow2(bits) + chunk
    ensures q * Pow2(8 - offset) + added == joined * Pow2(8 - offset - bits)
    ensures added < Pow2(8 - offset)
  {
    hide Pow2;
    var low := 8 - offset - bits;
    Pow2Add(bits, low);
    assert bits + low == 8 - offset;
    MulAssoc(q, Pow2(bits), Pow2(low));
    Distribute(q * Pow2(bits), chunk, Pow2(low));
    MulStrict(chunk, Pow2(bits), Pow2(low));
  }

  lemma ByteBound(q: nat, offset: nat, added: nat)
    requires offset <= 8 && q * Pow2(8 - offset) < 256 && added < Pow2(8 - offset)
    ensures q * Pow2(8 - offset) + added < 256
  {
    hide Pow2;
    Pow2Add(offset, 8 - offset);
    Pow2Values();
    if q >= Pow2(offset) {
      MulMonotone(Pow2(offset), q, Pow2(8 - offset));
    }
    MulMonotone(q, Pow2(offset) - 1, Pow2(8 - offset));
    Distribute(Pow2(offset), 1, Pow2(8 - offset));
  }

  lemma WriteStep(data: nat, n: nat, buffer: nat, offset: nat, bits: nat, chunk: nat)
    requires 0 < n <= 64 && offset < 8 && bits == (if 8 - offset <= n then 8 - offset else n)
    requires buffer < 256 && buffer % Pow2(8 - offset) == 0
    requires chunk == data * Pow2(64 - n) % Pow2(64) / Pow2(56 + offset)
    ensures Or(buffer, chunk) < 256 && Or(buffer, chunk) % Pow2(8 - offset - bits) == 0
    ensures Held(Or(buffer, chunk), offset + bits) + Fixed(n - bits, data) == Held(buffer, offset) + Fixed(n, data)
  {
    hide Pow2, Fixed, Or, Held;
    NextChunk(data, n, offset, bits);
    CutMiddle(data, bits, n - bits);
    var piece := Over(data, Pow2(n - bits));
    ChunkAppends(buffer, offset, bits, piece % Pow2(bits), chunk);
    FixedLow(bits, piece);
    FixedSplit(bits, n - bits, data);
    assert bits + (n - bits) == n;
  }

  class BitStreamWriter {
    var stream: seq<Byte>
    var buffer: nat
    var offset: nat

    ghost predicate Loose()
      reads this
    {
      offset <= 8 && buffer < 256 && buffer % Pow2(8 - offset) == 0
    }

    ghost predicate Valid()
      reads this
    {
      Loose() && offset < 8
    }

    ghost function Contents(): (s: seq<nat>)
      requires Loose()
      reads this
    {
      ByteBits(stream) + Held(buffer, offset)
    }

    constructor (stream: seq<Byte>)
      ensures Valid() && Contents() == ByteBits(stream)
    {
      this.stream, buffer, offset := stream, 0, 0;
      new;
      Pow2Values();
    }

    method Flush()
      requires Loose()
      modifies this
      ensures Valid() && offset == 0
      ensures stream == if old(offset) == 0 then old(stream) else old(stream) + [old(buffer)]
      ensures Contents() == ByteBits(stream) == old(Contents()) + Fixed((8 - old(offset)) % 8, 0)
    {
      hide Fixed;
      EmptyBuffer(buffer);
      Padded(stream, buffer, offset);
      NoBits(0);
      if offset != 0 {
        stream := stream + [buffer];
        buffer := 0;
        offset := 0;
      }
      EmptyBuffer(buffer);
    }

    // Fills the byte with the first of the n low bits of the data.
    method Put(data: nat, n: nat) returns (bits: nat)
      requires Valid() && 0 < n <= 64
      modifies this
      ensures Loose() && 0 < bits <= n
      ensures Contents() + Fixed(n - bits, data) == old(Contents()) + Fixed(n, data)
    {
      hide Fixed, Held, Or, Pow2;
      bits := if 8 - offset <= n then 8 - offset else n;
      var chunk := Over(data * Pow2(64 - n) % Pow2(64), Pow2(56 + offset));
      WriteStep(data, n, buffer, offset, bits, chunk);
      Joined(ByteBits(stream), Held(Or(buffer, chunk), offset + bits), Fixed(n - bits, data),
             Held(buffer, offset), Fixed(n, data));
      buffer := Or(buffer, chunk);
      offset := offset + bits;
    }

    // Appends the nbits low bits of the data.
    method Write(data: nat, nbits: int) returns (ok: bool)
      requires Valid()
      modifies this
      ensures ok <==> 0 <= nbits <= 64
      ensures Valid() && Contents() == old(Contents()) + if ok then Fixed(nbits, data) else []
    {
      hide Fixed, Held, Pow2;
      if nbits < 0 || nbits > 64 {
        return false;
      }
      var n: nat := nbits;
      while n > 0
        invariant n <= 64 && Valid()
        invariant Contents() + Fixed(n, data) == old(Contents()) + Fixed(nbits, data)
      {
        var bits := Put(data, n);
        n := n - bits;
        if offset == 8 {
          FullBuffer(stream, buffer);
          Flush();
        }
      }
      NoBits(data);
      ok := true;
    }
  }

  lemma Joined(s: seq<nat>, a: seq<nat>, b: seq<nat>, c: seq<nat>, d: seq<nat>)
    requires a + b == c + d
    ensures s + a + b == s + c + d
  {
    assert s + a + b == s + (a + b) == s + (c + d) == s + c + d;
  }

  lemma EmptyBuffer(buffer: nat)
    ensures Held(buffer, 0) == []
  {
  }

  // Writing out a byte that is not full adds zeros.
  lemma Padded(stream: seq<Byte>, buffer: Byte, offset: nat)
    requires offset <= 8 && buffer % Pow2(8 - offset) == 0
    ensures ByteBits(stream + [buffer]) == ByteBits(stream) + Held(buffer, offset) + Fixed(8 - offset, 0)
  {
    hide Fixed, Pow2;
    ByteBitsNext(stream, buffer);
    FixedSplit(offset, 8 - offset, buffer);
    FixedLow(8 - offset, buffer);
  }

  lemma {:induction false} FixedZero(n: nat)
    ensures forall i | 0 <= i < n :: Fixed(n, 0)[i] == 0
  {
    if n > 0 {
      FixedZero(n - 1);
    }
  }

  lemma FullBuffer(stream: seq<Byte>, buffer: Byte)
    ensures ByteBits(stream) + Held(buffer, 8) == ByteBits(stream + [buffer])
  {
    hide Fixed;
    ByteBitsNext(stream, buffer);
    Pow2Zero();
    assert Over(buffer, 1) == buffer;
  }

  lemma NoBits(data: nat)
    ensures Fixed(0, data) == []
  {
  }

  // ----- Reading -----

  lemma AppendBit(x: nat, p: nat, v: nat)
    requires p > 0
    ensures (x * p + v / 2 % p) * 2 + v % 2 == x * (2 * p) + v % (2 * p)
  {
    HalveMod(v, p);
    MulAssoc(x, 2, p);
  }

  lemma {:induction false} FixedAppend(s: seq<nat>, n: nat, v: nat)
    ensures Value(2, s + Fixed(n, v)) == Value(2, s) * Pow2(n) + v % Pow2(n)
  {
    if n == 0 {
      assert s + Fixed(0, v) == s;
    } else {
      FixedAppend(s, n - 1, v / 2);
      var t := s + Fixed(n, v);
      assert t[..|t| - 1] == s + Fixed(n - 1, v / 2);
      AppendBit(Value(2, s), Pow2(n - 1), v);
    }
  }

  lemma {:induction false} BitsBound(s: seq<nat>)
    requires InBase(2, s)
    ensures Value(2, s) < Pow2(|s|)
    decreases |s|
  {
    if s != [] {
      BitsBound(s[..|s| - 1]);
    }
  }

  // (uint8_t)(buffer << offset) >> (8 - bits)
  function NextBits(buffer: nat, offset: nat, bits: nat): nat
    requires offset <= 8 && bits <= 8
  {
    Over(buffer * Pow2(offset) % 256, Pow2(8 - bits))
  }

  // data << bits | chunk
  function Append(data: nat, bits: nat, chunk: nat): nat {
    Or(data * Pow2(bits), chunk)
  }

  lemma ShiftDown(x: nat, o: nat, b: nat, l: nat, r: nat, d: nat)
    requires o > 0 && b > 0 && l > 0 && r == b * l && d == o * l && r > 0 && d > 0 && o * r == 256
    ensures x * o % 256 / d == x / l % b
  {
    var low := x % r;
    assert x * o % 256 == low * o by {
      ScaledMod(x, r, o);
    }
    assert low * o / d == low / l by {
      DivDiv(low * o, o, l);
      DivExact(low, o);
    }
    CutMiddleBy(x, b, l);
  }

  // What the reader takes out of its byte: the bits after the offset.
  lemma TakenChunk(buffer: nat, offset: nat, bits: nat)
    requires offset + bits <= 8
    ensures NextBits(buffer, offset, bits) == Over(buffer, Pow2(8 - offset - bits)) % Pow2(bits)
  {
    hide Pow2;
    var l := 8 - offset - bits;
    assert Pow2(offset) * Pow2(8 - offset) == 256 by {
      Pow2Values();
      Pow2Add(offset, 8 - offset);
    }
    assert Pow2(8 - offset) == Pow2(bits) * Pow2(l) by {
      Pow2Add(bits, l);
      assert bits + l == 8 - offset;
    }
    assert Pow2(8 - bits) == Pow2(offset) * Pow2(l) by {
      Pow2Add(offset, l);
      assert offset + l == 8 - bits;
    }
    ShiftDown(buffer, Pow2(offset), Pow2(bits), Pow2(l), Pow2(8 - offset), Pow2(8 - bits));
  }

  lemma ReadStep(taken: seq<nat>, buffer: nat, offset: nat, bits: nat, data: nat, chunk: nat)
    requires InBase(2, taken) && |taken| + bits <= 64 && offset + bits <= 8 && data == Value(2, taken)
    requires chunk == NextBits(buffer, offset, bits)
    ensures Fixed(8 - offset, buffer) == Fixed(8 - offset, buffer)[..bits] + Fixed(8 - offset - bits, buffer)
    ensures data * Pow2(bits) < Pow2(64)
    ensures Append(data, bits, chunk) == Value(2, taken + Fixed(8 - offset, buffer)[..bits])
  {
    hide Pow2, Fixed, Or, Value, NextBits;
    var x := Over(buffer, Pow2(8 - offset - bits));
    TakenChunk(buffer, offset, bits);
    FixedSplit(bits, 8 - offset - bits, buffer);
    assert bits + (8 - offset - bits) == 8 - offset;
    assert Fixed(8 - offset, buffer)[..bits] == Fixed(bits, x);
    FixedAppend(taken, bits, x);
    Parts(x, Pow2(bits));
    OrDisjoint(chunk, data, bits);
    BitsBound(taken);
    Pow2Add(|taken|, bits);
    MulStrict(data, Pow2(|taken|), Pow2(bits));
    Pow2Monotone(|taken| + bits, 64);
  }

  class BitStreamReader {
    var stream: seq<Byte>
    var buffer: Byte
    var offset: nat

    ghost predicate Valid()
      reads this
    {
      1 <= offset <= 8
    }

    // The bits still to be read.
    ghost function Rest(): (s: seq<nat>)
      requires Valid()
      reads this
      ensures InBase(2, s) && |s| == 8 - offset + 8 * |stream|
    {
      Fixed(8 - offset, buffer) + ByteBits(stream)
    }

    constructor (stream: seq<Byte>)
      ensures Valid() && Rest() == ByteBits(stream)
    {
      this.stream, buffer, offset := stream, 0, 8;
    }

    // Loads the next byte if the current one is used up.
    method Load() returns (ok: bool)
      requires Valid()
      modifies this
      ensures offset < 8 <==> ok
      ensures ok <==> old(Rest()) != []
      ensures if ok then old(Rest()) == Fixed(8 - offset, buffer) + ByteBits(stream) else unchanged(this)
    {
      hide Fixed;
      if offset == 8 {
        NoBits(buffer);
        if stream == [] {
          return false;
        }
        assert stream == [stream[0]] + stream[1..];
        ByteBitsFront(stream[0], stream[1..]);
        buffer := stream[0];
        stream := stream[1..];
        offset := 0;
      }
      ok := true;
    }

    // Takes the next of n bits from the current byte, or from the next one.
    method Take(n: nat, data: nat, ghost taken: seq<nat>) returns (ok: bool, bits: nat, next: nat)
      requires Valid() && 0 < n && |taken| + n <= 64 && InBase(2, taken) && data == Value(2, taken)
      modifies this
      ensures Valid() && (ok <==> old(Rest()) != [])
      ensures ok ==> 0 < bits <= n && bits <= |old(Rest())| && Rest() == old(Rest())[bits..]
      ensures ok ==> next == Value(2, taken + old(Rest())[..bits])
    {
      hide Fixed, Value, Pow2, NextBits, Append, ByteBits;
      ok := Load();
      if !ok {
        return false, 0, 0;
      }
      bits := if 8 - offset <= n then 8 - offset else n;
      var chunk := NextBits(buffer, offset, bits);
      ReadStep(taken, buffer, offset, bits, data, chunk);
      next := Append(data, bits, chunk);
      ghost var held := Fixed(8 - offset, buffer);
      Spliced(held, ByteBits(stream), bits);
      offset := offset + bits;
      assert held[bits..] == Fixed(8 - offset, buffer);
    }

    // The value of the next nbits bits, most significant first; fails at the end of data.
    method Read(nbits: int) returns (ok: bool, data: nat)
      requires Valid()
      modifies this
      ensures Valid() && (ok <==> 0 <= nbits <= 64 && nbits <= |old(Rest())|)
      ensures ok ==> data == Value(2, old(Rest())[..nbits]) && Rest() == old(Rest())[nbits..]
    {
      hide Fixed, Value, Rest;
      data := 0;
      if nbits < 0 || nbits > 64 {
        return false, 0;
      }
      var n: nat := nbits;
      ghost var all := Rest();
      NoValue(all);
      while n > 0
        invariant n <= nbits && Valid() && nbits - n <= |all| && Rest() == all[nbits - n..]
        invariant data == Value(2, all[..nbits - n])
      {
        ghost var done := nbits - n;
        var more, bits, next := Take(n, data, all[..done]);
        if !more {
          return false, 0;
        }
        assert all[..done] + all[done..][..bits] == all[..done + bits];
        assert all[done..][bits..] == all[done + bits..];
        data := next;
        n := n - bits;
      }
      ok := true;
    }
  }

  lemma Spliced(a: seq<nat>, b: seq<nat>, k: nat)
    requires k <= |a|
    ensures (a + b)[..k] == a[..k] && (a + b)[k..] == a[k..] + b
  {
  }

  lemma NoValue(s: seq<nat>)
    ensures Value(2, s[..0]) == 0
  {
  }
}
