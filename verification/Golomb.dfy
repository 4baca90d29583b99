/** Golomb-Rice codes: the quotient by a power of two in unary, then the remainder. */
module Golomb {
  import opened Bits
  import opened BitStream
  import opened Options
  import opened Radix

  datatype Reading = Reading(value: nat, rest: seq<nat>)

  function Ones(n: nat): (s: seq<nat>)
    ensures |s| == n && forall i | 0 <= i < n :: s[i] == 1
  {
    seq(n, _ => 1)
  }

  function Code(p: nat, x: nat): (s: seq<nat>) {
    Ones(Over(x, Pow2(p))) + [0] + Fixed(p, x)
  }

  function LeadingOnes(s: seq<nat>): (n: nat)
    ensures n <= |s| && (forall i | 0 <= i < n :: s[i] == 1) && (n < |s| ==> s[n] != 1)
  {
    if s == [] || s[0] != 1 then 0 else 1 + LeadingOnes(s[1..])
  }

  // What is read as 64-bit number at the front of a stream, unless the stream ends too early.
  function Decoded(p: nat, s: seq<nat>): (r: Option<Reading>) {
    var q := LeadingOnes(s);
    if q + 1 + p > |s| then None
    else Some(Reading((q * Pow2(p) + Value(2, s[q + 1..q + 1 + p])) % Pow2(64), s[q + 1 + p..]))
  }

  // A code has x / 2^p ones, a zero, and p bits with the value x modulo 2^p.
  lemma CodeShape(p: nat, x: nat)
    ensures var q := x / Pow2(p);
            && |Code(p, x)| == q + 1 + p && (forall i | 0 <= i < q :: Code(p, x)[i] == 1) && Code(p, x)[q] == 0
            && InBase(2, Code(p, x)) && Value(2, Code(p, x)[q + 1..]) == x % Pow2(p)
  {
    hide Pow2, Fixed, Value;
    var q := Over(x, Pow2(p));
    assert Code(p, x)[q + 1..] == Fixed(p, x);
    FixedValue(p, x);
  }

  // Decoding inverts encoding and leaves the rest of the stream.
  lemma DecodedCode(p: nat, x: nat, rest: seq<nat>)
    requires x < Pow2(64)
    ensures Decoded(p, Code(p, x) + rest) == Some(Reading(x, rest))
  {
    hide Pow2, Fixed, Value, LeadingOnes;
    var s := Code(p, x) + rest;
    var q := Over(x, Pow2(p));
    assert s[q] == 0;
    assert LeadingOnes(s) == q;
    assert s[q + 1..q + 1 + p] == Fixed(p, x);
    assert s[q + 1 + p..] == rest;
    FixedValue(p, x);
    Parts(x, Pow2(p));
    DivOf(0, x, Pow2(64));
  }

  lemma {:induction false} OnesFixed(n: nat, k: nat)
    requires n <= k
    ensures Fixed(n, Pow2(k) - 1) == Ones(n)
  {
    if n > 0 {
      OnesFixed(n - 1, k - 1);
      DivIs(Pow2(k) - 1, Pow2(k - 1) - 1, 1, 2);
    }
  }

  method GolombRiceEncode(writer: BitStreamWriter, p: nat, x: nat)
    requires p < 64 && x < Pow2(64) && writer.Valid()
    modifies writer
    ensures writer.Valid() && writer.Contents() == old(writer.Contents()) + Code(p, x)
  {
    hide Pow2, Fixed, Ones, Code;
    var q := Over(x, Pow2(p));
    ghost var quotient, before := q, writer.Contents();
    assert Ones(0) == [];
    assert before + Ones(0) == before;
    while q > 0
      invariant 0 <= q <= quotient && writer.Valid()
      invariant writer.Contents() == before + Ones(quotient - q)
    {
      var nbits := if q <= 64 then q else 64;
      OnesFixed(nbits, 64);
      OnesJoin(before, quotient - q, nbits);
      var _ := writer.Write(Pow2(64) - 1, nbits);
      q := q - nbits;
    }
    var _ := writer.Write(0, 1);
    ZeroBit();
    var _ := writer.Write(x, p);
    CodeParts(before, p, x);
  }

  lemma OnesJoin(before: seq<nat>, m: nat, n: nat)
    ensures before + Ones(m) + Ones(n) == before + Ones(m + n)
  {
  }

  lemma CodeParts(before: seq<nat>, p: nat, x: nat)
    ensures before + Ones(Over(x, Pow2(p))) + [0] + Fixed(p, x) == before + Code(p, x)
  {
    hide Pow2, Fixed;
  }

  lemma ZeroBit()
    ensures Fixed(1, 0) == [0]
  {
    assert Fixed(0, 0) == [];
  }

  method GolombRiceDecode(reader: BitStreamReader, p: nat) returns (ok: bool, x: nat)
    requires p < 64 && reader.Valid()
    modifies reader
    ensures reader.Valid()
    ensures match Decoded(p, old(reader.Rest()))
            case None => !ok
            case Some(r) => ok && x == r.value && reader.Rest() == r.rest
  {
    hide Pow2, Value, LeadingOnes, BitStreamReader.Rest;
    ghost var all := reader.Rest();
    var q := 0;
    assert all[0..] == all;
    OneBit(all, 0);
    var more, bit := reader.Read(1);
    while more && bit == 1
      invariant reader.Valid() && 0 <= q <= |all| && (forall i | 0 <= i < q :: all[i] == 1)
      invariant more <==> q < |all|
      invariant more ==> bit == all[q] && reader.Rest() == all[q + 1..]
      decreases |all| - q
    {
      q := q + 1;
      OneBit(all, q);
      more, bit := reader.Read(1);
    }
    assert LeadingOnes(all) == q;
    if !more {
      return false, 0;
    }
    assert q + 1 + p <= |all| ==> all[q + 1..][..p] == all[q + 1..q + 1 + p] && all[q + 1..][p..] == all[q + 1 + p..];
    var r;
    ok, r := reader.Read(p);
    x := (q * Pow2(p) + r) % Pow2(64);
  }

  lemma OneBit(all: seq<nat>, q: nat)
    ensures q < |all| ==> Value(2, all[q..][..1]) == all[q] && all[q..][1..] == all[q + 1..]
  {
  }
}
