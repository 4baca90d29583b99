/** The variable-length size prefix of serialized data. */
module CompactSize {
  import opened Bits
  import opened Options

  const MAX_SIZE := 0x02000000

  datatype Reading = Reading(value: nat, rest: seq<Byte>)

  // k bytes, least significant first.
  function LittleEndian(k: nat, n: nat): (s: seq<Byte>)
    ensures |s| == k
  {
    if k == 0 then [] else [n % 256] + LittleEndian(k - 1, n / 256)
  }

  function FromLittleEndian(s: seq<Byte>): nat {
    if s == [] then 0 else s[0] + 256 * FromLittleEndian(s[1..])
  }

  lemma {:induction false} LittleEndianBack(k: nat, n: nat)
    requires n < Bytes(k)
    ensures FromLittleEndian(LittleEndian(k, n)) == n
  {
    if k > 0 {
      LittleEndianBack(k - 1, n / 256);
      assert LittleEndian(k, n)[1..] == LittleEndian(k - 1, n / 256);
    }
  }

  lemma {:induction false} LittleEndianOf(s: seq<Byte>)
    ensures FromLittleEndian(s) < Bytes(|s|)
    ensures LittleEndian(|s|, FromLittleEndian(s)) == s
  {
    if s != [] {
      LittleEndianOf(s[1..]);
      assert s == [s[0]] + s[1..];
    }
  }

  // The i-th byte counts multiples of 256 to the i.
  lemma {:induction false} LittleEndianAt(k: nat, n: nat, i: nat)
    requires i < k
    ensures Bytes(i) > 0 && LittleEndian(k, n)[i] == n / Bytes(i) % 256
  {
    if i > 0 {
      LittleEndianAt(k - 1, n / 256, i - 1);
      BytesDivide(n, i - 1);
    } else {
      assert n / 1 == n;
    }
  }

  lemma BytesDivide(n: nat, i: nat)
    requires Bytes(i) > 0
    ensures n / 256 / Bytes(i) == n / Bytes(i + 1)
  {
    var b, q := Bytes(i), n / 256;
    DivIs(q, q / b, q % b, b);
    MulAssoc(256, q / b, b);
    assert n == q / b * (256 * b) + (256 * (q % b) + n % 256);
    DivIs(n, q / b, 256 * (q % b) + n % 256, 256 * b);
  }

  // How many numbers k bytes can hold.
  function Bytes(k: nat): nat {
    if k == 0 then 1 else 256 * Bytes(k - 1)
  }

  function WriteCompactSize(n: nat): (s: seq<Byte>)
    requires n < 0x1_0000_0000_0000_0000
  {
    if n < 253 then [n]
    else if n <= 0xffff then [253] + LittleEndian(2, n)
    else if n <= 0xffff_ffff then [254] + LittleEndian(4, n)
    else [255] + LittleEndian(8, n)
  }

  // A number of k bytes after the marker that must not fit in a shorter form.
  function ReadLong(s: seq<Byte>, k: nat, least: nat): (r: Option<Reading>) {
    if |s| < 1 + k then None
    else
      var n := FromLittleEndian(s[1..1 + k]);
      if n < least || n > MAX_SIZE then None else Some(Reading(n, s[1 + k..]))
  }

  function ReadCompactSize(s: seq<Byte>): (r: Option<Reading>) {
    if s == [] then None
    else if s[0] < 253 then Some(Reading(s[0], s[1..]))
    else if s[0] == 253 then ReadLong(s, 2, 253)
    else if s[0] == 254 then ReadLong(s, 4, 0x1_0000)
    else ReadLong(s, 8, 0x1_0000_0000)
  }

  lemma ReadLongBack(marker: Byte, k: nat, n: nat, least: nat, rest: seq<Byte>)
    requires least <= n < Bytes(k)
    ensures ReadLong([marker] + LittleEndian(k, n) + rest, k, least)
         == if n <= MAX_SIZE then Some(Reading(n, rest)) else None
  {
    hide LittleEndian, FromLittleEndian, Bytes;
    var s := [marker] + LittleEndian(k, n) + rest;
    assert s[1..1 + k] == LittleEndian(k, n);
    assert s[1 + k..] == rest;
    LittleEndianBack(k, n);
  }

  // A size is read back exactly when it is within the limit that the reader imposes.
  lemma ReadWritten(n: nat, rest: seq<Byte>)
    requires n < 0x1_0000_0000_0000_0000
    ensures ReadCompactSize(WriteCompactSize(n) + rest) == if n <= MAX_SIZE then Some(Reading(n, rest)) else None
  {
    hide LittleEndian, ReadLong;
    ByteCounts();
    if n < 253 {
    } else if n <= 0xffff {
      ReadLongBack(253, 2, n, 253, rest);
    } else if n <= 0xffff_ffff {
      ReadLongBack(254, 4, n, 0x1_0000, rest);
    } else {
      ReadLongBack(255, 8, n, 0x1_0000_0000, rest);
    }
  }

  // Sizes below 253 take one byte; two, four and eight bytes after a marker are used from
  // there up to what they hold.
  lemma WrittenForm(n: nat)
    requires n < 0x1_0000_0000_0000_0000
    ensures n <= 252 <==> WriteCompactSize(n) == [n]
    ensures 253 <= n <= 65535 <==> |WriteCompactSize(n)| == 3
    ensures 65536 <= n <= 4294967295 <==> |WriteCompactSize(n)| == 5
    ensures 4294967296 <= n <==> |WriteCompactSize(n)| == 9
    ensures var s := WriteCompactSize(n);
            |s| > 1 ==>
              && s[0] == (if |s| == 3 then 0xfd else if |s| == 5 then 0xfe else 0xff)
              && FromLittleEndian(s[1..]) == n
  {
    hide LittleEndian, FromLittleEndian;
    ByteCounts();
    var s := WriteCompactSize(n);
    if |s| > 1 {
      var k := |s| - 1;
      assert s[1..] == LittleEndian(k, n);
      LittleEndianBack(k, n);
    }
  }

  lemma ByteCounts()
    ensures Bytes(2) == 0x1_0000 && Bytes(4) == 0x1_0000_0000 && Bytes(8) == 0x1_0000_0000_0000_0000
  {
  }

  // There is one encoding of a size: what was read is what would be written.
  lemma WrittenRead(s: seq<Byte>)
    requires ReadCompactSize(s).Some?
    ensures var r := ReadCompactSize(s).value;
      r.value <= MAX_SIZE && s == WriteCompactSize(r.value) + r.rest
  {
    hide LittleEndian, FromLittleEndian;
    ByteCounts();
    var r := ReadCompactSize(s).value;
    if s[0] >= 253 {
      var k := if s[0] == 253 then 2 else if s[0] == 254 then 4 else 8;
      LittleEndianOf(s[1..1 + k]);
      assert s == [s[0]] + s[1..1 + k] + s[1 + k..];
    } else {
      assert s == [s[0]] + s[1..];
    }
  }
}
