/**
 * Golomb-coded sets, the block filters of BIP 158: the hashes of the elements, sorted, are
 * stored as Golomb-Rice codes of their differences after the number of elements.
 */
module GCSFilter {
  import opened Bits
  import opened BitStream
  import opened CompactSize
  import opened Golomb
  import opened Options

  type Element(==, !new)
  type Word = x: nat | x < 0x1_0000_0000_0000_0000

  // ----- Sorted hashes -----

  ghost predicate Ascending(s: seq<nat>) {
    forall i, j | 0 <= i < j < |s| :: s[i] <= s[j]
  }

  function Inserted(s: seq<nat>, x: nat): (r: seq<nat>) {
    if s == [] || x <= s[0] then [x] + s else [s[0]] + Inserted(s[1..], x)
  }

  function Sorted(s: seq<nat>): (r: seq<nat>) {
    if s == [] then [] else Inserted(Sorted(s[1..]), s[0])
  }

  lemma {:induction false} InsertedBag(s: seq<nat>, x: nat)
    ensures multiset(Inserted(s, x)) == multiset(s) + multiset{x}
  {
    if s != [] && x > s[0] {
      InsertedBag(s[1..], x);
      assert s == [s[0]] + s[1..];
    }
  }

  lemma {:induction false} InsertedAscending(s: seq<nat>, x: nat)
    requires Ascending(s)
    ensures Ascending(Inserted(s, x)) && Inserted(s, x) != []
    ensures Inserted(s, x)[0] == if s == [] || x <= s[0] then x else s[0]
  {
    if s != [] && x > s[0] {
      InsertedAscending(s[1..], x);
    }
  }

  lemma {:induction false} SortedKeeps(s: seq<nat>)
    ensures Ascending(Sorted(s)) && multiset(Sorted(s)) == multiset(s)
  {
    if s != [] {
      SortedKeeps(s[1..]);
      InsertedBag(Sorted(s[1..]), s[0]);
      InsertedAscending(Sorted(s[1..]), s[0]);
      assert s == [s[0]] + s[1..];
    }
  }

  // ----- The encoding of a sorted list -----

  function Previous(values: seq<nat>, i: nat): nat
    requires i <= |values|
  {
    if i == 0 then 0 else values[i - 1]
  }

  // The codes of the differences from the i-th value on.
  ghost function Codes(p: nat, values: seq<nat>, i: nat): (s: seq<nat>)
    requires i <= |values| && Ascending(values)
    decreases |values| - i
  {
    if i == |values| then []
    else
      assert Previous(values, i) <= values[i];
      Code(p, values[i] - Previous(values, i)) + Codes(p, values, i + 1)
  }

  // Differences keep the codes short: p + 1 bits for each value, and one more for each
  // multiple of 2^p up to the last of them.
  lemma {:induction false} CodesShort(p: nat, values: seq<nat>, i: nat)
    requires i <= |values| && Ascending(values)
    ensures Previous(values, i) <= Previous(values, |values|)
    ensures |Codes(p, values, i)| <=
            (|values| - i) * (p + 1) + (Previous(values, |values|) - Previous(values, i)) / Pow2(p)
    decreases |values| - i
  {
    hide Pow2, Code;
    if i < |values| {
      CodesShort(p, values, i + 1);
      var d, e := values[i] - Previous(values, i), Previous(values, |values|) - values[i];
      CodeShape(p, d);
      DivSplit(d, e, Pow2(p));
      Distribute(1, |values| - i - 1, p + 1);
    } else {
      DivOf(0, 0, Pow2(p));
    }
  }

  lemma DivSplit(d: nat, e: nat, m: nat)
    requires m > 0
    ensures d / m + e / m <= (d + e) / m
  {
    Parts(d, m);
    Parts(e, m);
    var q := d / m + e / m;
    Distribute(d / m, e / m, m);
    DivMonotone(q * m, d + e, m);
    DivOf(q, 0, m);
  }

  ghost predicate Fit(values: seq<nat>) {
    Ascending(values) && forall i | 0 <= i < |values| :: values[i] < Pow2(64)
  }

  // ----- What an encoding means -----

  datatype Listing = Listing(values: seq<nat>, rest: seq<nat>)

  // Reads n codes as differences of 64-bit numbers.
  function ReadValues(p: nat, n: nat, last: nat, bits: seq<nat>): (r: Option<Listing>)
    ensures r.Some? ==> |r.value.values| == n
    decreases n
  {
    if n == 0 then Some(Listing([], bits))
    else match Decoded(p, bits)
      case None => None
      case Some(d) =>
        var value := (last + d.value) % Pow2(64);
        match ReadValues(p, n - 1, value, d.rest)
        case None => None
        case Some(more) => Some(Listing([value] + more.values, more.rest))
  }

  // The values an encoded filter holds, with the bits left over, if it can be read at all.
  function Values(p: nat, encoded: seq<Byte>): (r: Option<Listing>) {
    match ReadCompactSize(encoded)
    case None => None
    case Some(size) => ReadValues(p, size.value, 0, ByteBits(size.rest))
  }

  // Codes are read back as the values they were made of.
  lemma {:induction false} ReadCodes(p: nat, values: seq<nat>, i: nat, rest: seq<nat>)
    requires i <= |values| && Fit(values)
    ensures ReadValues(p, |values| - i, Previous(values, i), Codes(p, values, i) + rest)
         == Some(Listing(values[i..], rest))
    decreases |values| - i
  {
    hide Pow2, Code, Decoded;
    if i < |values| {
      var delta := values[i] - Previous(values, i);
      var more := Codes(p, values, i + 1) + rest;
      assert Codes(p, values, i) + rest == Code(p, delta) + more;
      DecodedCode(p, delta, more);
      DivOf(0, values[i], Pow2(64));
      ReadCodes(p, values, i + 1, rest);
      assert values[i..] == [values[i]] + values[i + 1..];
    } else {
      assert Codes(p, values, i) + rest == rest;
      assert values[i..] == [];
    }
  }

  ghost predicate Encodes(p: nat, values: seq<nat>, encoded: seq<Byte>) {
    && Fit(values) && |values| < 0x1_0000_0000
    && var prefix := WriteCompactSize(|values|);
    && prefix <= encoded
    && var bits := ByteBits(encoded[|prefix|..]);
       var codes := Codes(p, values, 0);
       && codes <= bits && |bits| < |codes| + 8
       && forall i | |codes| <= i < |bits| :: bits[i] == 0
  }

  // A written filter is read back as its values and padding; it is readable exactly when the
  // number of elements is within the limit for sizes.
  lemma EncodedValues(p: nat, values: seq<nat>, encoded: seq<Byte>)
    requires Encodes(p, values, encoded)
    ensures |values| > MAX_SIZE ==> Values(p, encoded) == None
    ensures |values| <= MAX_SIZE ==>
      && Values(p, encoded).Some?
      && Values(p, encoded).value.values == values
      && |Values(p, encoded).value.rest| < 8
  {
    hide Pow2, ReadCompactSize, WriteCompactSize, ReadValues, ByteBits;
    var prefix := WriteCompactSize(|values|);
    var body := encoded[|prefix|..];
    assert encoded == prefix + body;
    ReadWritten(|values|, body);
    var codes := Codes(p, values, 0);
    var bits := ByteBits(body);
    var rest := bits[|codes|..];
    assert bits == codes + rest;
    ReadCodes(p, values, 0, rest);
    assert values[0..] == values;
  }

  // ----- Hashing -----

  // The upper half of a 128-bit product.
  function FastRange64(x: Word, n: Word): (r: Word)
    ensures n > 0 ==> r < n
  {
    ProductBelow(x, n);
    Over(x * n, 0x1_0000_0000_0000_0000)
  }

  // The range is divided evenly: r is reached from the hashes x with x / 2^64 between r / n and
  // (r + 1) / n.
  lemma FastRangeIs(x: Word, n: Word, r: nat)
    ensures r == FastRange64(x, n) <==> r * 0x1_0000_0000_0000_0000 <= x * n < (r + 1) * 0x1_0000_0000_0000_0000
  {
    ProductBelow(x, n);
  }

  lemma ProductBelow(x: Word, n: Word)
    ensures 0 <= x * n <= n * 0x1_0000_0000_0000_0000
    ensures n > 0 ==> x * n / 0x1_0000_0000_0000_0000 < n
    ensures x * n / 0x1_0000_0000_0000_0000 < 0x1_0000_0000_0000_0000
  {
    MulMonotone(0, x, n);
    if n > 0 {
      MulStrict(x, 0x1_0000_0000_0000_0000, n);
    }
  }

  function Hashes(siphash: Element -> Word, f: Word, elements: seq<Element>): (s: seq<nat>)
    ensures |s| == |elements|
  {
    seq(|elements|, i requires 0 <= i < |elements| => FastRange64(siphash(elements[i]), f))
  }

  // The hashes of a filter's own elements and of what it is asked for.
  function HashedSet(siphash: Element -> Word, f: Word, elements: seq<Element>): (s: seq<nat>) {
    Sorted(Hashes(siphash, f, elements))
  }

  lemma SortedMembers(s: seq<nat>)
    ensures Ascending(Sorted(s)) && |Sorted(s)| == |s| && forall x :: x in Sorted(s) <==> x in s
  {
    hide Sorted;
    var r := Sorted(s);
    SortedKeeps(s);
    assert |r| == |multiset(r)| == |multiset(s)| == |s|;
    assert forall x :: x in r <==> x in multiset(r);
    assert forall x :: x in s <==> x in multiset(s);
  }

  lemma HashesHold(siphash: Element -> Word, f: Word, elements: seq<Element>)
    ensures forall x :: x in Hashes(siphash, f, elements) <==> exists e | e in elements :: x == FastRange64(siphash(e), f)
  {
    hide FastRange64;
    var h := Hashes(siphash, f, elements);
    forall e | e in elements
      ensures FastRange64(siphash(e), f) in h
    {
      var i :| 0 <= i < |elements| && elements[i] == e;
      assert h[i] == FastRange64(siphash(e), f);
    }
    forall x | x in h
      ensures exists e | e in elements :: x == FastRange64(siphash(e), f)
    {
      var i :| 0 <= i < |h| && h[i] == x;
      assert elements[i] in elements;
    }
  }

  lemma HashedSetHolds(siphash: Element -> Word, f: Word, elements: seq<Element>)
    ensures Fit(HashedSet(siphash, f, elements)) && |HashedSet(siphash, f, elements)| == |elements|
    ensures forall x :: x in HashedSet(siphash, f, elements) <==> exists e | e in elements :: x == FastRange64(siphash(e), f)
  {
    hide Sorted, FastRange64, Pow2, Ascending, Hashes;
    var h := Hashes(siphash, f, elements);
    var s := Sorted(h);
    SortedMembers(h);
    HashesHold(siphash, f, elements);
    WordBits();
    forall i | 0 <= i < |s|
      ensures s[i] < Pow2(64)
    {
      assert s[i] in s;
    }
  }

  lemma WordBits()
    ensures Pow2(64) == 0x1_0000_0000_0000_0000
  {
    Pow2Values();
    Pow2Add(32, 32);
  }

  ghost predicate Meets(a: seq<nat>, b: seq<nat>) {
    exists x | x in a :: x in b
  }

  // Asking for several elements at once is asking for each.
  lemma AnyIsSome(siphash: Element -> Word, f: Word, values: seq<nat>, elements: seq<Element>)
    ensures Meets(values, HashedSet(siphash, f, elements))
       <==> exists e | e in elements :: FastRange64(siphash(e), f) in values
  {
    HashedSetHolds(siphash, f, elements);
  }

  // The filter that the elements give, if they are not too many to be read back, has each of
  // them.
  lemma NoFalseNegatives(siphash: Element -> Word, p: nat, f: Word, elements: seq<Element>, encoded: seq<Byte>)
    requires Encodes(p, HashedSet(siphash, f, elements), encoded)
    ensures Values(p, encoded).Some? <==> |elements| <= MAX_SIZE
    ensures Values(p, encoded).Some? ==>
      && Ascending(Values(p, encoded).value.values)
      && forall x :: x in Values(p, encoded).value.values <==>
           exists e | e in elements :: x == FastRange64(siphash(e), f)
  {
    hide HashedSet, Values, Encodes, FastRange64;
    HashedSetHolds(siphash, f, elements);
    EncodedValues(p, HashedSet(siphash, f, elements), encoded);
  }

  // ----- The filter -----

  ghost predicate Apart(a: seq<nat>, b: seq<nat>) {
    forall i, j | 0 <= i < |a| && 0 <= j < |b| :: a[i] != b[j]
  }

  // Nothing seen is among the queries, and those passed are below the current value.
  ghost predicate Passed(seen: seq<nat>, value: nat, hashes: seq<nat>, index: nat) {
    index <= |hashes| && Apart(seen, hashes) && forall j | 0 <= j < index :: hashes[j] < value
  }

  lemma PassedNext(seen: seq<nat>, value: nat, hashes: seq<nat>, from: nat, index: nat)
    requires Ascending(seen + [value]) && Ascending(hashes) && from <= index <= |hashes|
    requires Passed(seen, Previous(seen, |seen|), hashes, from) && forall j | from <= j < index :: hashes[j] < value
    ensures forall j | 0 <= j < index :: hashes[j] < value
    ensures index < |hashes| && hashes[index] > value ==> Passed(seen + [value], value, hashes, index)
  {
    var s := seen + [value];
    assert seen != [] ==> s[|seen| - 1] <= s[|seen|];
    assert Previous(seen, |seen|) <= value;
    if index < |hashes| && hashes[index] > value {
      assert forall j | index <= j < |hashes| :: hashes[j] > value;
    }
  }

  // All queries are below the last value seen: nothing more can be met.
  lemma QueriesExhausted(seen: seq<nat>, value: nat, more: seq<nat>, hashes: seq<nat>)
    requires Ascending(seen + [value] + more) && Apart(seen, hashes)
    requires forall j | 0 <= j < |hashes| :: hashes[j] < value
    ensures !Meets(seen + [value] + more, hashes)
  {
    var s := seen + [value] + more;
    assert s[|seen|] == value;
    forall x | x in s
      ensures x !in hashes
    {
      var i :| 0 <= i < |s| && s[i] == x;
      if i < |seen| {
        assert seen[i] == x;
      }
    }
  }

  lemma ApartIsNotMeets(a: seq<nat>, b: seq<nat>)
    ensures Apart(a, b) <==> !Meets(a, b)
  {
    if !Apart(a, b) {
      var i, j :| 0 <= i < |a| && 0 <= j < |b| && a[i] == b[j];
      assert a[i] in a && a[i] in b;
    }
  }

  lemma PrefixAscending(a: seq<nat>, b: seq<nat>)
    requires Ascending(a + b)
    ensures Ascending(a)
  {
    assert forall i | 0 <= i < |a| :: (a + b)[i] == a[i];
  }

  class Filter {
    const p: nat
    const m: nat
    const siphash: Element -> Word
    var n: nat
    var f: Word
    var encoded: seq<Byte>

    ghost predicate Valid()
      reads this
    {
      && p < 64 && m < 0x1_0000_0000 && n < 0x1_0000_0000 && f == n * m
      && (ReadCompactSize(encoded).Some? ==> ReadCompactSize(encoded).value.value == n)
    }

    // The empty filter.
    constructor (p: nat, m: nat, siphash: Element -> Word)
      requires p < 64 && m < 0x1_0000_0000
      ensures Valid() && this.p == p && this.m == m && this.siphash == siphash
      ensures Values(p, encoded) == Some(Listing([], []))
    {
      this.p, this.m, this.siphash := p, m, siphash;
      n, f, encoded := 0, 0, [0];
    }

    // Fails exactly for 2^32 elements or more, and then changes nothing.
    method Build(elements: seq<Element>) returns (ok: bool)
      requires Valid()
      modifies this
      ensures Valid() && (ok <==> |elements| < 0x1_0000_0000)
      ensures ok ==> n == |elements| && f == n * m
      ensures ok ==> Encodes(p, HashedSet(siphash, f, elements), encoded)
      ensures !ok ==> unchanged(this)
    {
      hide Pow2, ReadCompactSize, WriteCompactSize, ByteBits, HashedSet;
      if |elements| >= 0x1_0000_0000 {
        return false;
      }
      n := |elements|;
      RangeFits(n, m);
      f := n * m;
      ghost var values := HashedSet(siphash, f, elements);
      HashedSetHolds(siphash, f, elements);
      var prefix := WriteCompactSize(n);
      if elements == [] {
        encoded := prefix;
        ReadWritten(n, []);
        assert encoded == prefix + [];
        EmptyEncodes(p, values, prefix);
        return true;
      }
      var body := WriteCodes(HashedSet(siphash, f, elements));
      encoded := prefix + body;
      assert encoded[|prefix|..] == body;
      ReadWritten(n, body);
      ok := true;
    }

    method WriteCodes(values: seq<nat>) returns (body: seq<Byte>)
      requires p < 64 && Fit(values)
      ensures Codes(p, values, 0) <= ByteBits(body) && |ByteBits(body)| < |Codes(p, values, 0)| + 8
      ensures forall i | |Codes(p, values, 0)| <= i < |ByteBits(body)| :: ByteBits(body)[i] == 0
    {
      hide Pow2, Code, ByteBits, BitStreamWriter.Contents, Fixed;
      var writer := new BitStreamWriter([]);
      var last, i := 0, 0;
      ghost var all := Codes(p, values, 0);
      NoBytes();
      while i < |values|
        invariant i <= |values| && fresh(writer) && writer.Valid() && last == Previous(values, i)
        invariant writer.Contents() + Codes(p, values, i) == all
      {
        var delta := values[i] - last;
        GolombRiceEncode(writer, p, delta);
        last := values[i];
        i := i + 1;
      }
      ghost var pad := (8 - writer.offset) % 8;
      writer.Flush();
      FixedZero(pad);
      body := writer.stream;
    }

    // Takes over an encoding; unless told to skip the check, only one that holds exactly as
    // many codes as it says.
    method Load(filter: seq<Byte>, skip: bool) returns (ok: bool)
      requires Valid()
      modifies this
      ensures ok <==> ReadCompactSize(filter).Some? && (skip || (Values(p, filter).Some? && |Values(p, filter).value.rest| < 8))
      ensures ok ==> Valid() && encoded == filter
    {
      hide Pow2, ByteBits, ReadValues;
      encoded := filter;
      var size := ReadCompactSize(filter);
      if size.None? {
        return false;
      }
      WrittenRead(filter);
      n := size.value.value;
      RangeFits(n, m);
      f := n * m;
      if skip {
        return true;
      }
      ok := CheckCodes(size.value.rest);
    }

    method CheckCodes(body: seq<Byte>) returns (ok: bool)
      requires p < 64
      ensures ok <==> ReadValues(p, n, 0, ByteBits(body)).Some? && |ReadValues(p, n, 0, ByteBits(body)).value.rest| < 8
    {
      hide Pow2, ByteBits, Decoded;
      var reader := new BitStreamReader(body);
      ghost var all := ReadValues(p, n, 0, ByteBits(body));
      var i := 0;
      ghost var value: nat := 0;
      while i < n
        invariant i <= n && fresh(reader) && reader.Valid()
        invariant all.Some? <==> ReadValues(p, n - i, value, reader.Rest()).Some?
        invariant all.Some? ==> all.value.rest == ReadValues(p, n - i, value, reader.Rest()).value.rest
      {
        var more, delta := GolombRiceDecode(reader, p);
        if !more {
          return false;
        }
        value := (value + delta) % Pow2(64);
        i := i + 1;
      }
      ok := reader.stream == [];
    }

    // Merges the decoded values with the sorted queries. What is reported is there; and when
    // the values ascend, as they do in a filter that was built, what is there is reported.
    method MatchInternal(hashes: seq<nat>) returns (r: Option<bool>)
      requires Valid() && Ascending(hashes)
      ensures ReadCompactSize(encoded).None? ==> r == None
      ensures Values(p, encoded).Some? ==> r.Some? && Answers(r.value, Values(p, encoded).value.values, hashes)
    {
      hide Pow2, ByteBits, ReadValues, Decoded, Passed, Meets, Ascending, Listed, Answers;
      var size := ReadCompactSize(encoded);
      if size.None? {
        return None;
      }
      assert size.value.value == n;
      var reader := new BitStreamReader(size.value.rest);
      ghost var all := ReadValues(p, n, 0, reader.Rest());
      ghost var seen: seq<nat> := [];
      var value, index, i := 0, 0, 0;
      MatchStart(p, n, all, reader.Rest(), hashes);
      while i < n
        invariant i <= n && fresh(reader) && reader.Valid()
        invariant value == Previous(seen, |seen|) && Listed(p, all, seen, n - i, reader.Rest())
        invariant index <= |hashes| && (Ascending(seen) ==> Passed(seen, value, hashes, index))
      {
        ghost var bits := reader.Rest();
        var more, delta := GolombRiceDecode(reader, p);
        ListedStep(p, all, seen, n - i, bits);
        if !more {
          return None;
        }
        ghost var before, from := seen, index;
        value := (value + delta) % Pow2(64);
        seen := seen + [value];
        while true
          invariant from <= index <= |hashes| && forall j | from <= j < index :: hashes[j] < value
          decreases |hashes| - index
        {
          if index == |hashes| {
            MatchExhausted(p, all, before, value, n - i - 1, reader.Rest(), hashes, from);
            return Some(false);
          } else if hashes[index] == value {
            MatchFound(p, all, seen, n - i - 1, reader.Rest(), hashes, value);
            return Some(true);
          } else if hashes[index] > value {
            break;
          }
          index := index + 1;
        }
        MatchGoesOn(before, value, hashes, from, index);
        i := i + 1;
      }
      MatchEnds(p, all, seen, value, reader.Rest(), hashes, index);
      return Some(false);
    }

    function HashToRange(e: Element): Word
      reads this
    {
      FastRange64(siphash(e), f)
    }

    method Match(e: Element) returns (r: Option<bool>)
      requires Valid()
      ensures ReadCompactSize(encoded).None? ==> r == None
      ensures Values(p, encoded).Some? ==>
        && r.Some?
        && (r.value ==> HashToRange(e) in Values(p, encoded).value.values)
        && (Ascending(Values(p, encoded).value.values) ==> (r.value <==> HashToRange(e) in Values(p, encoded).value.values))
    {
      hide Values, HashToRange;
      r := MatchInternal([HashToRange(e)]);
    }

    method MatchAny(elements: seq<Element>) returns (r: Option<bool>)
      requires Valid()
      ensures ReadCompactSize(encoded).None? ==> r == None
      ensures Values(p, encoded).Some? && Ascending(Values(p, encoded).value.values) ==>
        r.Some? && (r.value <==> exists e | e in elements :: HashToRange(e) in Values(p, encoded).value.values)
    {
      hide Values, HashedSet, FastRange64;
      HashedSetHolds(siphash, f, elements);
      r := MatchInternal(HashedSet(siphash, f, elements));
      if Values(p, encoded).Some? {
        AnyIsSome(siphash, f, Values(p, encoded).value.values, elements);
      }
    }
  }

  // A filter of some elements, asked for one: it answers yes exactly if one of its elements
  // has the same hash, so always for its own. It cannot be read if it has too many elements.
  method BuildAndMatch(p: nat, m: nat, siphash: Element -> Word, elements: seq<Element>, e: Element)
    returns (r: Option<bool>)
    requires p < 64 && m < 0x1_0000_0000
    ensures r.Some? <==> |elements| <= MAX_SIZE
    ensures r.Some? ==>
      && 0 <= |elements| * m < 0x1_0000_0000_0000_0000
      && (r.value <==> exists d | d in elements :: FastRange64(siphash(d), |elements| * m) == FastRange64(siphash(e), |elements| * m))
    ensures r.Some? && e in elements ==> r.value
  {
    hide Values, Encodes, HashedSet, FastRange64;
    var filter := new Filter(p, m, siphash);
    var ok := filter.Build(elements);
    if !ok {
      return None;
    }
    NoFalseNegatives(siphash, p, filter.f, elements, filter.encoded);
    BuiltReadable(p, HashedSet(siphash, filter.f, elements), filter.encoded);
    HashedSetHolds(siphash, filter.f, elements);
    r := filter.Match(e);
  }

  // What a filter writes is accepted back exactly if it does not have too many elements, and
  // then has the same number of elements.
  method BuildAndLoad(p: nat, m: nat, siphash: Element -> Word, elements: seq<Element>) returns (ok: bool, n: nat)
    requires p < 64 && m < 0x1_0000_0000
    ensures ok <==> |elements| <= MAX_SIZE
    ensures ok ==> n == |elements|
  {
    hide Values, Encodes, HashedSet, FastRange64;
    var filter := new Filter(p, m, siphash);
    var built := filter.Build(elements);
    if !built {
      return false, 0;
    }
    HashedSetHolds(siphash, filter.f, elements);
    EncodedValues(p, HashedSet(siphash, filter.f, elements), filter.encoded);
    BuiltReadable(p, HashedSet(siphash, filter.f, elements), filter.encoded);
    var copy := new Filter(p, m, siphash);
    ok := copy.Load(filter.encoded, false);
    n := copy.n;
  }

  lemma BuiltReadable(p: nat, values: seq<nat>, encoded: seq<Byte>)
    requires Encodes(p, values, encoded)
    ensures ReadCompactSize(encoded).Some? <==> |values| <= MAX_SIZE
    ensures ReadCompactSize(encoded).Some? ==> ReadCompactSize(encoded).value.value == |values|
  {
    hide ReadCompactSize, WriteCompactSize, ByteBits, Codes;
    var prefix := WriteCompactSize(|values|);
    assert encoded == prefix + encoded[|prefix|..];
    ReadWritten(|values|, encoded[|prefix|..]);
  }

  // A true answer is right, and over ascending values a false one is too.
  ghost predicate Answers(r: bool, values: seq<nat>, hashes: seq<nat>) {
    if r then Meets(values, hashes) else Ascending(values) ==> !Meets(values, hashes)
  }

  lemma RangeFits(n: nat, m: nat)
    requires n < 0x1_0000_0000 && m < 0x1_0000_0000
    ensures 0 <= n * m < 0x1_0000_0000_0000_0000
  {
    MulMonotone(0, n, m);
    MulMonotone(n, 0x1_0000_0000, m);
  }

  lemma NoBytes()
    ensures ByteBits([]) == []
  {
  }

  lemma EmptyEncodes(p: nat, values: seq<nat>, encoded: seq<Byte>)
    requires values == [] && encoded == WriteCompactSize(0)
    ensures Fit(values) && Encodes(p, values, encoded)
  {
  }

  // The values seen so far are the first ones of the listing, and the rest can still be read.
  ghost predicate Listed(p: nat, all: Option<Listing>, seen: seq<nat>, n: nat, bits: seq<nat>) {
    all.Some? ==>
      var rest := ReadValues(p, n, Previous(seen, |seen|), bits);
      rest.Some? && all.value.values == seen + rest.value.values
  }

  lemma MatchStart(p: nat, n: nat, all: Option<Listing>, bits: seq<nat>, hashes: seq<nat>)
    requires all == ReadValues(p, n, 0, bits)
    ensures Listed(p, all, [], n, bits) && Passed([], 0, hashes, 0)
  {
    hide ReadValues;
    if all.Some? {
      assert [] + all.value.values == all.value.values;
    }
  }

  lemma ListedStep(p: nat, all: Option<Listing>, seen: seq<nat>, n: nat, bits: seq<nat>)
    requires n > 0 && Listed(p, all, seen, n, bits)
    ensures all.Some? ==> Decoded(p, bits).Some?
    ensures Decoded(p, bits).Some? ==>
      Listed(p, all, seen + [(Previous(seen, |seen|) + Decoded(p, bits).value.value) % Pow2(64)], n - 1,
             Decoded(p, bits).value.rest)
  {
    hide Decoded, Pow2;
    if all.Some? && Decoded(p, bits).Some? {
      var next := (Previous(seen, |seen|) + Decoded(p, bits).value.value) % Pow2(64);
      var more := ReadValues(p, n - 1, next, Decoded(p, bits).value.rest);
      assert seen + ([next] + more.value.values) == seen + [next] + more.value.values;
    }
  }

  lemma MatchFound(p: nat, all: Option<Listing>, seen: seq<nat>, n: nat, bits: seq<nat>, hashes: seq<nat>, value: nat)
    requires Listed(p, all, seen, n, bits) && value in seen && value in hashes
    ensures all.Some? ==> Answers(true, all.value.values, hashes)
  {
    hide ReadValues;
  }

  lemma MatchExhausted(p: nat, all: Option<Listing>, seen: seq<nat>, value: nat, n: nat, bits: seq<nat>,
                       hashes: seq<nat>, from: nat)
    requires Listed(p, all, seen + [value], n, bits) && Ascending(hashes) && from <= |hashes|
    requires Ascending(seen) ==> Passed(seen, Previous(seen, |seen|), hashes, from)
    requires forall j | from <= j < |hashes| :: hashes[j] < value
    ensures all.Some? ==> Answers(false, all.value.values, hashes)
  {
    hide ReadValues, Meets, Ascending, Previous;
    if all.Some? && Ascending(all.value.values) {
      var more := all.value.values[|seen| + 1..];
      assert all.value.values == seen + [value] + more;
      PrefixAscending(seen + [value], more);
      PrefixAscending(seen, [value]);
      PassedNext(seen, value, hashes, from, |hashes|);
      QueriesExhausted(seen, value, more, hashes);
    }
  }

  lemma MatchGoesOn(seen: seq<nat>, value: nat, hashes: seq<nat>, from: nat, index: nat)
    requires Ascending(hashes) && from <= index < |hashes| && hashes[index] > value
    requires Ascending(seen) ==> Passed(seen, Previous(seen, |seen|), hashes, from)
    requires forall j | from <= j < index :: hashes[j] < value
    ensures Ascending(seen + [value]) ==> Passed(seen + [value], value, hashes, index)
  {
    hide Passed, Ascending, Previous;
    if Ascending(seen + [value]) {
      PrefixAscending(seen, [value]);
      PassedNext(seen, value, hashes, from, index);
    }
  }

  lemma MatchEnds(p: nat, all: Option<Listing>, seen: seq<nat>, value: nat, bits: seq<nat>, hashes: seq<nat>, index: nat)
    requires Listed(p, all, seen, 0, bits) && (Ascending(seen) ==> Passed(seen, value, hashes, index))
    ensures all.Some? ==> Answers(false, all.value.values, hashes)
  {
    ApartIsNotMeets(seen, hashes);
    assert seen + [] == seen;
  }
}
