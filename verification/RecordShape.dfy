/** Exactly which bytes are accepted as a configuration record, what is found in them,
    and what a refused record leaves. */
module RecordShape {
  import opened Bytes
  import opened CodecData
  import opened HvcData
  import opened NalParser
  import opened NalUnits
  import opened Sequences

  // ---------------------------------------------------------------- the lists

  lemma IdentifiedIs(c: Codec, data: seq<byte>, off: nat)
    requires Identify(c, data, off).Some?
    ensures var n := Identify(c, data, off).value;
      && off + 2 + |n| <= |data| && data[off..off + 2 + |n|] == Prefixed(n, 2)
      && |n| < Pow256(2) && HeaderReadable(c, n)
  {
    hide BigEndian, FromBigEndian, HeaderReadable;
    var n := Identify(c, data, off).value;
    IdentifiedParts(c, data, off);
    TwoBytes(data[off..off + 2]);
    FromBigEndianBound(data[off..off + 2]);
    PrefixedIs(n);
    assert data[off..off + 2 + |n|] == data[off..off + 2] + data[off + 2..off + 2 + |n|];
  }

  /** A list that was read to its end is the framing of its units. */
  lemma {:induction false} ListIsFramed(c: Codec, data: seq<byte>, off: nat, count: nat)
    requires off <= |data| && ReadList(c, data, off, count).1.Some?
    ensures var (found, end) := ReadList(c, data, off, count);
      && |found| == count && off <= end.value <= |data| && Readable(c, NalsOf(found))
      && data[off..end.value] == Framed(NalsOf(found), 2)
    decreases count
  {
    hide *;
    ReadListUnfolds(c, data, off, count);
    ReadableNone(c);
    FramedNone(2);
    ReadListCounts(c, data, off, count);
    if count > 0 {
      var n := Identify(c, data, off).value;
      var (rest, end) := ReadList(c, data, off + 2 + |n|, count - 1);
      IdentifiedIs(c, data, off);
      ListIsFramed(c, data, off + 2 + |n|, count - 1);
      ReadableMore(c, n, NalsOf(rest));
      FramedFront([n] + NalsOf(rest), 2);
      assert ([n] + NalsOf(rest))[1..] == NalsOf(rest);
      assert data[off..end.value] == data[off..off + 2 + |n|] + data[off + 2 + |n|..end.value];
    }
  }

  lemma ReadListCounts(c: Codec, data: seq<byte>, off: nat, count: nat)
    requires ReadList(c, data, off, count).1.Some?
    ensures |ReadList(c, data, off, count).0| == count && (count > 0 ==> Identify(c, data, off).Some?)
  {}

  lemma ReadableNone(c: Codec)
    ensures Readable(c, []) && NalsOf([]) == []
  {}

  lemma ReadableMore(c: Codec, n: Nal, rest: seq<Nal>)
    requires |n| < Pow256(2) && HeaderReadable(c, n) && Readable(c, rest)
    ensures Readable(c, [n] + rest)
  {
    hide HeaderReadable;
  }

  /** Every unit found lies where it is said to be found. */
  lemma {:induction false} FoundWhere(c: Codec, data: seq<byte>, off: nat, count: nat)
    ensures forall x <- ReadList(c, data, off, count).0 :: off <= x.at && NalAt(data, x.at, 2) == Some(x.nal)
    decreases count
  {
    hide *;
    ReadListUnfolds(c, data, off, count);
    if count > 0 && Identify(c, data, off).Some? {
      IdentifiedAt(c, data, off);
      FoundWhere(c, data, off + 2 + |Identify(c, data, off).value|, count - 1);
    }
  }

  lemma IdentifiedAt(c: Codec, data: seq<byte>, off: nat)
    requires Identify(c, data, off).Some?
    ensures NalAt(data, off, 2) == Identify(c, data, off)
  {}

  // --------------------------------------------------------------------- avcC

  /** An avcC with these two lists, and what follows them. */
  predicate IsAvc(data: seq<byte>, a: seq<Nal>, b: seq<Nal>, rest: seq<byte>) {
    && |data| >= 7 && data[0] == 1 && data[5] % 32 == |a| && |b| < 256
    && Readable(H264, a) && Readable(H264, b)
    && data[6..] == Framed(a, 2) + ([|b|] + Framed(b, 2)) + rest
  }

  lemma AvcIsRead(data: seq<byte>, a: seq<Nal>, b: seq<Nal>, rest: seq<byte>)
    requires IsAvc(data, a, b, rest)
    ensures AvcUnits(data).ok && NalsOf(AvcUnits(data).found) == a + b
  {
    hide AvcUnits, Readable, Framed;
    var front := data[..|data| - |rest|];
    assert data == front + rest && front[6..] == Framed(a, 2) + ([|b|] + Framed(b, 2));
    TwoListsRead(front, a, b, |b|);
    AvcStable(front, rest);
    assert b == [] ==> a + b == a + [];
  }

  lemma AvcHasLists(data: seq<byte>) returns (a: seq<Nal>, b: seq<Nal>, rest: seq<byte>)
    requires AvcUnits(data).ok
    ensures IsAvc(data, a, b, rest)
  {
    hide ReadList, Readable, Framed;
    var (sps, end) := ReadList(H264, data, 6, data[5] % 32);
    ListIsFramed(H264, data, 6, data[5] % 32);
    var at := end.value;
    var (pps, end2) := ReadList(H264, data, at + 1, data[at]);
    ListIsFramed(H264, data, at + 1, data[at]);
    a, b, rest := NalsOf(sps), NalsOf(pps), data[end2.value..];
    assert data[6..] == data[6..at] + ([data[at]] + data[at + 1..end2.value]) + rest;
  }

  /** Main result: a record is accepted exactly when it is an avcC of some two lists of
      readable units, whatever their types and whatever follows; and these are found. */
  lemma AvcAcceptedIff(data: seq<byte>)
    ensures AvcUnits(data).ok <==> exists a, b, rest :: IsAvc(data, a, b, rest)
    ensures forall a, b, rest :: IsAvc(data, a, b, rest) ==> NalsOf(AvcUnits(data).found) == a + b
  {
    hide AvcUnits, IsAvc;
    if AvcUnits(data).ok {
      var a, b, rest := AvcHasLists(data);
    }
    forall a, b, rest | IsAvc(data, a, b, rest)
      ensures AvcUnits(data).ok && NalsOf(AvcUnits(data).found) == a + b
    {
      AvcIsRead(data, a, b, rest);
    }
  }

  // --------------------------------------------------------------------- hvcC

  /** The size check wants a byte behind the three that head each array. */
  predicate Headed(arrays: seq<Array>, rest: seq<byte>) {
    arrays != [] && arrays[|arrays| - 1].nals == [] ==> rest != []
  }

  predicate ReadableArray(a: Array) {
    |a.nals| < 0x1_0000 && Readable(H265, a.nals)
  }

  /** An hvcC with these arrays, of whatever types, and what follows them. */
  predicate IsHvc(data: seq<byte>, arrays: seq<Array>, rest: seq<byte>) {
    && |data| >= 23 && data[0] <= 1 && data[22] == |arrays| && Headed(arrays, rest)
    && (forall a <- arrays :: ReadableArray(a)) && data[23..] == ArraysBytes(arrays) + rest
  }

  lemma ArrayStarts(data: seq<byte>, off: nat, a: Array, rest: seq<byte>)
    requires off <= |data| && data[off..] == ArrayBytes(a) + rest && ReadableArray(a)
    ensures off + 3 <= |data| && FromBigEndian(data[off + 1..off + 3]) == |a.nals|
    ensures data[off + 3..] == Framed(a.nals, 2) + rest
  {
    PowTwo();
    hide Readable, Framed, FromBigEndian, BigEndian;
    BigEndianRoundTrip(|a.nals|, 2);
    Reassociate([a.kind] + BigEndian(|a.nals|, 2), Framed(a.nals, 2), rest);
    HeadCuts(data, off, a.kind, BigEndian(|a.nals|, 2), Framed(a.nals, 2) + rest);
  }

  lemma FramedLength(nals: seq<Nal>)
    ensures nals != [] ==> Framed(nals, 2) != []
  {}

  lemma {:induction false} ArraysAreRead(data: seq<byte>, off: nat, arrays: seq<Array>, rest: seq<byte>)
    requires off <= |data| && data[off..] == ArraysBytes(arrays) + rest && Headed(arrays, rest)
    requires forall a <- arrays :: ReadableArray(a)
    ensures HvcArrays(data, off, |arrays|).ok
    ensures NalsOf(HvcArrays(data, off, |arrays|).found) == AllNals(arrays)
    decreases |arrays|
  {
    hide ArrayBytes, ArraysBytes, AllNals, HvcArrays, ReadList, Framed, Readable, FromBigEndian, NalsOf;
    if arrays == [] {
      NoArrays(data, off);
    } else {
      var a, tail := arrays[0], ArraysBytes(arrays[1..]) + rest;
      ArraysUnfold(arrays);
      Reassociate(ArrayBytes(a), ArraysBytes(arrays[1..]), rest);
      ArrayStarts(data, off, a, tail);
      FramedLength(a.nals);
      ArraysLength(arrays[1..]);
      ReadListFramed(H265, data, off + 3, a.nals, tail);
      var end := |data| - |tail|;
      ArraysAreRead(data, end, arrays[1..], rest);
      HvcArraysMore(data, off, a.nals, end, |arrays|);
    }
  }

  lemma ArraysLength(arrays: seq<Array>)
    ensures arrays != [] ==> ArraysBytes(arrays) != []
  {}

  lemma {:induction false} ArraysOfRead(data: seq<byte>, off: nat, n: nat) returns (arrays: seq<Array>, rest: seq<byte>)
    requires off <= |data| && HvcArrays(data, off, n).ok
    ensures |arrays| == n && Headed(arrays, rest) && (forall a <- arrays :: ReadableArray(a))
    ensures data[off..] == ArraysBytes(arrays) + rest
    decreases n
  {
    hide ReadList, Framed, Readable, FromBigEndian, ArrayBytes;
    if n == 0 {
      arrays, rest := [], data[off..];
    } else {
      var count := FromBigEndian(data[off + 1..off + 3]);
      var (found, end) := ReadList(H265, data, off + 3, count);
      ListIsFramed(H265, data, off + 3, count);
      var more;
      more, rest := ArraysOfRead(data, end.value, n - 1);
      var a := Array(data[off], NalsOf(found));
      arrays := [a] + more;
      ArrayIs(data, off, end.value, a);
      FramedNone(2);
      assert more != [] ==> arrays[|arrays| - 1] == more[|more| - 1];
      assert a.nals == [] ==> end.value == off + 3 < |data|;
      assert arrays[1..] == more && data[off..] == data[off..end.value] + data[end.value..];
      Reassociate(ArrayBytes(a), ArraysBytes(more), rest);
      ArraysUnfold(arrays);
    }
  }

  lemma ArrayIs(data: seq<byte>, off: nat, end: nat, a: Array)
    requires off + 3 <= end <= |data| && data[off] == a.kind
    requires FromBigEndian(data[off + 1..off + 3]) == |a.nals| && data[off + 3..end] == Framed(a.nals, 2)
    ensures data[off..end] == ArrayBytes(a) && |a.nals| < 0x1_0000
  {
    PowTwo();
    hide Framed, FromBigEndian, BigEndian;
    TwoBytes(data[off + 1..off + 3]);
    FromBigEndianBound(data[off + 1..off + 3]);
    assert data[off..end] == [data[off]] + data[off + 1..off + 3] + data[off + 3..end];
  }

  /** Main result: a record is accepted exactly when it is an hvcC of some arrays of
      readable units, whatever their types and whatever follows, where an array without
      units must not be the end of the data; and these units are found. */
  lemma HvcAcceptedIff(data: seq<byte>)
    ensures HvcUnits(data).ok <==> exists arrays, rest :: IsHvc(data, arrays, rest)
    ensures forall arrays, rest :: IsHvc(data, arrays, rest) ==> NalsOf(HvcUnits(data).found) == AllNals(arrays)
  {
    hide HvcArrays, ArraysBytes, AllNals, NalsOf, Headed, ReadableArray;
    if HvcUnits(data).ok {
      var arrays, rest := ArraysOfRead(data, 23, data[22]);
      assert IsHvc(data, arrays, rest);
    }
    forall arrays, rest | IsHvc(data, arrays, rest)
      ensures HvcUnits(data).ok && NalsOf(HvcUnits(data).found) == AllNals(arrays)
    {
      ArraysAreRead(data, 23, arrays, rest);
    }
  }

  // ------------------------------------------------------ what a record leaves

  /** A record that is too small or of another version changes nothing but the push. */
  lemma RefusedChangesNothing(c: Config, lib: Nal -> Header, p: Parser, data: seq<byte>)
    requires if c.codec.H264? then |data| < 7 || data[0] != 1 else |data| < 23 || data[0] > 1
    ensures var r := ReadRecord(c, lib, p, data);
      !r.ok && r.nl == c.nl && r.parser == p.(have := p.have.(pushCodec := false))
  {}

  /** The length size is in the low two bits of byte 4, or 21; and no frame has the
      parameter sets of an accepted record. */
  lemma AcceptedNames(c: Config, lib: Nal -> Header, p: Parser, data: seq<byte>)
    requires ReadRecord(c, lib, p, data).ok
    ensures var r, at := ReadRecord(c, lib, p, data), if c.codec.H264? then 4 else 21;
      && at < |data| && data[at] == data[at] / 4 * 4 + (r.nl - 1) && 1 <= r.nl <= 4
      && !r.parser.frame.flags.vps && !r.parser.frame.flags.sps && !r.parser.frame.flags.pps
  {
    hide ReadList, HvcArrays, Run;
  }

  /** Units in front of the first one that cannot be read have been handed on. */
  lemma {:induction false} FoundUpToError(c: Codec, data: seq<byte>, off: nat, count: nat, a: seq<Nal>, rest: seq<byte>)
    requires off <= |data| && data[off..] == Framed(a, 2) + rest && |a| <= count && Readable(c, a)
    ensures a <= NalsOf(ReadList(c, data, off, count).0)
    decreases count
  {
    hide *;
    if a != [] {
      FramedFront(a, 2);
      Reassociate(Prefixed(a[0], 2), Framed(a[1..], 2), rest);
      ReadableFront(c, a);
      FitRest(a, 2);
      NalAtPrefixed(data, off, a[0], Framed(a[1..], 2) + rest, 2);
      IdentifyIs(c, data, off, a[0]);
      ReadListUnfolds(c, data, off, count);
      FoundUpToError(c, data, off + 2 + |a[0]|, count - 1, a[1..], rest);
      assert a == [a[0]] + a[1..];
    }
  }
}
