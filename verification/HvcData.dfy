/** The H.265 record: what make_codec_data writes, and what set_caps rebuilds. */
module HvcData {
  import opened Bytes
  import opened NalUnits
  import opened NalParser
  import opened CodecData
  import opened Sequences

  // ----------------------------------------------------------------- the head

  /** What the writer takes from the SPS that the library parsed last. Without VUI
      the segmentation field is 0. */
  datatype SpsInfo = SpsInfo(
    profileSpace: nat, tier: nat, profileIdc: nat, compatibility: seq<bool>,
    progressive: bool, interlaced: bool, nonPacked: bool, frameOnly: bool,
    level: byte, segmentation: uint16,
    chroma: byte, lumaDepth: byte, chromaDepth: byte, subLayersMinus1: nat, nested: bool)

  /** The widths of the fields in the SPS. */
  predicate InRange(i: SpsInfo) {
    i.profileSpace <= 3 && i.tier <= 1 && i.profileIdc <= 31 && |i.compatibility| == 32 && i.subLayersMinus1 <= 7
  }

  function Bit(b: bool): nat { if b then 1 else 0 }

  /** Eight flags, the first one highest. */
  function FlagByte(f: seq<bool>): byte
    requires |f| == 8
  {
    Bit(f[0]) * 128 + Bit(f[1]) * 64 + Bit(f[2]) * 32 + Bit(f[3]) * 16 + Bit(f[4]) * 8 + Bit(f[5]) * 4 + Bit(f[6]) * 2
    + Bit(f[7])
  }

  /** Space and tier are both shifted by 5, so they share a bit. */
  function ProfileByte(i: SpsInfo): byte
    requires InRange(i)
  {
    (if i.profileSpace % 2 == 1 then i.profileSpace else i.profileSpace + i.tier) * 32 + i.profileIdc
  }

  /** The byte of section 8.3.3.1.2 of ISO/IEC 14496-15. */
  function StandardProfileByte(i: SpsInfo): byte
    requires InRange(i)
  {
    i.profileSpace * 64 + i.tier * 32 + i.profileIdc
  }

  /** The profile byte is the standard's if and only if the profile space is 0. */
  lemma ProfileByteIff(i: SpsInfo)
    requires InRange(i)
    ensures ProfileByte(i) == StandardProfileByte(i) <==> i.profileSpace == 0
  {}

  function Head(i: SpsInfo, nl: nat, arrays: nat): (r: seq<byte>)
    requires InRange(i) && 1 <= nl <= 4 && arrays <= 3
    ensures |r| == 23
  {
    [1, ProfileByte(i),
     FlagByte(i.compatibility[0..8]), FlagByte(i.compatibility[8..16]),
     FlagByte(i.compatibility[16..24]), FlagByte(i.compatibility[24..32]),
     Bit(i.progressive) * 128 + Bit(i.interlaced) * 64 + Bit(i.nonPacked) * 32 + Bit(i.frameOnly) * 16,
     0, 0, 0, 0, 0,
     i.level, 0xf0 + i.segmentation / 256 % 16, i.segmentation % 256, 0xfc,
     0xfc + i.chroma % 4, 0xf8 + i.lumaDepth % 8, 0xf8 + i.chromaDepth % 8,
     0, 0,
     (i.subLayersMinus1 + 1) * 8 + Bit(i.nested) * 4 + (nl - 1),
     arrays]
  }

  /** The weight of a bit of a byte, the first one highest. */
  function Weight(j: nat): nat
    requires j < 8
  {
    [128, 64, 32, 16, 8, 4, 2, 1][j]
  }

  /** Bit j of a byte, the first one highest. */
  function BitOf(x: byte, j: nat): nat
    requires j < 8
  {
    x / Weight(j) % 2
  }

  lemma BitIs(x: byte, j: nat, high: nat, bit: nat, low: nat)
    requires j < 8 && bit < 2 && low < Weight(j) && x == (high * 2 + bit) * Weight(j) + low
    ensures BitOf(x, j) == bit
  {
    var q := high * 2 + bit;
    assert x / Weight(j) == q by { WeightQuotient(q, low, j); }
    hide Weight;
    assert q % 2 == bit;
  }

  lemma WeightQuotient(q: nat, r: nat, j: nat)
    requires j < 8 && r < Weight(j)
    ensures (q * Weight(j) + r) / Weight(j) == q
  {
    match j
    case 0 => assert (q * 128 + r) / 128 == q;
    case 1 => assert (q * 64 + r) / 64 == q;
    case 2 => assert (q * 32 + r) / 32 == q;
    case 3 => assert (q * 16 + r) / 16 == q;
    case 4 => assert (q * 8 + r) / 8 == q;
    case 5 => assert (q * 4 + r) / 4 == q;
    case 6 => assert (q * 2 + r) / 2 == q;
    case 7 => assert r == 0;
  }

  /** The bits above and below bit j of a byte. */
  lemma FlagsAround(f: seq<bool>, j: nat) returns (high: nat, low: nat)
    requires |f| == 8 && j < 8
    ensures low < Weight(j) && FlagByte(f) == (high * 2 + Bit(f[j])) * Weight(j) + low
  {
    hide Weight, Bit;
    forall x: bool ensures Bit(x) < 2 { BitBound(x); }
    var a, b, c, d := Bit(f[0]), Bit(f[1]), Bit(f[2]), Bit(f[3]);
    var e, g, h, k := Bit(f[4]), Bit(f[5]), Bit(f[6]), Bit(f[7]);
    if j < 4 {
      var x := e * 8 + g * 4 + h * 2 + k;
      high, low := HighNibble(a, b, c, d, x, j);
    } else {
      var x := a * 8 + b * 4 + c * 2 + d;
      high, low := LowNibble(x, e, g, h, k, j);
    }
  }

  lemma HighNibble(a: nat, b: nat, c: nat, d: nat, x: nat, j: nat) returns (high: nat, low: nat)
    requires a < 2 && b < 2 && c < 2 && d < 2 && x < 16 && j < 4
    ensures low < Weight(j)
    ensures a * 128 + b * 64 + c * 32 + d * 16 + x == (high * 2 + [a, b, c, d][j]) * Weight(j) + low
  {
    match j
    case 0 => high, low := 0, b * 64 + c * 32 + d * 16 + x;
    case 1 => high, low := a, c * 32 + d * 16 + x;
    case 2 => high, low := a * 2 + b, d * 16 + x;
    case 3 => high, low := a * 4 + b * 2 + c, x;
  }

  lemma LowNibble(x: nat, a: nat, b: nat, c: nat, d: nat, j: nat) returns (high: nat, low: nat)
    requires a < 2 && b < 2 && c < 2 && d < 2 && 4 <= j < 8
    ensures low < Weight(j)
    ensures x * 16 + a * 8 + b * 4 + c * 2 + d == (high * 2 + [a, b, c, d][j - 4]) * Weight(j) + low
  {
    match j
    case 4 => high, low := x, b * 4 + c * 2 + d;
    case 5 => high, low := x * 2 + a, c * 2 + d;
    case 6 => high, low := x * 4 + a * 2 + b, d;
    case 7 => high, low := x * 8 + a * 4 + b * 2 + c, 0;
  }

  lemma FlagBits(f: seq<bool>, j: nat)
    requires |f| == 8 && j < 8
    ensures BitOf(FlagByte(f), j) == Bit(f[j])
  {
    hide *;
    var high, low := FlagsAround(f, j);
    BitBound(f[j]);
    BitIs(FlagByte(f), j, high, Bit(f[j]), low);
  }

  lemma BitBound(b: bool)
    ensures Bit(b) < 2
  {}

  /** The four bytes from byte 2 on hold the compatibility flags: flag k is bit k of
      them, the first bit highest. */
  lemma HeadFlags(i: SpsInfo, nl: nat, n: nat, k: nat)
    requires InRange(i) && 1 <= nl <= 4 && n <= 3 && k < 32
    ensures BitOf(Head(i, nl, n)[2 + k / 8], k % 8) == Bit(i.compatibility[k])
  {
    hide *;
    HasThirtyTwo(i);
    var f := i.compatibility[k / 8 * 8..k / 8 * 8 + 8];
    FlagBits(f, k % 8);
    FlagBytes(i, nl, n, k / 8);
  }

  lemma HasThirtyTwo(i: SpsInfo)
    requires InRange(i)
    ensures |i.compatibility| == 32
  {}

  lemma FlagBytes(i: SpsInfo, nl: nat, n: nat, b: nat)
    requires InRange(i) && 1 <= nl <= 4 && n <= 3 && b < 4
    ensures Head(i, nl, n)[2 + b] == FlagByte(i.compatibility[b * 8..b * 8 + 8])
  {
    hide FlagByte, ProfileByte, Bit;
  }

  /** Byte 1: the profile, and above it space and tier, which share bit 5. */
  lemma HeadProfile(i: SpsInfo, nl: nat, n: nat)
    requires InRange(i) && 1 <= nl <= 4 && n <= 3
    ensures var h := Head(i, nl, n);
      && h[0] == 1 && h[1] / 64 == i.profileSpace / 2 && h[1] % 32 == i.profileIdc
      && (h[1] / 32 % 2 == 1 <==> i.tier == 1 || i.profileSpace % 2 == 1)
  {
    var high := ProfileByte(i) / 32;
    assert ProfileByte(i) == high * 32 + i.profileIdc;
    hide FlagByte, Bit;
  }

  /** Byte 6: four flags and four zeros. */
  lemma HeadSource(i: SpsInfo, nl: nat, n: nat, j: nat)
    requires InRange(i) && 1 <= nl <= 4 && n <= 3 && j < 8
    ensures BitOf(Head(i, nl, n)[6], j) ==
      Bit([i.progressive, i.interlaced, i.nonPacked, i.frameOnly, false, false, false, false][j])
  {
    hide BitOf;
    var f := [i.progressive, i.interlaced, i.nonPacked, i.frameOnly, false, false, false, false];
    assert Head(i, nl, n)[6] == FlagByte(f) by { hide ProfileByte; }
    FlagBits(f, j);
  }

  /** Bytes 7 to 22: zeros, the level, and fields with the bits in front of them set. */
  lemma HeadFields(i: SpsInfo, nl: nat, n: nat)
    requires InRange(i) && 1 <= nl <= 4 && n <= 3
    ensures var h := Head(i, nl, n);
      && h[7] == h[8] == h[9] == h[10] == h[11] == 0 && h[12] == i.level
      && (h[13] as int - 240) * 256 + h[14] as int == i.segmentation % 4096 && 240 <= h[13]
      && h[15] == 252 && h[16] == 252 + i.chroma % 4 && h[17] == 248 + i.lumaDepth % 8
      && h[18] == 248 + i.chromaDepth % 8 && h[19] == 0 && h[20] == 0
      && h[21] == (i.subLayersMinus1 + 1) * 8 + (if i.nested then 4 else 0) + (nl - 1) && h[22] == n
  {
    hide FlagByte, ProfileByte;
    SegmentationIs(i.segmentation);
  }

  lemma SegmentationIs(x: uint16)
    ensures x / 256 % 16 * 256 + x % 256 == x % 4096
  {}

  // --------------------------------------------------------------- the arrays

  /** The units of one type, under its type byte. */
  datatype Array = Array(kind: byte, nals: seq<Nal>)

  function NonEmpty(kind: byte, nals: seq<Nal>): (r: seq<Array>)
    ensures |r| <= 1
  {
    if nals == [] then [] else [Array(kind, nals)]
  }

  function ArraysOf(st: Stores): (r: seq<Array>)
    ensures |r| <= 3
  {
    NonEmpty(0x20, Kept(st.vps)) + NonEmpty(0x21, Kept(st.sps)) + NonEmpty(0x22, Kept(st.pps))
  }

  function ArrayBytes(a: Array): seq<byte> {
    [a.kind] + BigEndian(|a.nals|, 2) + Framed(a.nals, 2)
  }

  function ArraysBytes(arrays: seq<Array>): seq<byte> {
    if arrays == [] then [] else ArrayBytes(arrays[0]) + ArraysBytes(arrays[1..])
  }

  function AllNals(arrays: seq<Array>): seq<Nal> {
    if arrays == [] then [] else arrays[0].nals + AllNals(arrays[1..])
  }

  predicate HvcWrites(st: Stores, last: Option<SpsInfo>) {
    Kept(st.sps) != [] && last.Some?
  }

  function HvcRecord(c: Config, st: Stores, i: SpsInfo): seq<byte>
    requires InRange(i) && 1 <= c.nl <= 4
  {
    Head(i, c.nl, |ArraysOf(st)|) + ArraysBytes(ArraysOf(st))
  }

  /** Each array's head names the type of its units: 32, 33 or 34. */
  lemma ArraysNamed(lib: Nal -> Header, st: Stores)
    requires WellKept(H265, lib, st)
    ensures forall a <- ArraysOf(st), n <- a.nals :: |n| >= 2 && TypeOf(H265, n) == a.kind
  {
    hide Kept, KindOf, WellSorted;
    KeptTypes(H265, lib, st.vps, VpsShelf);
    KeptTypes(H265, lib, st.sps, SpsShelf);
    KeptTypes(H265, lib, st.pps, PpsShelf);
  }

  /** There is an hvcC exactly when some slot has an SPS and the library has parsed one. */
  lemma HvcWritesIff(st: Stores, last: Option<SpsInfo>)
    ensures HvcWrites(st, last) <==> (exists i :: 0 <= i < |st.sps| && st.sps[i].Some?) && last.Some?
  {
    AnyKept(st.sps);
  }

  // ------------------------------------------------------------- reading back

  predicate GoodArray(a: Array) {
    a.nals != [] && |a.nals| < 0x1_0000 && Readable(H265, a.nals)
  }

  /** The size check before an array never rejects what the writer wrote, and all
      units come back in order. */
  lemma {:induction false} HvcArraysRead(data: seq<byte>, off: nat, arrays: seq<Array>)
    requires off <= |data| && data[off..] == ArraysBytes(arrays)
    requires forall a <- arrays :: GoodArray(a)
    ensures HvcArrays(data, off, |arrays|).ok
    ensures NalsOf(HvcArrays(data, off, |arrays|).found) == AllNals(arrays)
    decreases |arrays|
  {
    hide *;
    if arrays == [] {
      NoArrays(data, off);
    } else {
      var a, rest := arrays[0], ArraysBytes(arrays[1..]);
      ArraysUnfold(arrays);
      ArrayHead(data, off, a, rest);
      ReadListFramed(H265, data, off + 3, a.nals, rest);
      var end := |data| - |rest|;
      HvcArraysRead(data, end, arrays[1..]);
      HvcArraysMore(data, off, a.nals, end, |arrays|);
    }
  }

  lemma NoArrays(data: seq<byte>, off: nat)
    ensures HvcArrays(data, off, 0).ok && NalsOf(HvcArrays(data, off, 0).found) == AllNals([])
  {}

  lemma ArraysUnfold(arrays: seq<Array>)
    requires arrays != []
    ensures ArraysBytes(arrays) == ArrayBytes(arrays[0]) + ArraysBytes(arrays[1..])
    ensures AllNals(arrays) == arrays[0].nals + AllNals(arrays[1..])
  {}

  lemma ArrayHead(data: seq<byte>, off: nat, a: Array, rest: seq<byte>)
    requires off <= |data| && data[off..] == ArrayBytes(a) + rest && GoodArray(a)
    ensures off + 3 < |data| && FromBigEndian(data[off + 1..off + 3]) == |a.nals|
    ensures data[off + 3..] == Framed(a.nals, 2) + rest && Readable(H265, a.nals)
  {
    hide *;
    GoodHas(a);
    BigEndianRoundTrip(|a.nals|, 2);
    Reassociate([a.kind] + BigEndian(|a.nals|, 2), Framed(a.nals, 2), rest);
    HeadCuts(data, off, a.kind, BigEndian(|a.nals|, 2), Framed(a.nals, 2) + rest);
  }

  lemma GoodHas(a: Array)
    requires GoodArray(a)
    ensures |a.nals| < Pow256(2) && Framed(a.nals, 2) != [] && Readable(H265, a.nals)
    ensures ArrayBytes(a) == [a.kind] + BigEndian(|a.nals|, 2) + Framed(a.nals, 2)
  {
    PowTwo();
    FramedFront(a.nals, 2);
    hide FitPrefix;
  }

  /** A byte and two more in front of the rest. */
  lemma HeadCuts(data: seq<byte>, off: nat, kind: byte, count: seq<byte>, rest: seq<byte>)
    requires off <= |data| && |count| == 2 && data[off..] == ([kind] + count) + rest
    ensures off + 3 <= |data| && data[off + 1..off + 3] == count && data[off + 3..] == rest
  {
    var tail := data[off..];
    assert tail[1..3] == count && tail[3..] == rest;
    assert data[off + 1..off + 3] == tail[1..3] && data[off + 3..] == tail[3..];
  }

  lemma PowTwo()
    ensures Pow256(2) == 0x1_0000
  {
    assert Pow256(1) == 256;
  }

  lemma HvcArraysMore(data: seq<byte>, off: nat, nals: seq<Nal>, end: nat, n: nat)
    requires off + 3 < |data| && n > 0 && FromBigEndian(data[off + 1..off + 3]) == |nals|
    requires ReadList(H265, data, off + 3, |nals|).1 == Some(end)
    requires NalsOf(ReadList(H265, data, off + 3, |nals|).0) == nals
    ensures HvcArrays(data, off, n).ok == HvcArrays(data, end, n - 1).ok
    ensures NalsOf(HvcArrays(data, off, n).found) == nals + NalsOf(HvcArrays(data, end, n - 1).found)
  {
    hide ReadList, FromBigEndian, NalsOf;
    NalsOfJoin(ReadList(H265, data, off + 3, |nals|).0, HvcArrays(data, end, n - 1).found);
  }

  lemma HvcReadsBack(c: Config, st: Stores, i: SpsInfo)
    requires InRange(i) && 1 <= c.nl <= 4
    requires |st.vps| <= 16 && |st.sps| <= 16 && |st.pps| <= 64
    requires Readable(H265, Kept(st.vps)) && Readable(H265, Kept(st.sps)) && Readable(H265, Kept(st.pps))
    ensures HvcUnits(HvcRecord(c, st, i)).ok
    ensures NalsOf(HvcUnits(HvcRecord(c, st, i)).found) == Kept(st.vps) + Kept(st.sps) + Kept(st.pps)
  {
    hide HvcArrays, ArraysBytes, Kept, Readable, HvcRecord;
    var data, arrays := HvcRecord(c, st, i), ArraysOf(st);
    HvcLayout(c, st, i);
    HvcArraysRead(data, 23, arrays);
    ThreeArrays(Kept(st.vps), Kept(st.sps), Kept(st.pps));
  }

  lemma HvcLayout(c: Config, st: Stores, i: SpsInfo)
    requires InRange(i) && 1 <= c.nl <= 4
    ensures var data := HvcRecord(c, st, i);
      && |data| >= 23 && data[23..] == ArraysBytes(ArraysOf(st))
      && data[0] == 1 && data[22] == |ArraysOf(st)| && data[21] % 4 + 1 == c.nl
  {
    hide Head, ArraysBytes, ArraysOf;
    var head, data := Head(i, c.nl, |ArraysOf(st)|), HvcRecord(c, st, i);
    HeadHas(i, c.nl, |ArraysOf(st)|);
    assert data[23..] == ArraysBytes(ArraysOf(st));
    assert data[0] == head[0] && data[21] == head[21] && data[22] == head[22];
  }

  lemma HeadHas(i: SpsInfo, nl: nat, n: nat)
    requires InRange(i) && 1 <= nl <= 4 && n <= 3
    ensures Head(i, nl, n)[0] == 1 && Head(i, nl, n)[21] % 4 + 1 == nl && Head(i, nl, n)[22] == n
  {
    hide *;
    HeadProfile(i, nl, n);
    HeadFields(i, nl, n);
    var q := (i.subLayersMinus1 + 1) * 2 + if i.nested then 1 else 0;
    assert Head(i, nl, n)[21] == q * 4 + (nl - 1);
  }

  lemma ThreeArrays(a: seq<Nal>, b: seq<Nal>, d: seq<Nal>)
    ensures AllNals(NonEmpty(0x20, a) + NonEmpty(0x21, b) + NonEmpty(0x22, d)) == a + b + d
  {
    AllNalsJoin(NonEmpty(0x20, a), NonEmpty(0x21, b) + NonEmpty(0x22, d));
    AllNalsJoin(NonEmpty(0x21, b), NonEmpty(0x22, d));
    AllNalsOne(0x20, a);
    AllNalsOne(0x21, b);
    AllNalsOne(0x22, d);
    hide *;
    Reassociate(NonEmpty(0x20, a), NonEmpty(0x21, b), NonEmpty(0x22, d));
    Reassociate(a, b, d);
  }

  lemma AllNalsOne(kind: byte, nals: seq<Nal>)
    ensures AllNals(NonEmpty(kind, nals)) == nals
  {}

  lemma AllNalsJoin(a: seq<Array>, b: seq<Array>)
    requires |a| <= 1
    ensures AllNals(a + b) == AllNals(a) + AllNals(b)
  {
    if a == [] { assert a + b == b; } else { assert (a + b)[1..] == b; }
  }

  /** The length size is in the last byte but one of the head. */
  lemma HvcNames(c: Config, st: Stores, i: SpsInfo)
    requires c.codec.H265? && InRange(i) && 1 <= c.nl <= 4
    ensures LengthSizeIn(c, HvcRecord(c, st, i)) == c.nl
  {
    hide HvcRecord;
    HvcLayout(c, st, i);
  }

  // --------------------------------------------------- the round trip, hvcC

  predicate HvcFaithful(st: Stores) {
    FitPrefix(Kept(st.vps), 2) && FitPrefix(Kept(st.sps), 2) && FitPrefix(Kept(st.pps), 2)
  }

  /** For every store that process_nal can make, the record read back into empty stores
      rebuilds exactly these stores and the length size, if and only if every size
      fits in 16 bits; as it does in every run (StoredRecords). */
  lemma HvcRoundTrip(c: Config, lib: Nal -> Header, p: Parser, st: Stores, i: SpsInfo)
    requires c.codec.H265? && 1 <= c.nl <= 4 && WellKept(H265, lib, st) && HvcWrites(st, Some(i)) && InRange(i)
    requires p.stores == EmptyStores(H265)
    ensures var r := ReadRecord(c, lib, p, HvcRecord(c, st, i));
      r.ok && r.nl == c.nl && r.parser.stores == st <==> HvcFaithful(st)
  {
    hide ReadRecord, HvcRecord, HvcFaithful, WellKept, HvcWrites;
    if HvcFaithful(st) {
      HvcRebuilds(c, lib, p, st, i);
    } else if ReadRecord(c, lib, p, HvcRecord(c, st, i)).parser.stores == st {
      HvcAllFound(c, lib, p, st, i);
    }
  }

  lemma HvcRebuilds(c: Config, lib: Nal -> Header, p: Parser, st: Stores, i: SpsInfo)
    requires c.codec.H265? && 1 <= c.nl <= 4 && WellKept(H265, lib, st) && HvcWrites(st, Some(i)) && InRange(i)
    requires p.stores == EmptyStores(H265) && HvcFaithful(st)
    ensures var r := ReadRecord(c, lib, p, HvcRecord(c, st, i));
      r.ok && r.nl == c.nl && r.parser.stores == st
  {
    hide *;
    var data := HvcRecord(c, st, i);
    var q, cfg := p.(have := p.have.(pushCodec := false)), c.(nl := LengthSizeIn(c, data));
    HvcNames(c, st, i);
    HvcKept(lib, st, i);
    KeptReadable(H265, lib, st.vps, VpsShelf);
    KeptReadable(H265, lib, st.sps, SpsShelf);
    KeptReadable(H265, lib, st.pps, PpsShelf);
    HvcReadsBack(c, st, i);
    forall s ensures Welcome(H265, s, Kept(st.sps), SpsShelf) {
      SpsWelcome(lib, s, st);
    }
    UnitsMatch(lib, HvcUnits(data).found);
    RereadIs(c, lib, p, data);
    EmptyIs();
    FillsAll(cfg, lib, q, st, Units(lib, HvcUnits(data).found));
    OverlayEmpty(st.vps);
    OverlayEmpty(st.sps);
    OverlayEmpty(st.pps);
  }

  lemma EmptyIs()
    ensures EmptyStores(H265) == Stores(Empty(16), Empty(16), Empty(64))
  {}

  lemma RereadIs(c: Config, lib: Nal -> Header, p: Parser, data: seq<byte>)
    requires c.codec.H265?
    ensures var r := ReadRecord(c, lib, p, data);
      && r.ok == HvcUnits(data).ok && r.nl == LengthSizeIn(c, data)
      && r.parser.stores == Run(c.(nl := r.nl), p.(have := p.have.(pushCodec := false)),
                                Units(lib, HvcUnits(data).found)).stores
  {}

  lemma HvcKept(lib: Nal -> Header, st: Stores, i: SpsInfo)
    requires WellKept(H265, lib, st) && HvcWrites(st, Some(i)) && HvcFaithful(st)
    ensures |st.vps| == 16 && |st.sps| == 16 && |st.pps| == 64 && Kept(st.sps) != []
    ensures WellSorted(H265, lib, st.vps, VpsShelf) && WellSorted(H265, lib, st.sps, SpsShelf)
    ensures WellSorted(H265, lib, st.pps, PpsShelf)
    ensures FitPrefix(Kept(st.vps), 2) && FitPrefix(Kept(st.sps), 2) && FitPrefix(Kept(st.pps), 2)
  {}

  lemma SpsWelcome(lib: Nal -> Header, s: State, st: Stores)
    requires WellSorted(H265, lib, st.sps, SpsShelf)
    ensures Welcome(H265, s, Kept(st.sps), SpsShelf)
  {
    KeptIds(H265, lib, st.sps, SpsShelf);
  }

  lemma FillsAll(c: Config, lib: Nal -> Header, p: Parser, st: Stores, log: seq<Unit>)
    requires WellSorted(c.codec, lib, st.vps, VpsShelf)
    requires WellSorted(c.codec, lib, st.sps, SpsShelf) && WellSorted(c.codec, lib, st.pps, PpsShelf)
    requires |st.vps| == |p.stores.vps| && |st.sps| == |p.stores.sps| && |st.pps| == |p.stores.pps|
    requires Kept(st.sps) != []
    requires forall s :: Welcome(c.codec, s, Kept(st.sps), SpsShelf)
    requires Matches(lib, log, Kept(st.vps) + Kept(st.sps) + Kept(st.pps))
    ensures Run(c, p, log).stores ==
      Stores(Overlay(st.vps, p.stores.vps), Overlay(st.sps, p.stores.sps), Overlay(st.pps, p.stores.pps))
  {
    hide Run, WellSorted, Kept;
    var n := |Kept(st.vps)|;
    var a, b := log[..n], log[n..];
    assert a + b == log;
    RunJoin(c, p, a, b);
    FillsShelf(c, lib, p, st.vps, VpsShelf, a);
    FillsSpsAndPps(c, lib, Run(c, p, a), st, b);
  }

  lemma HvcAllFound(c: Config, lib: Nal -> Header, p: Parser, st: Stores, i: SpsInfo)
    requires c.codec.H265? && 1 <= c.nl <= 4 && WellKept(H265, lib, st) && InRange(i)
    requires p.stores == EmptyStores(H265)
    requires ReadRecord(c, lib, p, HvcRecord(c, st, i)).parser.stores == st
    ensures HvcFaithful(st)
  {
    hide Run, HvcRecord, HvcUnits, Kept, WellSorted;
    var data := HvcRecord(c, st, i);
    var q, cfg := p.(have := p.have.(pushCodec := false)), c.(nl := LengthSizeIn(c, data));
    KeptFrom(cfg, lib, q, HvcUnits(data).found, st.vps, VpsShelf);
    KeptFrom(cfg, lib, q, HvcUnits(data).found, st.sps, SpsShelf);
    KeptFrom(cfg, lib, q, HvcUnits(data).found, st.pps, PpsShelf);
    HvcUnitsFit(data);
  }

  lemma HvcUnitsFit(data: seq<byte>)
    ensures FitPrefix(NalsOf(HvcUnits(data).found), 2)
  {
    if |data| >= 23 && data[0] <= 1 { HvcArraysFit(data, 23, data[22]); }
  }

  lemma {:induction false} HvcArraysFit(data: seq<byte>, off: nat, n: nat)
    ensures FitPrefix(NalsOf(HvcArrays(data, off, n).found), 2)
    decreases n
  {
    hide FitPrefix, NalsOf, ReadList, FromBigEndian;
    FitNone();
    if n > 0 && off + 3 < |data| {
      var count := FromBigEndian(data[off + 1..off + 3]);
      var (nals, end) := ReadList(H265, data, off + 3, count);
      ReadListFits(H265, data, off + 3, count);
      if end.Some? {
        HvcArraysFit(data, end.value, n - 1);
        var rest := HvcArrays(data, end.value, n - 1).found;
        NalsOfJoin(nals, rest);
        FitJoin(NalsOf(nals), NalsOf(rest));
      }
    }
  }

  lemma FitNone()
    ensures FitPrefix(NalsOf([]), 2)
  {}
}
