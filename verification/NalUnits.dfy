/** NAL units of both codecs, and their framing by a length prefix. */
module NalUnits {
  import opened Bytes
  import opened Sequences

  type Nal = seq<byte>

  datatype Codec = H264 | H265

  /** What the parser does with a unit. A slice may be a random access point
      (IDR, or any IRAP in H.265) or an extension slice that is not MVC. */
  datatype Kind =
    | TooShort | Vps | Sps | SubsetSps | Pps | Sei | Aud | Other
    | Slice(randomAccess: bool)
    | SliceExt

  /** nal_unit_type: section 7.3.1 of ITU-T H.264, section 7.3.1.2 of ITU-T H.265. */
  function TypeOf(c: Codec, n: Nal): nat
    requires n != []
  {
    if c.H264? then n[0] as int % 32 else n[0] as int / 2 % 64
  }

  /** The switch in process_nal. */
  function KindOf(c: Codec, n: Nal): Kind {
    if |n| < 2 then TooShort else
      var t := TypeOf(c, n);
      if c.H264? then
        if t == 15 then SubsetSps
        else if t == 7 then Sps
        else if t == 8 then Pps
        else if t == 6 then Sei
        else if 1 <= t <= 5 then Slice(t == 5)
        else if t == 20 then SliceExt
        else if t == 9 then Aud
        else Other
      else
        if t == 32 then Vps
        else if t == 33 then Sps
        else if t == 34 then Pps
        else if t == 39 || t == 40 then Sei
        else if t <= 9 then Slice(false)
        else if 16 <= t <= 21 then Slice(true)
        else if t == 35 then Aud
        else Other
  }

  /** The types of table 7-1 of ITU-T H.264 and table 7-1 of ITU-T H.265 that are
      treated apart. */
  predicate IsVps(c: Codec, n: Nal) { |n| >= 2 && c.H265? && TypeOf(c, n) == 32 }

  predicate IsSps(c: Codec, n: Nal) { |n| >= 2 && TypeOf(c, n) == if c.H264? then 7 else 33 }

  predicate IsSubsetSps(c: Codec, n: Nal) { |n| >= 2 && c.H264? && TypeOf(c, n) == 15 }

  predicate IsPps(c: Codec, n: Nal) { |n| >= 2 && TypeOf(c, n) == if c.H264? then 8 else 34 }

  predicate IsSei(c: Codec, n: Nal) {
    |n| >= 2 && if c.H264? then TypeOf(c, n) == 6 else TypeOf(c, n) == 39 || TypeOf(c, n) == 40
  }

  predicate IsAud(c: Codec, n: Nal) { |n| >= 2 && TypeOf(c, n) == if c.H264? then 9 else 35 }

  /** A slice, other than the extension of H.264. */
  predicate IsPlainSlice(c: Codec, n: Nal) {
    |n| >= 2 &&
    if c.H264? then 1 <= TypeOf(c, n) <= 5 else TypeOf(c, n) <= 9 || 16 <= TypeOf(c, n) <= 21
  }

  predicate IsSliceExtension(c: Codec, n: Nal) { |n| >= 2 && c.H264? && TypeOf(c, n) == 20 }

  /** An IDR picture, or any IRAP picture of H.265. */
  predicate IsRandomAccess(c: Codec, n: Nal) {
    |n| >= 2 && if c.H264? then TypeOf(c, n) == 5 else 16 <= TypeOf(c, n) <= 21
  }

  /** The switch tells the types apart by these numbers. */
  lemma KindByType(c: Codec, n: Nal)
    ensures var k := KindOf(c, n);
      && (k.TooShort? <==> |n| < 2)
      && (k.Vps? <==> IsVps(c, n)) && (k.Sps? <==> IsSps(c, n)) && (k.SubsetSps? <==> IsSubsetSps(c, n))
      && (k.Pps? <==> IsPps(c, n)) && (k.Sei? <==> IsSei(c, n)) && (k.Aud? <==> IsAud(c, n))
      && (k.Slice? <==> IsPlainSlice(c, n)) && (k.SliceExt? <==> IsSliceExtension(c, n))
      && (k.Slice? && k.randomAccess <==> IsRandomAccess(c, n))
  {}

  /** The type is what is in the low five bits of the first byte, or in the six bits
      between its first and its last. */
  lemma TypeBits(c: Codec, n: Nal, high: nat, t: nat, low: nat)
    requires n != []
    ensures c.H264? && t < 32 && n[0] == high * 32 + t ==> TypeOf(c, n) == t
    ensures c.H265? && t < 64 && low < 2 && n[0] == high * 128 + t * 2 + low ==> TypeOf(c, n) == t
  {}

  /** Whether the unit is long enough for its header to be read. */
  predicate HeaderReadable(c: Codec, n: Nal) {
    if c.H265? then |n| >= 2
    else |n| >= 1 && (TypeOf(c, n) == 14 || TypeOf(c, n) == 20 ==> |n| >= 4)
  }

  /** A header has two bytes in H.265, and in H.264 one, or four for the types 14 and 20
      that have an extension. */
  lemma HeaderBytes(c: Codec, n: Nal)
    ensures HeaderReadable(c, n) <==>
      |n| >= if c.H265? then 2 else if n == [] || n[0] as int % 32 !in {14, 20} then 1 else 4
  {}

  // ------------------------------------------------------------ the framing

  /** wrap_nal for the formats with a length in front. */
  function Prefixed(n: Nal, nl: nat): (r: seq<byte>)
    ensures |r| == nl + |n|
  {
    BigEndian(|n|, nl) + n
  }

  /** A unit with its nl-byte length at off, when all of it is there. */
  function NalAt(data: seq<byte>, off: nat, nl: nat): (r: Option<Nal>)
    ensures r.Some? ==> off + nl + |r.value| <= |data|
  {
    if |data| < off + nl then None else
      var size := FromBigEndian(data[off..off + nl]);
      if |data| < off + nl + size then None else Some(data[off + nl..off + nl + size])
  }

  function Framed(nals: seq<Nal>, nl: nat): seq<byte> {
    if nals == [] then [] else Framed(nals[..|nals| - 1], nl) + Prefixed(nals[|nals| - 1], nl)
  }

  /** All units from off to the end of the data. */
  function ReadAll(data: seq<byte>, off: nat, nl: nat): Option<seq<Nal>>
    requires nl > 0 && off <= |data|
    decreases |data| - off
  {
    if off == |data| then Some([]) else
      var n := NalAt(data, off, nl);
      if n.None? then None else
        var rest := ReadAll(data, off + nl + |n.value|, nl);
        if rest.None? then None else Some([n.value] + rest.value)
  }

  predicate FitPrefix(nals: seq<Nal>, nl: nat) {
    forall n <- nals :: |n| < Pow256(nl)
  }

  lemma NalAtPrefixed(data: seq<byte>, off: nat, n: Nal, rest: seq<byte>, nl: nat)
    requires off <= |data| && data[off..] == Prefixed(n, nl) + rest && |n| < Pow256(nl)
    ensures NalAt(data, off, nl) == Some(n) && data[off + nl + |n|..] == rest
  {
    BigEndianRoundTrip(|n|, nl);
    assert data[off..off + nl] == data[off..][..nl] == BigEndian(|n|, nl);
    assert data[off + nl..off + nl + |n|] == data[off..][nl..nl + |n|] == n;
    assert data[off + nl + |n|..] == data[off..][nl + |n|..] == rest;
  }

  /** Whatever is read fits its prefix. */
  lemma NalAtFits(data: seq<byte>, off: nat, nl: nat)
    requires NalAt(data, off, nl).Some?
    ensures |NalAt(data, off, nl).value| < Pow256(nl)
  {
    FromBigEndianBound(data[off..off + nl]);
  }

  lemma {:induction false} ReadAllFits(data: seq<byte>, off: nat, nl: nat)
    requires nl > 0 && off <= |data| && ReadAll(data, off, nl).Some?
    ensures FitPrefix(ReadAll(data, off, nl).value, nl)
    decreases |data| - off
  {
    if off < |data| {
      NalAtFits(data, off, nl);
      ReadAllFits(data, off + nl + |NalAt(data, off, nl).value|, nl);
    }
  }

  lemma {:induction false} FramedFront(nals: seq<Nal>, nl: nat)
    requires nals != []
    ensures Framed(nals, nl) == Prefixed(nals[0], nl) + Framed(nals[1..], nl)
  {
    if |nals| > 1 {
      FramedFront(nals[..|nals| - 1], nl);
      assert nals[..|nals| - 1][1..] == nals[1..][..|nals[1..]| - 1];
    }
  }

  lemma {:induction false} FramedSplit(nals: seq<Nal>, i: nat, nl: nat)
    requires i <= |nals|
    ensures Framed(nals, nl) == Framed(nals[..i], nl) + Framed(nals[i..], nl)
    decreases i
  {
    hide *;
    if i == 0 {
      FramedNone(nl);
      assert nals[..0] == [] && nals[0..] == nals && [] + Framed(nals, nl) == Framed(nals, nl);
    } else {
      FramedSplit(nals, i - 1, nl);
      FramedFront(nals[i - 1..], nl);
      assert nals[i - 1..][1..] == nals[i..];
      FramedBack(nals[..i], nl);
      assert nals[..i][..i - 1] == nals[..i - 1];
      Reassociate(Framed(nals[..i - 1], nl), Prefixed(nals[i - 1], nl), Framed(nals[i..], nl));
    }
  }

  lemma FramedNone(nl: nat)
    ensures Framed([], nl) == []
  {}

  lemma FramedBack(nals: seq<Nal>, nl: nat)
    requires nals != []
    ensures Framed(nals, nl) == Framed(nals[..|nals| - 1], nl) + Prefixed(nals[|nals| - 1], nl)
  {}

  lemma {:induction false} ReadAllFramed(data: seq<byte>, off: nat, nals: seq<Nal>, nl: nat)
    requires nl > 0 && off <= |data| && data[off..] == Framed(nals, nl) && FitPrefix(nals, nl)
    ensures ReadAll(data, off, nl) == Some(nals)
    decreases |nals|
  {
    hide *;
    if nals == [] {
      ReadNone(data, off, nl);
    } else {
      FramedFront(nals, nl);
      FitRest(nals, nl);
      NalAtPrefixed(data, off, nals[0], Framed(nals[1..], nl), nl);
      ReadAllFramed(data, off + nl + |nals[0]|, nals[1..], nl);
      ReadOneMore(data, off, nals, nl);
    }
  }

  lemma ReadNone(data: seq<byte>, off: nat, nl: nat)
    requires nl > 0 && off <= |data| && data[off..] == Framed([], nl)
    ensures ReadAll(data, off, nl) == Some([])
  {}

  lemma FitRest(nals: seq<Nal>, nl: nat)
    requires nals != [] && FitPrefix(nals, nl)
    ensures |nals[0]| < Pow256(nl) && FitPrefix(nals[1..], nl)
  {}

  lemma ReadOneMore(data: seq<byte>, off: nat, nals: seq<Nal>, nl: nat)
    requires nl > 0 && nals != [] && off <= |data| && NalAt(data, off, nl) == Some(nals[0])
    requires off + nl + |nals[0]| <= |data| && ReadAll(data, off + nl + |nals[0]|, nl) == Some(nals[1..])
    ensures ReadAll(data, off, nl) == Some(nals)
  {
    assert nals == [nals[0]] + nals[1..];
  }

  /** Main result, framing: reading the lengths of the wrapped units returns the
      list of units if and only if every size fits in its nl bytes. */
  lemma FramingRoundTrip(nals: seq<Nal>, nl: nat)
    requires nl > 0
    ensures ReadAll(Framed(nals, nl), 0, nl) == Some(nals) <==> FitPrefix(nals, nl)
  {
    hide ReadAll, Framed;
    if FitPrefix(nals, nl) {
      ReadAllFramed(Framed(nals, nl), 0, nals, nl);
    } else if ReadAll(Framed(nals, nl), 0, nl).Some? {
      ReadAllFits(Framed(nals, nl), 0, nl);
    }
  }
}
