/** The counters of HDCP 2, unpacked from the 16 bytes of the private data of a
    PES header, where marker bits interrupt them. */
module Hdcp {

  type Iv = s: seq<bv8> | |s| == 16
    witness [0, 0, 0, 0, 0, 0, 0, 0, 0, 0, 0, 0, 0, 0, 0, 0]

  /** The size bits of val from start on. Callers ask for fields of the word. */
  function BitField(val: bv32, start: bv8, size: bv8): bv64
    requires start <= 31 && size <= 32
  {
    var mask: bv32 := if size == 32 then 0xffff_ffff else ((1 << size) - 1) << start;
    ((val & mask) as bv64) >> start
  }

  /** Of a byte: bit i of the field is bit start + i of the byte; above the field
      all is 0. */
  lemma BitFieldBits(val: bv8, start: bv8, size: bv8, i: bv8)
    requires start <= 7 && 0 < size <= 8 && start + size <= 8 && i <= 63
    ensures (BitField(val as bv32, start, size) >> i) & 1 ==
      if i < size then ((val >> (start + i)) & 1) as bv64 else 0
  {
  }

  function StreamCtr(iv: Iv): bv32 {
    ( (BitField(iv[1] as bv32, 1, 2) << 30)
    | (BitField(iv[2] as bv32, 0, 8) << 22)
    | (BitField(iv[3] as bv32, 1, 7) << 15)
    | (BitField(iv[4] as bv32, 0, 8) << 7)
    | BitField(iv[5] as bv32, 1, 7)) as bv32
  }

  function InputCtr(iv: Iv): bv64 {
    (BitField(iv[7] as bv32, 1, 4) << 60)
    | (BitField(iv[8] as bv32, 0, 8) << 52)
    | (BitField(iv[9] as bv32, 1, 7) << 45)
    | (BitField(iv[10] as bv32, 0, 8) << 37)
    | (BitField(iv[11] as bv32, 1, 7) << 30)
    | (BitField(iv[12] as bv32, 0, 8) << 22)
    | (BitField(iv[13] as bv32, 1, 7) << 15)
    | (BitField(iv[14] as bv32, 0, 8) << 7)
    | BitField(iv[15] as bv32, 1, 7)
  }

  /** The places of the counters' bits: the markers are between them, in the lowest bit of
      every other byte. */
  lemma StreamPlaces(iv: Iv)
    ensures StreamCtr(iv) >> 30 == ((iv[1] >> 1) & 0x03) as bv32
    ensures (StreamCtr(iv) >> 22) & 0xff == iv[2] as bv32
    ensures (StreamCtr(iv) >> 15) & 0x7f == (iv[3] >> 1) as bv32
    ensures (StreamCtr(iv) >> 7) & 0xff == iv[4] as bv32
    ensures StreamCtr(iv) & 0x7f == (iv[5] >> 1) as bv32
  {}

  lemma InputPlaces(iv: Iv)
    ensures InputCtr(iv) >> 60 == ((iv[7] >> 1) & 0x0f) as bv64
    ensures (InputCtr(iv) >> 52) & 0xff == iv[8] as bv64
    ensures (InputCtr(iv) >> 45) & 0x7f == (iv[9] >> 1) as bv64
    ensures (InputCtr(iv) >> 37) & 0xff == iv[10] as bv64
    ensures (InputCtr(iv) >> 30) & 0x7f == (iv[11] >> 1) as bv64
    ensures (InputCtr(iv) >> 22) & 0xff == iv[12] as bv64
    ensures (InputCtr(iv) >> 15) & 0x7f == (iv[13] >> 1) as bv64
    ensures (InputCtr(iv) >> 7) & 0xff == iv[14] as bv64
    ensures InputCtr(iv) & 0x7f == (iv[15] >> 1) as bv64
  {}

  // ------------------------------------------------------------- the layout

  /** iv with the counter's bits in their places and every other bit as it was:
      the markers, the other counter, the header. */
  function PutStreamCtr(iv: Iv, c: bv32): Iv {
    iv[1 := (iv[1] & 0xf9) | ((((c >> 30) & 0x03) << 1) as bv8)]
      [2 := ((c >> 22) & 0xff) as bv8]
      [3 := (iv[3] & 0x01) | ((((c >> 15) & 0x7f) << 1) as bv8)]
      [4 := ((c >> 7) & 0xff) as bv8]
      [5 := (iv[5] & 0x01) | (((c & 0x7f) << 1) as bv8)]
  }

  function PutInputCtr(iv: Iv, c: bv64): Iv {
    iv[7 := (iv[7] & 0xe1) | ((((c >> 60) & 0x0f) << 1) as bv8)]
      [8 := ((c >> 52) & 0xff) as bv8]
      [9 := (iv[9] & 0x01) | ((((c >> 45) & 0x7f) << 1) as bv8)]
      [10 := ((c >> 37) & 0xff) as bv8]
      [11 := (iv[11] & 0x01) | ((((c >> 30) & 0x7f) << 1) as bv8)]
      [12 := ((c >> 22) & 0xff) as bv8]
      [13 := (iv[13] & 0x01) | ((((c >> 15) & 0x7f) << 1) as bv8)]
      [14 := ((c >> 7) & 0xff) as bv8]
      [15 := (iv[15] & 0x01) | (((c & 0x7f) << 1) as bv8)]
  }

  predicate SameBits(a: bv8, b: bv8, mask: bv8) {
    a & mask == b & mask
  }

  predicate SameStreamBits(a: Iv, b: Iv) {
    && SameBits(a[1], b[1], 0x06) && a[2] == b[2] && SameBits(a[3], b[3], 0xfe) && a[4] == b[4]
    && SameBits(a[5], b[5], 0xfe)
  }

  predicate SameInputBits(a: Iv, b: Iv) {
    && SameBits(a[7], b[7], 0x1e) && a[8] == b[8] && SameBits(a[9], b[9], 0xfe) && a[10] == b[10]
    && SameBits(a[11], b[11], 0xfe) && a[12] == b[12] && SameBits(a[13], b[13], 0xfe) && a[14] == b[14]
    && SameBits(a[15], b[15], 0xfe)
  }

  /** Two inputs decode equally exactly when their payload bits agree: no bit is
      read twice, none is lost. */
  lemma StreamBitsExact(a: Iv, b: Iv)
    ensures StreamCtr(a) == StreamCtr(b) <==> SameStreamBits(a, b)
  {}

  lemma InputBitsExact(a: Iv, b: Iv)
    ensures InputCtr(a) == InputCtr(b) <==> SameInputBits(a, b)
  {}

  /** Every 32-bit counter comes back from its layout, whatever the other bits,
      and laying out what was read changes nothing. */
  lemma StreamRoundTrip(iv: Iv, c: bv32)
    ensures StreamCtr(PutStreamCtr(iv, c)) == c
    ensures PutStreamCtr(iv, StreamCtr(iv)) == iv
  {
    StreamBitsExact(PutStreamCtr(iv, StreamCtr(iv)), iv);
  }

  /** The same for every 64-bit counter. */
  lemma InputRoundTrip(iv: Iv, c: bv64)
    ensures InputCtr(PutInputCtr(iv, c)) == c
    ensures PutInputCtr(iv, InputCtr(iv)) == iv
  {
    hide InputCtr, PutInputCtr, SameInputBits, SameMarkers;
    InputFromLayout(iv, c);
    InputFromLayout(iv, InputCtr(iv));
    var same := PutInputCtr(iv, InputCtr(iv));
    InputBitsExact(same, iv);
    MarkersStay(iv, InputCtr(iv));
    AllBits(same, iv);
  }

  lemma InputFromLayout(iv: Iv, c: bv64)
    ensures InputCtr(PutInputCtr(iv, c)) == c
  {}

  /** What PutInputCtr leaves alone. */
  predicate SameMarkers(a: Iv, b: Iv) {
    && a[..7] == b[..7]
    && SameBits(a[7], b[7], 0xe1) && SameBits(a[9], b[9], 0x01) && SameBits(a[11], b[11], 0x01)
    && SameBits(a[13], b[13], 0x01) && SameBits(a[15], b[15], 0x01)
  }

  lemma MarkersStay(iv: Iv, c: bv64)
    ensures SameMarkers(PutInputCtr(iv, c), iv)
  {}

  lemma AllBits(a: Iv, b: Iv)
    requires SameInputBits(a, b) && SameMarkers(a, b)
    ensures a == b
  {
    hide SameBits;
    FromParts(a[7], b[7], 0xe1, 0x1e);
    FromParts(a[9], b[9], 0x01, 0xfe);
    FromParts(a[11], b[11], 0x01, 0xfe);
    FromParts(a[13], b[13], 0x01, 0xfe);
    FromParts(a[15], b[15], 0x01, 0xfe);
    forall k | 0 <= k < 16 ensures a[k] == b[k] {
      if k < 7 { assert a[k] == a[..7][k] && b[k] == b[..7][k]; }
    }
  }

  lemma FromParts(a: bv8, b: bv8, low: bv8, high: bv8)
    requires low | high == 0xff && SameBits(a, b, low) && SameBits(a, b, high)
    ensures a == b
  {
    assert a == (a & low) | (a & high) && b == (b & low) | (b & high);
  }

  /** The two counters do not overlap. */
  lemma CountersApart(iv: Iv, stream: bv32, input: bv64)
    ensures InputCtr(PutStreamCtr(iv, stream)) == InputCtr(iv)
    ensures StreamCtr(PutInputCtr(iv, input)) == StreamCtr(iv)
  {
  }
}
