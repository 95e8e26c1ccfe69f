/** Bytes, big-endian numbers and the widths of the source's unsigned integers. */
module Bytes {

  type byte = x: int | 0 <= x < 256

  const U16: int := 0x1_0000
  const U32: int := 0x1_0000_0000

  type uint16 = x: int | 0 <= x < 0x1_0000
  type uint32 = x: int | 0 <= x < 0x1_0000_0000

  datatype Option<+T> = None | Some(value: T)

  /** 32-bit unsigned addition. */
  function Add32(a: uint32, b: uint32): uint32 {
    if a + b < U32 then a + b else a + b - U32
  }

  function Pow256(n: nat): (r: nat)
    ensures r > 0
  {
    if n == 0 then 1 else 256 * Pow256(n - 1)
  }

  /** The n low-order bytes of v, most significant first. */
  function BigEndian(v: nat, n: nat): (s: seq<byte>)
    ensures |s| == n
  {
    if n == 0 then [] else BigEndian(v / 256, n - 1) + [v % 256]
  }

  function FromBigEndian(s: seq<byte>): nat {
    if s == [] then 0 else FromBigEndian(s[..|s| - 1]) * 256 + s[|s| - 1]
  }

  /** Reading n bytes back gives the number modulo 256^n: exactly the number if
      and only if it fits. */
  lemma {:induction false} BigEndianRoundTrip(v: nat, n: nat)
    ensures FromBigEndian(BigEndian(v, n)) < Pow256(n)
    ensures FromBigEndian(BigEndian(v, n)) == v <==> v < Pow256(n)
  {
    if n > 0 {
      BigEndianRoundTrip(v / 256, n - 1);
      assert BigEndian(v, n)[..n - 1] == BigEndian(v / 256, n - 1);
    }
  }

  lemma {:induction false} FromBigEndianBound(s: seq<byte>)
    ensures FromBigEndian(s) < Pow256(|s|)
  {
    if s != [] { FromBigEndianBound(s[..|s| - 1]); }
  }

  lemma BigEndianShift(v: nat, n: nat)
    ensures BigEndian(v * 0x100, n + 1) == BigEndian(v, n) + [0]
    ensures BigEndian(v * 0x100, n + 1)[..n] == BigEndian(v, n)
  {}

  /** Four bytes are the number in 32 bits. */
  lemma BigEndianCut(v: nat)
    ensures BigEndian(v % 0x1_0000_0000, 4) == BigEndian(v, 4)
  {
    var q, w := v / 0x1_0000_0000, v % 0x1_0000_0000;
    assert v == q * 0x100_0000 * 256 + w;
    LowByte(q * 0x100_0000, w);
    LowByte(q * 0x1_0000, w / 256);
    LowByte(q * 0x100, w / 256 / 256);
    LowByte(q, w / 256 / 256 / 256);
    BigEndianFour(w);
    BigEndianFour(v);
  }

  lemma LowByte(a: nat, w: nat)
    ensures (a * 256 + w) / 256 == a + w / 256 && (a * 256 + w) % 256 == w % 256
  {}

  lemma BigEndianFour(v: nat)
    ensures BigEndian(v, 4) == [v / 256 / 256 / 256 % 256, v / 256 / 256 % 256, v / 256 % 256, v % 256]
  {
    assert BigEndian(v / 256 / 256 / 256, 1) == [v / 256 / 256 / 256 % 256];
    assert BigEndian(v / 256 / 256, 2) == [v / 256 / 256 / 256 % 256, v / 256 / 256 % 256];
  }

  lemma BigEndianTwo(v: nat)
    ensures BigEndian(v, 2) == [v / 256 % 256, v % 256]
  {
    assert BigEndian(v / 256, 1) == [v / 256 % 256];
  }

  /** Two bytes, and four, as numbers. */
  lemma FromBigEndianIs(s: seq<byte>)
    ensures |s| == 2 ==> FromBigEndian(s) == s[0] as int * 0x100 + s[1] as int
    ensures |s| == 4 ==>
      FromBigEndian(s) == s[0] as int * 0x100_0000 + s[1] as int * 0x1_0000 + s[2] as int * 0x100 + s[3] as int
  {
    if |s| == 2 {
      assert s[..1][..0] == [] && FromBigEndian(s[..1]) == s[0];
    } else if |s| == 4 {
      var a, b, d := s[..1], s[..2], s[..3];
      assert a[..0] == [] && b[..1] == a && d[..2] == b;
      assert FromBigEndian(a) == s[0];
      assert FromBigEndian(b) == s[0] as int * 0x100 + s[1] as int;
      assert FromBigEndian(d) == s[0] as int * 0x1_0000 + s[1] as int * 0x100 + s[2] as int;
    }
  }

  lemma Add32Is(a: uint32, b: uint32)
    ensures Add32(a, b) == (a + b) % 0x1_0000_0000
  {}
}
