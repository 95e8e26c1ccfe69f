/** Reassembly of a partly encrypted buffer from its clear bytes and the
    decrypted ones, in place and through a plan of copies into secure memory. */
module Subsample {
  import opened Bytes
  import opened Sequences

  datatype Entry = Entry(clear: uint16, enc: uint32)

  type Table = seq<Entry>

  // ------------------------------------------------------------- the table

  /** Where a read of n bytes leaves the reader: a read past the end fails and
      does not move. */
  function After(data: seq<byte>, pos: nat, n: nat): nat {
    if pos + n <= |data| then pos + n else pos
  }

  /** Big-endian reads; one that fails leaves the variable it would set alone. */
  function Read16(data: seq<byte>, pos: nat, last: uint16): uint16 {
    if pos + 2 <= |data| then data[pos] * 256 + data[pos + 1] else last
  }

  function Read32(data: seq<byte>, pos: nat, last: uint32): uint32 {
    if pos + 4 <= |data| then
      data[pos] * 0x100_0000 + data[pos + 1] * 0x1_0000 + data[pos + 2] * 256 + data[pos + 3]
    else last
  }

  function ReadEntry(data: seq<byte>, pos: nat, clear: uint16, enc: uint32): Entry {
    Entry(Read16(data, pos, clear), Read32(data, After(data, pos, 2), enc))
  }

  /** count entries read from pos on; the variables they go through hold clear
      and enc before. */
  function ReadTable(data: seq<byte>, count: nat, pos: nat, clear: uint16, enc: uint32): (t: Table)
    ensures |t| == count
  {
    if count == 0 then [] else
      var x := ReadEntry(data, pos, clear, enc);
      [x] + ReadTable(data, count - 1, After(data, After(data, pos, 2), 4), x.clear, x.enc)
  }

  lemma {:induction false} ShortDataKeepsEnc(data: seq<byte>, count: nat, pos: nat, clear: uint16, enc: uint32)
    requires |data| < pos + 6
    ensures forall i :: 0 <= i < count ==> ReadTable(data, count, pos, clear, enc)[i].enc == enc
    ensures |data| < pos + 2 ==>
      forall i :: 0 <= i < count ==> ReadTable(data, count, pos, clear, enc)[i].clear == clear
  {
    if count > 0 {
      ShortDataKeepsEnc(data, count - 1, After(data, pos, 2), Read16(data, pos, clear), enc);
    }
  }

  /** The secure path reads the table twice and starts the second pass with the
      values the first pass ended on. However short the data, both passes see
      the same table, the one the in-place path sees. */
  lemma SecondPassReadsSameTable(data: seq<byte>, count: nat)
    requires count > 0
    ensures var t := ReadTable(data, count, 0, 0, 0);
      ReadTable(data, count, 0, t[count - 1].clear, t[count - 1].enc) == t
  {
    if |data| < 6 { ShortDataKeepsEnc(data, count, 0, 0, 0); }
  }

  // ------------------------------------------------------ the table as bytes

  /** A read that does not fail gives the big-endian number. */
  lemma ReadsNumber(data: seq<byte>, pos: nat, clear: uint16, enc: uint32)
    ensures pos + 2 <= |data| ==> Read16(data, pos, clear) == FromBigEndian(data[pos..pos + 2])
    ensures pos + 4 <= |data| ==> Read32(data, pos, enc) == FromBigEndian(data[pos..pos + 4])
  {
    if pos + 2 <= |data| { FromBigEndianIs(data[pos..pos + 2]); }
    if pos + 4 <= |data| { FromBigEndianIs(data[pos..pos + 4]); }
  }

  /** What a read of n bytes should do: give their number and move behind them, or past
      the end leave the variable and the position alone. */
  predicate IsRead(data: seq<byte>, pos: nat, n: nat, v: nat, last: nat, after: nat) {
    if pos + n <= |data| then v == FromBigEndian(data[pos..pos + n]) && after == pos + n else v == last && after == pos
  }

  /** The reads of two and of four bytes do. */
  lemma ReadIs(data: seq<byte>, pos: nat, clear: uint16, enc: uint32)
    ensures IsRead(data, pos, 2, Read16(data, pos, clear), clear, After(data, pos, 2))
    ensures IsRead(data, pos, 4, Read32(data, pos, enc), enc, After(data, pos, 4))
  {
    ReadsNumber(data, pos, clear, enc);
    hide FromBigEndian;
  }

  /** The subsample data of a table: two bytes of clear length and four of encrypted
      length for each entry. */
  function Encoded(t: Table): seq<byte> {
    if t == [] then [] else BigEndian(t[0].clear, 2) + BigEndian(t[0].enc, 4) + Encoded(t[1..])
  }

  function LastClear(t: Table): uint16 { if t == [] then 0 else t[|t| - 1].clear }

  function LastEnc(t: Table): uint32 { if t == [] then 0 else t[|t| - 1].enc }

  lemma ReadsEntry(data: seq<byte>, pos: nat, x: Entry, rest: seq<byte>, clear: uint16, enc: uint32)
    requires pos <= |data| && data[pos..] == BigEndian(x.clear, 2) + BigEndian(x.enc, 4) + rest
    ensures ReadEntry(data, pos, clear, enc) == x && After(data, After(data, pos, 2), 4) == pos + 6 <= |data|
    ensures data[pos + 6..] == rest
  {
    assert Pow256(1) == 256 && Pow256(2) == 0x1_0000 && Pow256(3) == 0x100_0000 && Pow256(4) == 0x1_0000_0000;
    BigEndianRoundTrip(x.clear, 2);
    BigEndianRoundTrip(x.enc, 4);
    ReadsNumber(data, pos, clear, enc);
    ReadsNumber(data, pos + 2, clear, enc);
    hide Read16, Read32, BigEndian, FromBigEndian;
    var tail := data[pos..];
    assert tail[..2] == BigEndian(x.clear, 2) && tail[2..6] == BigEndian(x.enc, 4) && tail[6..] == rest;
    assert data[pos..pos + 2] == tail[..2] && data[pos + 2..pos + 6] == tail[2..6] && data[pos + 6..] == tail[6..];
  }

  lemma {:induction false} ReadsFrom(data: seq<byte>, pos: nat, t: Table, rest: seq<byte>, more: nat,
                                     clear: uint16, enc: uint32)
    requires pos <= |data| && data[pos..] == Encoded(t) + rest
    ensures ReadTable(data, |t| + more, pos, clear, enc) ==
      t + if t == [] then ReadTable(data, more, pos, clear, enc)
          else ReadTable(data, more, |data| - |rest|, LastClear(t), LastEnc(t))
    decreases |t|
  {
    hide *;
    TableUnfolds(data, |t| + more, pos, clear, enc);
    EncodedUnfolds(t);
    if t == [] {
      assert [] + ReadTable(data, more, pos, clear, enc) == ReadTable(data, more, pos, clear, enc);
    } else {
      var x, tail := t[0], t[1..];
      var last := ReadTable(data, more, |data| - |rest|, LastClear(t), LastEnc(t));
      Reassociate(BigEndian(x.clear, 2) + BigEndian(x.enc, 4), Encoded(tail), rest);
      ReadsEntry(data, pos, x, Encoded(tail) + rest, clear, enc);
      ReadsFrom(data, pos + 6, tail, rest, more, x.clear, x.enc);
      LastOfTail(t);
      Reassociate([x], tail, last);
      assert t == [x] + tail && |tail| + more == |t| + more - 1;
      if tail == [] { NothingBehind(data, pos + 6, rest); }
    }
  }

  lemma TableUnfolds(data: seq<byte>, count: nat, pos: nat, clear: uint16, enc: uint32)
    ensures count > 0 ==>
      var x := ReadEntry(data, pos, clear, enc);
      ReadTable(data, count, pos, clear, enc) ==
        [x] + ReadTable(data, count - 1, After(data, After(data, pos, 2), 4), x.clear, x.enc)
  {
    hide ReadEntry;
  }

  lemma EncodedUnfolds(t: Table)
    ensures t != [] ==> Encoded(t) == BigEndian(t[0].clear, 2) + BigEndian(t[0].enc, 4) + Encoded(t[1..])
  {
    hide BigEndian;
  }

  lemma LastOfTail(t: Table)
    requires t != []
    ensures if |t| == 1 then LastClear(t) == t[0].clear && LastEnc(t) == t[0].enc
      else LastClear(t) == LastClear(t[1..]) && LastEnc(t) == LastEnc(t[1..])
  {}

  lemma NothingBehind(data: seq<byte>, pos: nat, rest: seq<byte>)
    requires pos <= |data| && data[pos..] == Encoded([]) + rest
    ensures pos == |data| - |rest|
  {}

  lemma {:induction false} ReadsNothing(data: seq<byte>, count: nat, pos: nat, clear: uint16, enc: uint32)
    requires |data| < pos + 2
    ensures ReadTable(data, count, pos, clear, enc) == seq(count, _ => Entry(clear, enc))
  {
    if count > 0 { ReadsNothing(data, count - 1, pos, clear, enc); }
  }

  /** Reading undoes writing: the table comes back from its data, and entries that the
      data does not hold any more repeat the last one. */
  lemma TableReadsBack(t: Table, more: nat, rest: seq<byte>)
    requires |rest| < 2
    ensures ReadTable(Encoded(t) + rest, |t| + more, 0, 0, 0) == t + seq(more, _ => Entry(LastClear(t), LastEnc(t)))
  {
    var data := Encoded(t) + rest;
    assert data[0..] == data;
    ReadsFrom(data, 0, t, rest, more, 0, 0);
    if t == [] {
      ReadsNothing(data, more, 0, 0, 0);
    } else {
      ReadsNothing(data, more, |data| - |rest|, LastClear(t), LastEnc(t));
    }
  }

  // ------------------------------------------------- the meaning of a table

  function Total(t: Table): nat {
    if t == [] then 0 else Total(t[..|t| - 1]) + t[|t| - 1].clear + t[|t| - 1].enc
  }

  function TotalEnc(t: Table): nat {
    if t == [] then 0 else TotalEnc(t[..|t| - 1]) + t[|t| - 1].enc
  }

  lemma {:induction false} TotalFront(t: Table)
    requires t != []
    ensures Total(t) == t[0].clear + t[0].enc + Total(t[1..])
    ensures TotalEnc(t) == t[0].enc + TotalEnc(t[1..])
  {
    if |t| > 1 {
      var front := t[..|t| - 1];
      TotalFront(front);
      assert front[1..] == t[1..][..|t[1..]| - 1];
    }
  }

  lemma {:induction false} TotalEncWithin(t: Table)
    ensures TotalEnc(t) <= Total(t)
  {
    if t != [] { TotalEncWithin(t[..|t| - 1]); }
  }

  lemma {:induction false} TotalOfPrefix(t: Table, k: nat)
    requires k <= |t|
    ensures Total(t[..k]) <= Total(t) && TotalEnc(t[..k]) <= TotalEnc(t)
  {
    if k < |t| {
      TotalOfPrefix(t[..|t| - 1], k);
      assert t[..|t| - 1][..k] == t[..k];
    } else {
      assert t[..k] == t;
    }
  }

  /** The lengths the table names stay within the buffer and the decrypted data. */
  predicate Fits(t: Table, buf: seq<byte>, dec: seq<byte>) {
    Total(t) <= |buf| && TotalEnc(t) <= |dec|
  }

  /** The specification: clear runs of buf alternate with consecutive runs of dec;
      what lies behind the last entry stays. */
  function Interleave(buf: seq<byte>, dec: seq<byte>, t: Table): (r: seq<byte>)
    requires Fits(t, buf, dec)
    ensures |r| == |buf|
    decreases |t|
  {
    if t == [] then buf else
      TotalFront(t);
      var c, e := t[0].clear, t[0].enc;
      buf[..c] + dec[..e] + Interleave(buf[c + e..], dec[e..], t[1..])
  }

  /** The encrypted ranges of s, put together. */
  function GatherEnc(s: seq<byte>, t: Table): (r: seq<byte>)
    requires Total(t) <= |s|
    decreases |t|
  {
    if t == [] then [] else
      TotalFront(t);
      var c, e := t[0].clear, t[0].enc;
      s[c..c + e] + GatherEnc(s[c + e..], t[1..])
  }

  /** The clear ranges of s and what lies behind the table, put together. */
  function GatherClear(s: seq<byte>, t: Table): (r: seq<byte>)
    requires Total(t) <= |s|
    decreases |t|
  {
    if t == [] then s else
      TotalFront(t);
      var c, e := t[0].clear, t[0].enc;
      s[..c] + GatherClear(s[c + e..], t[1..])
  }

  lemma {:induction false} GatherLengths(s: seq<byte>, t: Table)
    requires Total(t) <= |s|
    ensures |GatherEnc(s, t)| == TotalEnc(t)
    decreases |t|
  {
    if t != [] {
      TotalFront(t);
      GatherLengths(s[t[0].clear + t[0].enc..], t[1..]);
    }
  }

  /** Main result: of all buffers of that length, Interleave gives the only one
      whose encrypted ranges hold the decrypted data in order and whose clear
      ranges are those of buf. */
  lemma {:induction false} InterleaveIffGathered(r: seq<byte>, buf: seq<byte>, dec: seq<byte>, t: Table)
    requires Fits(t, buf, dec) && |r| == |buf|
    ensures r == Interleave(buf, dec, t) <==>
      GatherEnc(r, t) == dec[..TotalEnc(t)] && GatherClear(r, t) == GatherClear(buf, t)
    decreases |t|
  {
    hide *;
    FitsMeans(t, buf, dec);
    if t == [] {
      NothingGathered(r, buf, dec);
    } else {
      var c, e, rest := t[0].clear, t[0].enc, t[1..];
      var n := c + e;
      InterleaveUnfolds(buf, dec, t);
      GatherUnfolds(r, t);
      GatherUnfolds(buf, t);
      InterleaveIffGathered(r[n..], buf[n..], dec[e..], rest);
      GatherLengths(r[n..], rest);
      TotalFront(t);
      FitsMeans(rest, buf[n..], dec[e..]);
      TakeBoth(dec, e, TotalEnc(rest));
      SplitEqual(r[c..n], dec[..e], GatherEnc(r[n..], rest), dec[e..][..TotalEnc(rest)]);
      SplitEqual(r[..c], buf[..c], GatherClear(r[n..], rest), GatherClear(buf[n..], rest));
      ThreePieces(r, c, n);
      SplitEqual(r[..c] + r[c..n], buf[..c] + dec[..e], r[n..], Interleave(buf[n..], dec[e..], rest));
      SplitEqual(r[..c], buf[..c], r[c..n], dec[..e]);
    }
  }

  lemma FitsMeans(t: Table, buf: seq<byte>, dec: seq<byte>)
    ensures Fits(t, buf, dec) <==> Total(t) <= |buf| && TotalEnc(t) <= |dec|
  {}

  lemma NothingGathered(r: seq<byte>, buf: seq<byte>, dec: seq<byte>)
    ensures Interleave(buf, dec, []) == buf && GatherClear(r, []) == r && GatherClear(buf, []) == buf
    ensures GatherEnc(r, []) == [] && TotalEnc([]) == 0
  {}

  lemma GatherUnfolds(s: seq<byte>, t: Table)
    requires t != [] && Total(t) <= |s|
    ensures t[0].clear + t[0].enc <= |s| && Total(t[1..]) <= |s[t[0].clear + t[0].enc..]|
    ensures var c, n := t[0].clear, t[0].clear + t[0].enc;
      && GatherEnc(s, t) == s[c..n] + GatherEnc(s[n..], t[1..])
      && GatherClear(s, t) == s[..c] + GatherClear(s[n..], t[1..])
  {
    TotalFront(t);
  }

  lemma TakeBoth<T>(s: seq<T>, i: nat, j: nat)
    requires i + j <= |s|
    ensures s[..i + j] == s[..i] + s[i..][..j]
  {}

  lemma ThreePieces<T>(s: seq<T>, i: nat, j: nat)
    requires i <= j <= |s|
    ensures s == s[..i] + s[i..j] + s[j..]
  {}

  lemma SplitEqual<T>(a: seq<T>, b: seq<T>, x: seq<T>, y: seq<T>)
    requires |a| == |b|
    ensures a + x == b + y <==> a == b && x == y
  {
    assert (a + x)[..|a|] == a && (a + x)[|a|..] == x;
    assert (b + y)[..|b|] == b && (b + y)[|b|..] == y;
  }

  /** s with d written over it at position at. */
  function Patch(s: seq<byte>, at: nat, d: seq<byte>): (r: seq<byte>)
    requires at + |d| <= |s|
    ensures |r| == |s|
  {
    s[..at] + d + s[at + |d|..]
  }

  /** One more entry writes one more run. */
  lemma {:induction false} InterleaveOneMore(buf: seq<byte>, dec: seq<byte>, t: Table, x: Entry)
    requires Fits(t + [x], buf, dec)
    ensures Fits(t, buf, dec) && Total(t) + x.clear + x.enc <= |buf| && TotalEnc(t) + x.enc <= |dec|
    ensures Interleave(buf, dec, t + [x]) ==
      Patch(Interleave(buf, dec, t), Total(t) + x.clear, dec[TotalEnc(t)..TotalEnc(t) + x.enc])
    decreases |t|
  {
    hide Interleave, Total, TotalEnc, Patch;
    var tx := t + [x];
    TotalOneMore(t, x);
    EmptyTable(buf, dec);
    TotalEncWithin(t);
    InterleaveUnfolds(buf, dec, tx);
    if t == [] {
      assert tx[1..] == [];
      EmptyTable(buf[x.clear + x.enc..], dec[x.enc..]);
      IsPatch(buf, Interleave(buf, dec, tx), x.clear, dec[0..x.enc]);
    } else {
      TotalFront(t);
      InterleaveUnfolds(buf, dec, t);
      var c, e := t[0].clear, t[0].enc;
      var n := c + e;
      assert tx[1..] == t[1..] + [x];
      InterleaveOneMore(buf[n..], dec[e..], t[1..], x);
      var d := dec[TotalEnc(t)..TotalEnc(t) + x.enc];
      DropSlice(dec, e, TotalEnc(t[1..]), x.enc);
      PatchBehind(buf[..c] + dec[..e], Interleave(buf[n..], dec[e..], t[1..]), Total(t[1..]) + x.clear, d);
    }
  }

  lemma InterleaveUnfolds(buf: seq<byte>, dec: seq<byte>, t: Table)
    requires Fits(t, buf, dec) && t != []
    ensures t[0].clear + t[0].enc <= |buf| && t[0].enc <= |dec|
    ensures Fits(t[1..], buf[t[0].clear + t[0].enc..], dec[t[0].enc..])
    ensures Interleave(buf, dec, t) ==
      buf[..t[0].clear] + dec[..t[0].enc] + Interleave(buf[t[0].clear + t[0].enc..], dec[t[0].enc..], t[1..])
  {
    TotalFront(t);
  }

  lemma IsPatch(s: seq<byte>, r: seq<byte>, at: nat, d: seq<byte>)
    requires at + |d| <= |s| == |r|
    requires forall i :: 0 <= i < |s| ==> r[i] == if at <= i < at + |d| then d[i - at] else s[i]
    ensures r == Patch(s, at, d)
  {}

  lemma DropSlice(s: seq<byte>, e: nat, i: nat, n: nat)
    requires e + i + n <= |s|
    ensures s[e..][i..i + n] == s[e + i..e + i + n]
  {}

  lemma PatchBehind(a: seq<byte>, s: seq<byte>, at: nat, d: seq<byte>)
    requires at + |d| <= |s|
    ensures Patch(a + s, |a| + at, d) == a + Patch(s, at, d)
  {}

  lemma TotalOneMore(t: Table, x: Entry)
    ensures Total(t + [x]) == Total(t) + x.clear + x.enc
    ensures TotalEnc(t + [x]) == TotalEnc(t) + x.enc
  {
    assert (t + [x])[..|t|] == t;
  }

  lemma EmptyTable(buf: seq<byte>, dec: seq<byte>)
    ensures Total([]) == 0 && TotalEnc([]) == 0 && Interleave(buf, dec, []) == buf
  {}

  // -------------------------------------------------------- the in-place path

  /** GstByteReader: a read that does not fit leaves the caller's variable alone. */
  class ByteReader {
    const data: seq<byte>
    var pos: nat

    constructor (data: seq<byte>)
      ensures this.data == data && pos == 0
    {
      this.data, pos := data, 0;
    }

    method GetUint16Be(last: uint16) returns (v: uint16)
      modifies this
      ensures v == Read16(data, old(pos), last) && pos == After(data, old(pos), 2)
    {
      v := last;
      if pos + 2 <= |data| {
        v := data[pos] as int * 256 + data[pos + 1] as int;
        pos := pos + 2;
      }
    }

    method GetUint32Be(last: uint32) returns (v: uint32)
      modifies this
      ensures v == Read32(data, old(pos), last) && pos == After(data, old(pos), 4)
    {
      v := last;
      if pos + 4 <= |data| {
        v := data[pos] as int * 0x100_0000 + data[pos + 1] as int * 0x1_0000
          + data[pos + 2] as int * 256 + data[pos + 3] as int;
        pos := pos + 4;
      }
    }
  }

  method MemCopy(dst: array<byte>, at: nat, src: seq<byte>, start: nat, n: nat)
    requires at + n <= dst.Length && start + n <= |src|
    modifies dst
    ensures dst[..] == Patch(old(dst[..]), at, src[start..start + n])
  {
    forall k | 0 <= k < n {
      dst[at + k] := src[start + k];
    }
    IsPatch(old(dst[..]), dst[..], at, src[start..start + n]);
  }

  /** Every run lands within the buffer and comes from within the decrypted data,
      with the running totals as 32 bits hold them. */
  predicate Safe(t: Table, n: nat, m: nat) {
    t == [] ||
    var front, x := t[..|t| - 1], t[|t| - 1];
    && Safe(front, n, m)
    && Mod32(Total(front)) + x.clear + x.enc <= n
    && Mod32(TotalEnc(front)) + x.enc <= m
  }

  /** What the in-place loop makes of any table that keeps its copies in memory. */
  function Scattered(buf: seq<byte>, dec: seq<byte>, t: Table): (r: seq<byte>)
    requires Safe(t, |buf|, |dec|)
    ensures |r| == |buf|
  {
    if t == [] then buf else
      var front, x := t[..|t| - 1], t[|t| - 1];
      var from := Mod32(TotalEnc(front));
      Patch(Scattered(buf, dec, front), Mod32(Total(front)) + x.clear, dec[from..from + x.enc])
  }

  /** While 32 bits hold the total, a table keeps its copies in memory exactly when
      it fits, and the loop makes the interleaving of it. */
  lemma {:induction false} ScatteredInterleaves(buf: seq<byte>, dec: seq<byte>, t: Table)
    requires Total(t) < U32
    ensures Safe(t, |buf|, |dec|) <==> Fits(t, buf, dec)
    ensures Fits(t, buf, dec) ==> Scattered(buf, dec, t) == Interleave(buf, dec, t)
  {
    hide Interleave, Total, TotalEnc, Patch, Mod32;
    TotalEncWithin(t);
    EmptyTable(buf, dec);
    if t != [] {
      var front, x := t[..|t| - 1], t[|t| - 1];
      assert t == front + [x];
      TotalOneMore(front, x);
      TotalEncWithin(front);
      Mod32Small(Total(front));
      Mod32Small(TotalEnc(front));
      ScatteredInterleaves(buf, dec, front);
      if Fits(t, buf, dec) { InterleaveOneMore(buf, dec, front, x); }
    }
  }

  /** transform_in_place_buffer with subsamples. A copy out of its memory has no
      meaning; the program leaves that to its caller. */
  method TransformInPlace(mapped: array<byte>, subsamples: seq<byte>, count: uint32, decrypted: seq<byte>)
      returns (ok: bool)
    requires Safe(ReadTable(subsamples, count, 0, 0, 0), mapped.Length, |decrypted|)
    modifies mapped
    ensures ok
    ensures mapped[..] == Scattered(old(mapped[..]), decrypted, ReadTable(subsamples, count, 0, 0, 0))
    ensures var t := ReadTable(subsamples, count, 0, 0, 0);
      Total(t) < U32 ==>
        Fits(t, old(mapped[..]), decrypted) && mapped[..] == Interleave(old(mapped[..]), decrypted, t)
  {
    hide *;
    ghost var t, before := ReadTable(subsamples, count, 0, 0, 0), mapped[..];
    var reader := new ByteReader(subsamples);
    var index: uint32, total: uint32 := 0, 0;
    var inClear: uint16, inEncrypted: uint32 := 0, 0;
    var position := 0;
    NothingScattered(before, decrypted);
    while position < count
      invariant 0 <= position <= count && Safe(t[..position], |before|, |decrypted|)
      invariant total == Mod32(Total(t[..position])) && index == Mod32(TotalEnc(t[..position]))
      invariant mapped[..] == Scattered(before, decrypted, t[..position])
      invariant t[position..] == ReadTable(subsamples, count - position, reader.pos, inClear, inEncrypted)
    {
      NextRead(subsamples, t, position, reader.pos, inClear, inEncrypted);
      SafePrefix(t, position + 1, |before|, |decrypted|);
      NextScattered(before, decrypted, t, position);
      inClear := reader.GetUint16Be(inClear);
      inEncrypted := reader.GetUint32Be(inEncrypted);
      MemCopy(mapped, total as int + inClear as int, decrypted, index, inEncrypted);
      index := Add32(index, inEncrypted);
      total := Add32(total, Add32(inClear, inEncrypted));
      position := position + 1;
    }
    assert t[..count] == t;
    if Total(t) < U32 { ScatteredInterleaves(before, decrypted, t); }
    ok := true;
  }

  lemma NothingScattered(buf: seq<byte>, dec: seq<byte>)
    ensures Safe([], |buf|, |dec|) && Scattered(buf, dec, []) == buf
    ensures Mod32(Total([])) == 0 && Mod32(TotalEnc([])) == 0
  {}

  lemma {:induction false} SafePrefix(t: Table, k: nat, n: nat, m: nat)
    requires k <= |t| && Safe(t, n, m)
    ensures Safe(t[..k], n, m)
  {
    if k < |t| {
      SafePrefix(t[..|t| - 1], k, n, m);
      assert t[..|t| - 1][..k] == t[..k];
    } else {
      assert t[..k] == t;
    }
  }

  lemma ScatteredLast(buf: seq<byte>, dec: seq<byte>, t: Table)
    requires t != [] && Safe(t, |buf|, |dec|)
    ensures var front, x := t[..|t| - 1], t[|t| - 1];
      var at, from := Mod32(Total(front)) + x.clear, Mod32(TotalEnc(front));
      && Safe(front, |buf|, |dec|) && at + x.enc <= |buf| && from + x.enc <= |dec|
      && Scattered(buf, dec, t) == Patch(Scattered(buf, dec, front), at, dec[from..from + x.enc])
  {
    hide Total, TotalEnc, Patch, Mod32;
  }

  lemma NextScattered(buf: seq<byte>, dec: seq<byte>, t: Table, k: nat)
    requires k < |t| && Safe(t[..k + 1], |buf|, |dec|)
    ensures Safe(t[..k], |buf|, |dec|)
    ensures var at, from, x := Mod32(Total(t[..k])) + t[k].clear, Mod32(TotalEnc(t[..k])), t[k];
      && at + x.enc <= |buf| && from + x.enc <= |dec|
      && Scattered(buf, dec, t[..k + 1]) == Patch(Scattered(buf, dec, t[..k]), at, dec[from..from + x.enc])
    ensures Mod32(Total(t[..k + 1])) == Add32(Mod32(Total(t[..k])), Add32(t[k].clear, t[k].enc))
    ensures Mod32(TotalEnc(t[..k + 1])) == Add32(Mod32(TotalEnc(t[..k])), t[k].enc)
  {
    hide *;
    assert t[..k + 1][..k] == t[..k] && t[..k + 1] == t[..k] + [t[k]];
    ScatteredLast(buf, dec, t[..k + 1]);
    TotalOneMore(t[..k], t[k]);
    Mod32Plus(TotalEnc(t[..k]), t[k].enc);
    Mod32PlusTwo(Total(t[..k]), t[k].clear, t[k].enc);
  }

  lemma NextEntry(t: Table, k: nat, buf: seq<byte>, dec: seq<byte>)
    requires Fits(t, buf, dec) && k < |t|
    ensures Fits(t[..k], buf, dec) && Fits(t[..k + 1], buf, dec)
    ensures Total(t[..k + 1]) == Total(t[..k]) + t[k].clear + t[k].enc <= Total(t)
    ensures TotalEnc(t[..k + 1]) == TotalEnc(t[..k]) + t[k].enc <= Total(t)
    ensures Interleave(buf, dec, t[..k + 1]) ==
      Patch(Interleave(buf, dec, t[..k]), Total(t[..k]) + t[k].clear,
            dec[TotalEnc(t[..k])..TotalEnc(t[..k]) + t[k].enc])
  {
    hide Interleave, Total, TotalEnc, Patch;
    assert t[..k + 1] == t[..k] + [t[k]];
    TotalOfPrefix(t, k + 1);
    TotalOneMore(t[..k], t[k]);
    TotalEncWithin(t[..k + 1]);
    InterleaveOneMore(buf, dec, t[..k], t[k]);
  }

  // ---------------------------------------------------------- the copy plan

  datatype CopyIndex = CopyIndex(src: uint32, target: uint32, bytes: uint32)

  type Plan = seq<CopyIndex>

  /** The plan for a table whose first bytes go to target and come from src. */
  function PlanFrom(t: Table, target: uint32, src: uint32): (p: Plan)
    ensures |p| == |t|
  {
    if t == [] then [] else
      var at := Add32(target, t[0].clear);
      [CopyIndex(src, at, t[0].enc)] + PlanFrom(t[1..], Add32(at, t[0].enc), Add32(src, t[0].enc))
  }

  /** The check in SecOpaqueBuffer_CopyByIndex, whose sum is 32 bits wide. */
  predicate WithinBounds(p: Plan, size: nat) {
    forall i :: 0 <= i < |p| ==> Add32(p[i].target, p[i].bytes) <= size
  }

  function Mod32(n: nat): uint32 {
    n % 0x1_0000_0000
  }

  lemma Mod32Small(n: uint32)
    ensures Mod32(n) == n
  {}

  lemma Mod32Plus(n: nat, d: uint32)
    ensures Add32(Mod32(n), d) == Mod32(n + d)
  {}

  lemma Mod32PlusTwo(n: nat, c: uint16, d: uint32)
    ensures Add32(Mod32(n), Add32(c, d)) == Mod32(n + c + d)
  {
    Mod32Plus(n, Add32(c, d));
    assert Add32(c, d) == c + d || Add32(c, d) == c + d - U32;
    assert Add32(c, d) == c + d - U32 ==> Mod32(n + c + d) == Mod32(n + Add32(c, d));
  }

  /** Every entry of the plan, with the wrap-around of its 32-bit fields. */
  lemma {:induction false} PlanEntry(t: Table, target: nat, src: nat, k: nat)
    requires k < |t|
    ensures PlanFrom(t, Mod32(target), Mod32(src))[k] ==
      CopyIndex(Mod32(src + TotalEnc(t[..k])), Mod32(target + Total(t[..k]) + t[k].clear), t[k].enc)
  {
    Mod32Plus(target, t[0].clear);
    Mod32Plus(target + t[0].clear, t[0].enc);
    Mod32Plus(src, t[0].enc);
    if k > 0 {
      PlanEntry(t[1..], target + t[0].clear + t[0].enc, src + t[0].enc, k - 1);
      TotalFront(t[..k]);
      assert t[..k][1..] == t[1..][..k - 1];
    }
  }

  /** The exact condition under which the bounds check lets a plan through, for
      every table: all running totals, cut to 32 bits, are within the size. */
  lemma BoundsCheckExact(t: Table, size: nat)
    ensures WithinBounds(PlanFrom(t, 0, 0), size) <==>
      forall k :: 0 < k <= |t| ==> Mod32(Total(t[..k])) <= size
  {
    var p := PlanFrom(t, 0, 0);
    hide PlanFrom, Total, Mod32;
    forall i | 0 <= i < |t| ensures Add32(p[i].target, p[i].bytes) == Mod32(Total(t[..i + 1])) {
      PlanEntryEnd(t, i);
    }
    if forall k :: 0 < k <= |t| ==> Mod32(Total(t[..k])) <= size {
      forall i | 0 <= i < |p| ensures Add32(p[i].target, p[i].bytes) <= size {
        assert 0 < i + 1 <= |t|;
      }
    }
    if WithinBounds(p, size) {
      forall k | 0 < k <= |t| ensures Mod32(Total(t[..k])) <= size {
        assert Add32(p[k - 1].target, p[k - 1].bytes) <= size;
      }
    }
  }

  lemma {:induction false} PlanEntryEnd(t: Table, k: nat)
    requires k < |t|
    ensures var c := PlanFrom(t, 0, 0)[k]; Add32(c.target, c.bytes) == Mod32(Total(t[..k + 1]))
  {
    hide PlanFrom, Total, TotalEnc, Mod32;
    Mod32Small(0);
    PlanEntry(t, 0, 0, k);
    TotalOneMore(t[..k], t[k]);
    assert t[..k + 1] == t[..k] + [t[k]];
    Mod32Plus(Total(t[..k]) + t[k].clear, t[k].enc);
  }

  /** While the total fits in 32 bits, the check lets a plan through if and only
      if the whole table lies within the memory. */
  lemma BoundsCheckSound(t: Table, size: nat)
    requires Total(t) < U32
    ensures WithinBounds(PlanFrom(t, 0, 0), size) <==> Total(t) <= size
  {
    BoundsCheckExact(t, size);
    forall k | 0 <= k <= |t| ensures Mod32(Total(t[..k])) == Total(t[..k]) <= Total(t) {
      TotalOfPrefix(t, k);
    }
    assert t[..|t|] == t;
  }

  /** Beyond 32 bits it does not: a single entry that ends at 2^32 passes the check
      against memory of any size. */
  lemma BoundsCheckWraps(size: nat)
    ensures var t := [Entry(1, 0xffff_ffff)];
      Total(t) == U32 && WithinBounds(PlanFrom(t, 0, 0), size)
  {
    var t := [Entry(1, 0xffff_ffff)];
    assert t[..0] == [];
  }

  /** What the copies do, one after the other. */
  function Copy(s: seq<byte>, src: seq<byte>, p: Plan): (r: seq<byte>)
    requires InRange(s, src, p)
    ensures |r| == |s|
  {
    if p == [] then s else
      var c := p[|p| - 1];
      Patch(Copy(s, src, p[..|p| - 1]), c.target, src[c.src..c.src + c.bytes])
  }

  predicate InRange(s: seq<byte>, src: seq<byte>, p: Plan) {
    forall c <- p :: c.target + c.bytes <= |s| && c.src + c.bytes <= |src|
  }

  /** The plan's source ranges follow one another from 0 to TotalEnc, and its
      target ranges are ordered and disjoint. */
  lemma PlanTiles(t: Table)
    requires Total(t) < U32
    ensures var p := PlanFrom(t, 0, 0);
      && (forall k :: 0 <= k < |p| ==>
           p[k].src == TotalEnc(t[..k]) && p[k].src + p[k].bytes == TotalEnc(t[..k + 1]))
      && (forall k :: 0 <= k < |p| ==>
           Total(t[..k]) <= p[k].target && p[k].target + p[k].bytes == Total(t[..k + 1]))
      && (forall j, k :: 0 <= j < k < |p| ==> p[j].target + p[j].bytes <= p[k].target)
  {
    var p := PlanFrom(t, 0, 0);
    hide PlanFrom, Total, TotalEnc;
    forall k | 0 <= k < |t|
      ensures p[k].src == TotalEnc(t[..k]) && p[k].src + p[k].bytes == TotalEnc(t[..k + 1])
      ensures Total(t[..k]) <= p[k].target && p[k].target + p[k].bytes == Total(t[..k + 1])
    {
      PlanEntryExact(t, k);
    }
    forall j, k | 0 <= j < k < |t| ensures p[j].target + p[j].bytes <= p[k].target {
      TotalOfPrefix(t[..k], j + 1);
      assert t[..k][..j + 1] == t[..j + 1];
    }
  }

  lemma {:induction false} PlanEntryExact(t: Table, k: nat)
    requires Total(t) < U32 && k < |t|
    ensures Total(t[..k]) + t[k].clear < U32 && TotalEnc(t[..k]) < U32
    ensures PlanFrom(t, 0, 0)[k] == CopyIndex(TotalEnc(t[..k]), Total(t[..k]) + t[k].clear, t[k].enc)
    ensures Total(t[..k]) + t[k].clear + t[k].enc == Total(t[..k + 1])
    ensures TotalEnc(t[..k]) + t[k].enc == TotalEnc(t[..k + 1])
  {
    PlanEntry(t, 0, 0, k);
    assert t[..k + 1] == t[..k] + [t[k]];
    TotalOneMore(t[..k], t[k]);
    TotalOfPrefix(t, k + 1);
    TotalEncWithin(t[..k]);
  }

  lemma PlanInRange(t: Table, buf: seq<byte>, dec: seq<byte>)
    requires Fits(t, buf, dec) && Total(t) < U32
    ensures InRange(buf, dec, PlanFrom(t, 0, 0))
  {
    PlanTiles(t);
    var p := PlanFrom(t, 0, 0);
    forall k | 0 <= k < |p| ensures p[k].target + p[k].bytes <= |buf| && p[k].src + p[k].bytes <= |dec| {
      TotalOfPrefix(t, k + 1);
    }
  }

  /** Main result, the two paths agree: executing the plan over the clear bytes
      gives the interleaving that the in-place loop gives. */
  lemma PlanInterleaves(t: Table, buf: seq<byte>, dec: seq<byte>)
    requires Fits(t, buf, dec) && Total(t) < U32
    ensures InRange(buf, dec, PlanFrom(t, 0, 0))
    ensures Copy(buf, dec, PlanFrom(t, 0, 0)) == Interleave(buf, dec, t)
  {
    PlanInRange(t, buf, dec);
    assert PlanFrom(t, 0, 0)[..|t|] == PlanFrom(t, 0, 0) && t[..|t|] == t;
    PlanPrefixInterleaves(t, buf, dec, |t|);
  }

  lemma {:induction false} PlanPrefixInterleaves(t: Table, buf: seq<byte>, dec: seq<byte>, k: nat)
    requires Fits(t, buf, dec) && Total(t) < U32 && k <= |t|
    ensures Fits(t[..k], buf, dec) && InRange(buf, dec, PlanFrom(t, 0, 0)[..k])
    ensures Copy(buf, dec, PlanFrom(t, 0, 0)[..k]) == Interleave(buf, dec, t[..k])
  {
    hide Total, TotalEnc, Patch, PlanFrom, Interleave;
    PlanInRange(t, buf, dec);
    TotalOfPrefix(t, k);
    if k == 0 {
      EmptyTable(buf, dec);
      assert t[..0] == [];
    } else {
      var p := PlanFrom(t, 0, 0);
      PlanPrefixInterleaves(t, buf, dec, k - 1);
      PlanEntryExact(t, k - 1);
      NextEntry(t, k - 1, buf, dec);
      CopyOneMore(buf, dec, p, k);
    }
  }

  lemma NothingCopied(s: seq<byte>, src: seq<byte>, p: Plan)
    ensures InRange(s, src, p[..0]) && Copy(s, src, p[..0]) == s
  {}

  lemma CopyOneMore(s: seq<byte>, src: seq<byte>, p: Plan, k: nat)
    requires InRange(s, src, p) && 0 < k <= |p|
    ensures InRange(s, src, p[..k]) && InRange(s, src, p[..k - 1])
    ensures p[k - 1].target + p[k - 1].bytes <= |s| && p[k - 1].src + p[k - 1].bytes <= |src|
    ensures Copy(s, src, p[..k]) ==
      Patch(Copy(s, src, p[..k - 1]), p[k - 1].target, src[p[k - 1].src..p[k - 1].src + p[k - 1].bytes])
  {
    assert p[..k][..k - 1] == p[..k - 1];
  }

  predicate Covers(c: CopyIndex, i: nat) {
    c.target <= i < c.target + c.bytes
  }

  lemma PatchAt(s: seq<byte>, at: nat, d: seq<byte>, i: nat)
    requires at + |d| <= |s| && i < |s|
    ensures Patch(s, at, d)[i] == if at <= i < at + |d| then d[i - at] else s[i]
  {}

  /** No two copies write different bytes to one place. */
  ghost predicate Compatible(p: Plan) {
    forall a, b, i: nat {:trigger Covers(a, i), Covers(b, i)} ::
      a in p && b in p && Covers(a, i) && Covers(b, i) ==> a.src - a.target == b.src - b.target
  }

  lemma LastCopyAt(s: seq<byte>, src: seq<byte>, p: Plan, i: nat)
    requires InRange(s, src, p) && p != [] && i < |s|
    ensures InRange(s, src, p[..|p| - 1]) && |Copy(s, src, p[..|p| - 1])| == |s|
    ensures var c := p[|p| - 1];
      && 0 <= c.src && c.src + c.bytes <= |src|
      && Copy(s, src, p)[i] == if Covers(c, i) then src[c.src + (i - c.target)] else Copy(s, src, p[..|p| - 1])[i]
  {
    hide Copy, Patch, InRange;
    var front, c := p[..|p| - 1], p[|p| - 1];
    assert p[..|p|] == p;
    CopyOneMore(s, src, p, |p|);
    PatchAt(Copy(s, src, front), c.target, src[c.src..c.src + c.bytes], i);
  }

  /** A byte some copy covers comes from where that copy says; others stay. */
  lemma {:induction false} CopyAt(s: seq<byte>, src: seq<byte>, p: Plan, k: nat, i: nat)
    requires InRange(s, src, p) && Compatible(p) && k < |p| && i < |s| && Covers(p[k], i)
    ensures p[k].src + (i - p[k].target) < |src| && Copy(s, src, p)[i] == src[p[k].src + (i - p[k].target)]
  {
    hide Copy;
    LastCopyAt(s, src, p, i);
    var front, c := p[..|p| - 1], p[|p| - 1];
    assert c in p && p[k] in p && forall x <- front :: x in p;
    if Covers(c, i) {
      assert c.src - c.target == p[k].src - p[k].target;
    } else {
      assert front[k] == p[k];
      CopyAt(s, src, front, k, i);
    }
  }

  lemma {:induction false} CopyElsewhere(s: seq<byte>, src: seq<byte>, p: Plan, i: nat)
    requires InRange(s, src, p) && i < |s|
    requires forall k :: 0 <= k < |p| ==> !Covers(p[k], i)
    ensures Copy(s, src, p)[i] == s[i]
  {
    if p != [] {
      LastCopyAt(s, src, p, i);
      CopyElsewhere(s, src, p[..|p| - 1], i);
    }
  }

  /** The copies of a plan commute: any order of them gives the same bytes. */
  lemma CopiesCommute(t: Table, buf: seq<byte>, dec: seq<byte>, p: Plan)
    requires Fits(t, buf, dec) && Total(t) < U32
    requires multiset(p) == multiset(PlanFrom(t, 0, 0))
    ensures InRange(buf, dec, p) && Copy(buf, dec, p) == Interleave(buf, dec, t)
  {
    var q := PlanFrom(t, 0, 0);
    PlanInterleaves(t, buf, dec);
    PlanCompatible(t);
    hide PlanFrom, Total, TotalEnc, Interleave, Copy;
    forall c ensures c in p <==> c in q {
      assert c in p <==> c in multiset(p);
      assert c in q <==> c in multiset(q);
    }
    forall i | 0 <= i < |buf| ensures Copy(buf, dec, p)[i] == Copy(buf, dec, q)[i] {
      SameAt(buf, dec, p, q, i);
    }
  }

  /** Compatible plans of the same copies write the same byte. */
  lemma SameAt(s: seq<byte>, src: seq<byte>, p: Plan, q: Plan, i: nat)
    requires InRange(s, src, p) && InRange(s, src, q) && Compatible(p) && Compatible(q) && i < |s|
    requires forall c :: c in p <==> c in q
    ensures Copy(s, src, p)[i] == Copy(s, src, q)[i]
  {
    hide Copy, Compatible, InRange, Covers;
    if k :| 0 <= k < |q| && Covers(q[k], i) {
      assert q[k] in p;
      var j :| 0 <= j < |p| && p[j] == q[k];
      CopyAt(s, src, q, k, i);
      CopyAt(s, src, p, j, i);
    } else {
      forall j | 0 <= j < |p| ensures !Covers(p[j], i) {
        assert p[j] in q;
      }
      CopyElsewhere(s, src, q, i);
      CopyElsewhere(s, src, p, i);
    }
  }

  lemma PlanCompatible(t: Table)
    requires Total(t) < U32
    ensures Compatible(PlanFrom(t, 0, 0))
  {
    PlanTiles(t);
  }

  // --------------------------------------------------------- the secure path

  /** A piece of secure memory: the bytes behind the handle and GstMemory's size. */
  class SecureMemory {
    const data: array<byte>
    var size: nat

    constructor (data: array<byte>, size: nat)
      ensures this.data == data && this.size == size
    {
      this.data, this.size := data, size;
    }

    /** gst_secmem_fill at offset 0; the secure world is taken to do what it says. */
    method Fill(buffer: seq<byte>)
      requires |buffer| <= data.Length
      modifies data
      ensures data[..|buffer|] == buffer && data[|buffer|..] == old(data[|buffer|..])
    {
      MemCopy(data, 0, buffer, 0, |buffer|);
    }

    /** gst_secmem_copybyhandle: the secure world makes the copies in order, or
        refuses and makes none. It refuses whatever is out of its memories. */
    method CopyByHandle(src: seq<byte>, targets: array<uint32>, srcs: array<uint32>, bytes: array<uint32>,
                        works: bool, ghost p: Plan) returns (ok: bool)
      requires targets.Length == srcs.Length == bytes.Length == |p|
      requires forall i :: 0 <= i < |p| ==> CopyIndex(srcs[i], targets[i], bytes[i]) == p[i]
      modifies data
      ensures ok <==> works && InRange(old(data[..]), src, p)
      ensures data[..] == if ok then Copy(old(data[..]), src, p) else old(data[..])
    {
      ok := works;
      if ok {
        ok := AllInMemory(src, targets, srcs, bytes, p);
        if ok {
          MakeCopies(src, targets, srcs, bytes, p);
        }
      }
    }

    method AllInMemory(src: seq<byte>, targets: array<uint32>, srcs: array<uint32>, bytes: array<uint32>, ghost p: Plan)
        returns (fit: bool)
      requires targets.Length == srcs.Length == bytes.Length == |p|
      requires forall i :: 0 <= i < |p| ==> CopyIndex(srcs[i], targets[i], bytes[i]) == p[i]
      ensures fit == InRange(data[..], src, p)
    {
      for i := 0 to targets.Length
        invariant forall j :: 0 <= j < i ==> p[j].target + p[j].bytes <= data.Length && p[j].src + p[j].bytes <= |src|
      {
        if targets[i] as int + bytes[i] as int > data.Length || srcs[i] as int + bytes[i] as int > |src| {
          assert p[i] in p;
          return false;
        }
      }
      fit := true;
    }

    method MakeCopies(src: seq<byte>, targets: array<uint32>, srcs: array<uint32>, bytes: array<uint32>, ghost p: Plan)
      requires targets.Length == srcs.Length == bytes.Length == |p|
      requires forall i :: 0 <= i < |p| ==> CopyIndex(srcs[i], targets[i], bytes[i]) == p[i]
      requires InRange(data[..], src, p)
      modifies data
      ensures data[..] == Copy(old(data[..]), src, p)
    {
      hide InRange, Copy, Patch;
      ghost var before := data[..];
      NothingCopied(before, src, p);
      for i := 0 to targets.Length
        invariant InRange(before, src, p[..i]) && data[..] == Copy(before, src, p[..i])
      {
        CopyOneMore(before, src, p, i + 1);
        MemCopy(data, targets[i], src, srcs[i], bytes[i]);
      }
      assert p[..|p|] == p;
    }

    /** SecOpaqueBuffer_CopyByIndex. A plan that fails the bounds check, which is 32
        bits wide, writes nothing; what the check lets through by wrap-around
        (BoundsCheckWraps) is left to the secure world. */
    method CopyByIndex(src: seq<byte>, plan: array<CopyIndex>, works: bool) returns (ok: bool)
      modifies data
      ensures ok <==> WithinBounds(plan[..], size) && works && InRange(old(data[..]), src, plan[..])
      ensures data[..] == if ok then Copy(old(data[..]), src, plan[..]) else old(data[..])
    {
      for i := 0 to plan.Length
        invariant forall j :: 0 <= j < i ==> Add32(plan[j].target, plan[j].bytes) <= size
      {
        if Add32(plan[i].target, plan[i].bytes) > size {
          return false;
        }
      }
      var targets, srcs, bytes := new uint32[plan.Length], new uint32[plan.Length], new uint32[plan.Length];
      for i := 0 to plan.Length
        invariant forall j :: 0 <= j < i ==> CopyIndex(srcs[j], targets[j], bytes[j]) == plan[j]
        invariant data[..] == old(data[..])
      {
        targets[i] := plan[i].target;
        srcs[i] := plan[i].src;
        bytes[i] := plan[i].bytes;
      }
      ok := CopyByHandle(src, targets, srcs, bytes, works, plan[..]);
    }
  }

  /** The second loop over the table: it fills in the plan. */
  method FillPlan(reader: ByteReader, count: uint32, clear: uint16, enc: uint32) returns (plan: array<CopyIndex>)
    requires reader.pos == 0
    modifies reader
    ensures fresh(plan) && plan[..] == PlanFrom(ReadTable(reader.data, count, 0, clear, enc), 0, 0)
  {
    ghost var t := ReadTable(reader.data, count, 0, clear, enc);
    ghost var full := PlanFrom(t, 0, 0);
    hide *;
    var byteIndex: uint32, encByteIndex: uint32 := 0, 0;
    var inClear, inEncrypted := clear, enc;
    plan := new CopyIndex[count](_ => CopyIndex(0, 0, 0));
    for position := 0 to count
      invariant t[position..] == ReadTable(reader.data, count - position, reader.pos, inClear, inEncrypted)
      invariant PlanFrom(t[position..], byteIndex, encByteIndex) == full[position..]
      invariant forall j :: 0 <= j < position ==> plan[j] == full[j]
    {
      NextRead(reader.data, t, position, reader.pos, inClear, inEncrypted);
      NextInPlan(full, t, position, byteIndex, encByteIndex);
      inClear := reader.GetUint16Be(inClear);
      inEncrypted := reader.GetUint32Be(inEncrypted);
      byteIndex := Add32(byteIndex, inClear);
      plan[position] := CopyIndex(encByteIndex, byteIndex, inEncrypted);
      encByteIndex := Add32(encByteIndex, inEncrypted);
      byteIndex := Add32(byteIndex, inEncrypted);
    }
  }

  lemma NextRead(data: seq<byte>, t: Table, k: nat, pos: nat, clear: uint16, enc: uint32)
    requires k < |t| && t[k..] == ReadTable(data, |t| - k, pos, clear, enc)
    ensures t[k].clear == Read16(data, pos, clear) && t[k].enc == Read32(data, After(data, pos, 2), enc)
    ensures t[k + 1..] ==
      ReadTable(data, |t| - (k + 1), After(data, After(data, pos, 2), 4), t[k].clear, t[k].enc)
  {
    assert t[k] == t[k..][0] && t[k + 1..] == t[k..][1..];
  }

  lemma NextInPlan(full: Plan, t: Table, k: nat, target: uint32, src: uint32)
    requires k < |t| == |full| && PlanFrom(t[k..], target, src) == full[k..]
    ensures var at := Add32(target, t[k].clear);
      && full[k] == CopyIndex(src, at, t[k].enc)
      && full[k + 1..] == PlanFrom(t[k + 1..], Add32(at, t[k].enc), Add32(src, t[k].enc))
  {
    assert t[k] == t[k..][0] && t[k + 1..] == t[k..][1..];
    assert full[k] == full[k..][0] && full[k + 1..] == full[k..][1..];
  }

  lemma TotalEncNext(t: Table, k: nat)
    requires k < |t|
    ensures TotalEnc(t[..k + 1]) == TotalEnc(t[..k]) + t[k].enc
  {
    assert t[..k + 1] == t[..k] + [t[k]];
    TotalOneMore(t[..k], t[k]);
  }

  /** The first loop over the table: the 32-bit sum of the encrypted lengths, and
      where it leaves the caller's variables. */
  method SumEncrypted(reader: ByteReader, count: uint32) returns (totalEncrypted: uint32, clear: uint16, enc: uint32)
    requires reader.pos == 0
    modifies reader
    ensures var t := ReadTable(reader.data, count, 0, 0, 0);
      && totalEncrypted == Mod32(TotalEnc(t))
      && (count > 0 ==> clear == t[count - 1].clear && enc == t[count - 1].enc)
  {
    ghost var t := ReadTable(reader.data, count, 0, 0, 0);
    hide *;
    totalEncrypted, clear, enc := 0, 0, 0;
    EmptyTable([], []);
    Mod32Small(0);
    for position := 0 to count
      invariant t[position..] == ReadTable(reader.data, count - position, reader.pos, clear, enc)
      invariant totalEncrypted == Mod32(TotalEnc(t[..position]))
      invariant position > 0 ==> clear == t[position - 1].clear && enc == t[position - 1].enc
    {
      NextRead(reader.data, t, position, reader.pos, clear, enc);
      clear := reader.GetUint16Be(clear);
      enc := reader.GetUint32Be(enc);
      TotalEncNext(t, position);
      Mod32Plus(TotalEnc(t[..position]), enc);
      totalEncrypted := Add32(totalEncrypted, enc);
    }
    assert t[..count] == t;
  }

  /** The subsample branch of gst_buffer_append_svp_transform_impl, from the
      allocation on, for every table. The memory may be larger than the buffer. It
      succeeds exactly when the 32-bit encrypted total is not 0, the plan passes the
      check against the buffer's size and the secure world copies; the memory then
      holds what the copies make of the clear bytes and of what was behind them.
      Otherwise it holds no decrypted byte. While 32 bits hold the total and the
      decrypted data is long enough, that is: when something is encrypted, the table
      lies within the buffer and the secure world copies; the memory then starts
      with the interleaving, and nothing behind it has changed. Sizes of secure
      memories are 32 bits wide. */
  method TransformSecure(buffer: seq<byte>, subsamples: seq<byte>, count: uint32, decrypted: seq<byte>,
                         mem: SecureMemory, works: bool) returns (ok: bool)
    requires |buffer| <= mem.data.Length < U32
    modifies mem, mem.data
    ensures var t := ReadTable(subsamples, count, 0, 0, 0);
      var p, filled := PlanFrom(t, 0, 0), buffer + old(mem.data[|buffer|..]);
      && (ok <==> Mod32(TotalEnc(t)) > 0 && WithinBounds(p, |buffer|) && works && InRange(filled, decrypted, p))
      && (ok ==> mem.data[..] == Copy(filled, decrypted, p))
      && (!ok && Mod32(TotalEnc(t)) > 0 ==> mem.data[..] == filled)
      && (Mod32(TotalEnc(t)) == 0 ==> mem.data[..] == old(mem.data[..]))
      && mem.size == if Mod32(TotalEnc(t)) > 0 then |buffer| else old(mem.size)
    ensures var t := ReadTable(subsamples, count, 0, 0, 0);
      Total(t) < U32 && TotalEnc(t) <= |decrypted| ==>
        && (ok <==> TotalEnc(t) > 0 && Total(t) <= |buffer| && works)
        && (ok ==> mem.data[..] == Interleave(buffer, decrypted, t) + old(mem.data[|buffer|..]))
  {
    hide *;
    ghost var t := ReadTable(subsamples, count, 0, 0, 0);
    ghost var behind := mem.data[|buffer|..];
    var reader := new ByteReader(subsamples);
    var totalEncrypted, clear, enc := SumEncrypted(reader, count);
    ok := false;
    if totalEncrypted > 0 {
      mem.size := |buffer|;
      mem.Fill(buffer);
      assert mem.data[..] == mem.data[..|buffer|] + mem.data[|buffer|..] == buffer + behind;
      reader.pos := 0;
      if count > 0 { SecondPassReadsSameTable(subsamples, count); }
      TableOfNone(subsamples, clear, enc);
      var plan := FillPlan(reader, count, clear, enc);
      ok := mem.CopyByIndex(decrypted, plan, works);
    }
    if Total(t) < U32 && TotalEnc(t) <= |decrypted| {
      SecureMeans(t, buffer, behind, decrypted);
    }
  }

  lemma TableOfNone(data: seq<byte>, clear: uint16, enc: uint32)
    ensures ReadTable(data, 0, 0, clear, enc) == ReadTable(data, 0, 0, 0, 0)
  {}

  /** The two paths agree on every table that the in-place path can take, also where
      the totals wrap around. */
  lemma PathsAgree(t: Table, buf: seq<byte>, dec: seq<byte>)
    requires Safe(t, |buf|, |dec|) && |buf| < U32
    ensures var p := PlanFrom(t, 0, 0);
      InRange(buf, dec, p) && Copy(buf, dec, p) == Scattered(buf, dec, t)
  {
    hide *;
    var p := PlanFrom(t, 0, 0);
    PrefixesAgree(t, buf, dec, |t|);
    PlanLength(t);
    assert p[..|t|] == p && t[..|t|] == t;
  }

  lemma PlanLength(t: Table)
    ensures |PlanFrom(t, 0, 0)| == |t|
  {}

  lemma {:induction false} PrefixesAgree(t: Table, buf: seq<byte>, dec: seq<byte>, k: nat)
    requires k <= |t| && Safe(t, |buf|, |dec|) && |buf| < U32
    ensures var p := PlanFrom(t, 0, 0);
      && |p| == |t| && Safe(t[..k], |buf|, |dec|) && InRange(buf, dec, p[..k])
      && Copy(buf, dec, p[..k]) == Scattered(buf, dec, t[..k])
    decreases k
  {
    hide Scattered, Copy, Patch, Total, TotalEnc, PlanFrom, Mod32, Safe;
    var p := PlanFrom(t, 0, 0);
    PlanLength(t);
    SafePrefix(t, k, |buf|, |dec|);
    if k == 0 {
      assert p[..0] == [] && t[..0] == [];
      NothingCopied(buf, dec, p);
      NothingScattered(buf, dec);
    } else {
      PrefixesAgree(t, buf, dec, k - 1);
      NextScattered(buf, dec, t, k - 1);
      EntryOf(t, k - 1);
      Mod32Fits(Total(t[..k - 1]), t[k - 1].clear);
      assert p[..k][..k - 1] == p[..k - 1] && p[..k] == p[..k - 1] + [p[k - 1]];
      assert p[..k][..k] == p[..k];
      CopyOneMore(buf, dec, p[..k], k);
    }
  }

  lemma EntryOf(t: Table, k: nat)
    requires k < |t|
    ensures PlanFrom(t, 0, 0)[k] ==
      CopyIndex(Mod32(TotalEnc(t[..k])), Mod32(Total(t[..k]) + t[k].clear), t[k].enc)
  {
    hide *;
    PlanLength(t);
    Mod32Small(0);
    PlanEntry(t, 0, 0, k);
  }

  lemma Mod32Fits(n: nat, c: uint16)
    ensures Mod32(n) + c < U32 ==> Mod32(n + c) == Mod32(n) + c
  {
    Mod32Plus(n, c);
  }

  lemma PatchInFront(s: seq<byte>, behind: seq<byte>, at: nat, d: seq<byte>)
    requires at + |d| <= |s|
    ensures Patch(s + behind, at, d) == Patch(s, at, d) + behind
  {}

  /** Copies that stay within the front leave what is behind it alone. */
  lemma {:induction false} CopyInFront(s: seq<byte>, behind: seq<byte>, src: seq<byte>, p: Plan)
    requires InRange(s, src, p)
    ensures InRange(s + behind, src, p) && Copy(s + behind, src, p) == Copy(s, src, p) + behind
  {
    hide Copy, Patch;
    if p == [] {
      NothingCopied(s, src, p);
      NothingCopied(s + behind, src, p);
    } else {
      var front, c := p[..|p| - 1], p[|p| - 1];
      assert p[..|p|] == p;
      CopyOneMore(s, src, p, |p|);
      CopyOneMore(s + behind, src, p, |p|);
      CopyInFront(s, behind, src, front);
      PatchInFront(Copy(s, src, front), behind, c.target, src[c.src..c.src + c.bytes]);
    }
  }

  /** While 32 bits hold the total: the check, the copies and the sum. */
  lemma SecureMeans(t: Table, buffer: seq<byte>, behind: seq<byte>, decrypted: seq<byte>)
    requires Total(t) < U32 && TotalEnc(t) <= |decrypted|
    ensures var p := PlanFrom(t, 0, 0);
      && Mod32(TotalEnc(t)) == TotalEnc(t)
      && (WithinBounds(p, |buffer|) <==> Total(t) <= |buffer|)
      && (Total(t) <= |buffer| ==>
           Fits(t, buffer, decrypted) && InRange(buffer + behind, decrypted, p)
           && Copy(buffer + behind, decrypted, p) == Interleave(buffer, decrypted, t) + behind)
  {
    hide Total, TotalEnc, PlanFrom, Interleave, Copy, InRange, WithinBounds;
    TotalEncWithin(t);
    Mod32Small(TotalEnc(t));
    BoundsCheckSound(t, |buffer|);
    if Total(t) <= |buffer| {
      PlanInterleaves(t, buffer, decrypted);
      CopyInFront(buffer, behind, decrypted, PlanFrom(t, 0, 0));
    }
  }
}
