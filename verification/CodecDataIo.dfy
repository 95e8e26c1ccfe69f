/** make_codec_data and the codec_data part of set_caps, as the programs do them:
    two passes over the stores, one array, one moving pointer. */
module CodecDataIo {
  import opened Bytes
  import opened NalUnits
  import opened NalParser
  import opened CodecData
  import opened HvcData
  import opened Sequences

  lemma KeptNext(s: Store, i: nat)
    requires i < |s|
    ensures Kept(s[..i + 1]) == if s[i].Some? then Kept(s[..i]) + [s[i].value] else Kept(s[..i])
  {
    assert s[..i + 1][..i] == s[..i];
  }

  lemma FramedNext(nals: seq<Nal>, n: Nal)
    ensures Framed(nals + [n], 2) == Framed(nals, 2) + Prefixed(n, 2)
    ensures |Framed(nals + [n], 2)| == |Framed(nals, 2)| + 2 + |n|
  {
    assert (nals + [n])[..|nals|] == nals;
  }

  lemma {:induction false} KeptPrefixFits(s: Store, i: nat)
    requires i <= |s|
    ensures |Framed(Kept(s[..i]), 2)| <= |Framed(Kept(s), 2)|
    decreases |s| - i
  {
    hide Kept, Framed;
    if i == |s| {
      assert s[..i] == s;
    } else {
      KeptNext(s, i);
      if s[i].Some? { FramedNext(Kept(s[..i]), s[i].value); }
      KeptPrefixFits(s, i + 1);
    }
  }

  /** The counting pass: how many units there are, and how many bytes they take. */
  method Measure(store: array<Option<Nal>>) returns (num: nat, size: nat)
    ensures num == |Kept(store[..])| && size == |Framed(Kept(store[..]), 2)|
  {
    num, size := 0, 0;
    MeasureNone();
    hide Kept, Framed;
    assert store[..0] == [];
    for i := 0 to store.Length
      invariant num == |Kept(store[..i])| && size == |Framed(Kept(store[..i]), 2)|
    {
      KeptNext(store[..], i);
      assert store[..][..i] == store[..i] && store[..][..i + 1] == store[..i + 1];
      if store[i].Some? {
        FramedNext(Kept(store[..i]), store[i].value);
        num := num + 1;
        size := size + |store[i].value| + 2;
      }
    }
    assert store[..store.Length] == store[..];
  }

  lemma MeasureNone()
    ensures Kept([]) == [] && Framed([], 2) == [] && LastLong([]) == None
  {}

  /** Copies bytes to where the pointer is, and moves it behind them. */
  method Append(buf: array<byte>, at: nat, bytes: seq<byte>) returns (next: nat)
    requires at + |bytes| <= buf.Length
    modifies buf
    ensures next == at + |bytes| && buf[..next] == old(buf[..at]) + bytes
  {
    forall k | 0 <= k < |bytes| {
      buf[at + k] := bytes[k];
    }
    next := at + |bytes|;
    InTwoParts(buf[..next], old(buf[..at]), bytes);
  }

  /** The writing pass over one store. */
  method WriteStore(store: array<Option<Nal>>, buf: array<byte>, at: nat) returns (next: nat)
    requires at + |Framed(Kept(store[..]), 2)| <= buf.Length
    modifies buf
    ensures next == at + |Framed(Kept(store[..]), 2)|
    ensures buf[..next] == old(buf[..at]) + Framed(Kept(store[..]), 2)
  {
    next := at;
    ghost var before, s := buf[..at], store[..];
    MeasureNone();
    hide Kept, Framed, BigEndian, Prefixed;
    assert s[..0] == [] && before + [] == before;
    for i := 0 to store.Length
      invariant next == at + |Framed(Kept(s[..i]), 2)| <= buf.Length
      invariant store[..] == s
      invariant buf[..next] == before + Framed(Kept(s[..i]), 2)
    {
      KeptNext(s, i);
      KeptPrefixFits(s, i + 1);
      if store[i].Some? {
        var n := store[i].value;
        FramedNext(Kept(s[..i]), n);
        next := Append(buf, next, BigEndian(|n|, 2));
        next := Append(buf, next, n);
        PrefixedIs(n);
        ReassociateFour(before, Framed(Kept(s[..i]), 2), BigEndian(|n|, 2), n);
      }
    }
    assert s[..store.Length] == s;
  }

  /** The H.264 counting pass over the SPS also keeps profile and level of the last
      one that is long enough. */
  method MeasureSps(store: array<Option<Nal>>) returns (num: nat, size: nat, long: Option<Nal>)
    ensures num == |Kept(store[..])| && size == |Framed(Kept(store[..]), 2)|
    ensures long == LastLong(Kept(store[..]))
  {
    num, size, long := 0, 0, None;
    MeasureNone();
    hide Kept, Framed, LastLong;
    assert store[..0] == [];
    for i := 0 to store.Length
      invariant num == |Kept(store[..i])| && size == |Framed(Kept(store[..i]), 2)|
      invariant long == LastLong(Kept(store[..i]))
    {
      KeptNext(store[..], i);
      assert store[..][..i] == store[..i] && store[..][..i + 1] == store[..i + 1];
      if store[i].Some? {
        FramedNext(Kept(store[..i]), store[i].value);
        LongNext(Kept(store[..i]), store[i].value);
        num := num + 1;
        size := size + |store[i].value| + 2;
        if |store[i].value| >= 4 {
          long := store[i];
        }
      }
    }
    assert store[..store.Length] == store[..];
  }

  lemma LongNext(nals: seq<Nal>, n: Nal)
    ensures LastLong(nals + [n]) == if |n| >= 4 then Some(n) else LastLong(nals)
  {
    assert (nals + [n])[..|nals|] == nals;
  }

  /** What the stores contribute: nothing in the in-band format. */
  ghost function Body(store: Store, inBand: bool): seq<byte> {
    if inBand then [] else Framed(Kept(store), 2)
  }

  /** The writing pass of the H.264 make_codec_data. The pointer ends exactly at the
      allocated length. */
  method FillAvcC(buf: array<byte>, head: seq<byte>, sps: array<Option<Nal>>, numPps: byte, pps: array<Option<Nal>>,
                  inBand: bool)
    requires buf.Length == |head| + |Body(sps[..], inBand)| + 1 + |Body(pps[..], inBand)|
    modifies buf
    ensures buf[..] == head + Body(sps[..], inBand) + [numPps] + Body(pps[..], inBand)
  {
    hide Kept, Framed;
    ghost var a, b := Body(sps[..], inBand), Body(pps[..], inBand);
    var data := Append(buf, 0, head);
    StartOf(buf[..data], head);
    if !inBand {
      data := WriteStore(sps, buf, data);
    }
    assert buf[..data] == head + a;
    data := Append(buf, data, [numPps]);
    if !inBand {
      data := WriteStore(pps, buf, data);
    }
    assert data == buf.Length;
    StartOf(buf[..data], buf[..]);
  }

  lemma StartOf<T>(a: seq<T>, b: seq<T>)
    requires a == [] + b || a == b
    ensures a == b
  {}

  /** The H.264 make_codec_data. */
  method MakeAvcC(parse: SecParse) returns (buf: array?<byte>)
    requires parse.Valid() && parse.codec.H264? && 1 <= parse.nalLengthSize <= 4
    ensures buf == null <==> !AvcWrites(parse.Cfg(), parse.StoresView())
    ensures buf == null <==>
      || (forall i :: 0 <= i < parse.spsNals.Length ==> parse.spsNals[i].None? || |parse.spsNals[i].value| < 4)
      || (!parse.format.PackedInBand? && forall i :: 0 <= i < parse.ppsNals.Length ==> parse.ppsNals[i].None?)
    ensures buf != null ==> fresh(buf) && buf[..] == AvcRecord(parse.Cfg(), parse.StoresView())
  {
    hide Kept, Framed, LastLong, Written, AvcRecord;
    AvcWritesIff(parse.Cfg(), parse.StoresView());
    var numSps, spsSize, long := MeasureSps(parse.spsNals);
    var numPps, ppsSize := Measure(parse.ppsNals);
    var inBand := parse.format.PackedInBand?;
    if inBand {
      numSps, spsSize, numPps, ppsSize := 0, 0, 0, 0;
    }
    if long.None? || (numPps == 0 && !inBand) {
      return null;
    }
    buf := new byte[5 + 1 + spsSize + 1 + ppsSize];
    var head := [1, LongByte(long.value, 1), LongByte(long.value, 2), LongByte(long.value, 3),
                 0xfc + (parse.nalLengthSize - 1), 0xe0 + numSps % 32];
    FillAvcC(buf, head, parse.spsNals, numPps % 256, parse.ppsNals, inBand);
    AvcRecordIs(parse.Cfg(), parse.StoresView());
  }

  lemma AvcRecordIs(c: Config, st: Stores)
    requires c.codec.H264? && 1 <= c.nl <= 4 && AvcWrites(c, st)
    ensures var inBand, long := c.format.PackedInBand?, LastLong(Kept(st.sps)).value;
      var numSps, numPps := if inBand then 0 else |Kept(st.sps)|, if inBand then 0 else |Kept(st.pps)|;
      AvcRecord(c, st) ==
        [1, LongByte(long, 1), LongByte(long, 2), LongByte(long, 3), 0xfc + (c.nl - 1), 0xe0 + numSps % 32]
        + Body(st.sps, inBand) + [numPps % 256] + Body(st.pps, inBand)
  {
    hide Kept, LastLong;
    MeasureNone();
  }

  /** One array of an hvcC, unless it is empty. */
  method WriteArray(kind: byte, num: nat, store: array<Option<Nal>>, buf: array<byte>, at: nat) returns (next: nat)
    requires num == |Kept(store[..])| && at + |ArraysBytes(NonEmpty(kind, Kept(store[..])))| <= buf.Length
    modifies buf
    ensures next == at + |ArraysBytes(NonEmpty(kind, Kept(store[..])))|
    ensures buf[..next] == old(buf[..at]) + ArraysBytes(NonEmpty(kind, Kept(store[..])))
  {
    hide *;
    next := at;
    ghost var before, nals := buf[..at], Kept(store[..]);
    OneArray(kind, nals);
    if num > 0 {
      next := Append(buf, next, [kind]);
      next := Append(buf, next, BigEndian(num, 2));
      next := WriteStore(store, buf, next);
      ReassociateFour(before, [kind], BigEndian(num, 2), Framed(nals, 2));
    } else {
      assert before + [] == before;
    }
  }

  lemma OneArray(kind: byte, nals: seq<Nal>)
    ensures ArraysBytes(NonEmpty(kind, nals)) ==
      if nals == [] then [] else [kind] + BigEndian(|nals|, 2) + Framed(nals, 2)
  {}

  lemma ArraysBytesJoin(a: seq<Array>, b: seq<Array>)
    requires |a| <= 1
    ensures ArraysBytes(a + b) == ArraysBytes(a) + ArraysBytes(b)
  {
    if a == [] { assert a + b == b; } else { assert (a + b)[1..] == b; }
  }

  lemma ThreeArraysBytes(st: Stores)
    ensures ArraysBytes(ArraysOf(st)) ==
      ArraysBytes(NonEmpty(0x20, Kept(st.vps))) + ArraysBytes(NonEmpty(0x21, Kept(st.sps)))
      + ArraysBytes(NonEmpty(0x22, Kept(st.pps)))
  {
    var a, b, d := NonEmpty(0x20, Kept(st.vps)), NonEmpty(0x21, Kept(st.sps)), NonEmpty(0x22, Kept(st.pps));
    Reassociate(a, b, d);
    ArraysBytesJoin(a, b + d);
    ArraysBytesJoin(b, d);
    Reassociate(ArraysBytes(a), ArraysBytes(b), ArraysBytes(d));
  }

  /** The writing pass of the H.265 make_codec_data. */
  method FillHvcC(buf: array<byte>, head: seq<byte>, numVps: nat, vps: array<Option<Nal>>,
                  numSps: nat, sps: array<Option<Nal>>, numPps: nat, pps: array<Option<Nal>>)
    requires numVps == |Kept(vps[..])| && numSps == |Kept(sps[..])| && numPps == |Kept(pps[..])|
    requires buf.Length == |head| + |ArraysBytes(NonEmpty(0x20, Kept(vps[..])))|
      + |ArraysBytes(NonEmpty(0x21, Kept(sps[..])))| + |ArraysBytes(NonEmpty(0x22, Kept(pps[..])))|
    modifies buf
    ensures buf[..] == head + ArraysBytes(ArraysOf(Stores(vps[..], sps[..], pps[..])))
  {
    hide *;
    ghost var st := Stores(vps[..], sps[..], pps[..]);
    var data := Append(buf, 0, head);
    StartOf(buf[..data], head);
    data := WriteArray(0x20, numVps, vps, buf, data);
    data := WriteArray(0x21, numSps, sps, buf, data);
    data := WriteArray(0x22, numPps, pps, buf, data);
    ThreeArraysBytes(st);
    ghost var a, b, d := ArraysBytes(NonEmpty(0x20, Kept(st.vps))), ArraysBytes(NonEmpty(0x21, Kept(st.sps))),
      ArraysBytes(NonEmpty(0x22, Kept(st.pps)));
    assert head + a + b + d == head + (a + b + d);
    assert data == buf.Length;
    StartOf(buf[..data], buf[..]);
  }

  lemma CountArrays(st: Stores)
    ensures |ArraysOf(st)| == Bit(Kept(st.vps) != []) + Bit(Kept(st.sps) != []) + Bit(Kept(st.pps) != [])
    ensures |ArraysBytes(NonEmpty(0x20, Kept(st.vps)))| == 3 * Bit(Kept(st.vps) != []) + |Framed(Kept(st.vps), 2)|
    ensures |ArraysBytes(NonEmpty(0x21, Kept(st.sps)))| == 3 * Bit(Kept(st.sps) != []) + |Framed(Kept(st.sps), 2)|
    ensures |ArraysBytes(NonEmpty(0x22, Kept(st.pps)))| == 3 * Bit(Kept(st.pps) != []) + |Framed(Kept(st.pps), 2)|
  {
    hide Kept;
    MeasureNone();
    OneArray(0x20, Kept(st.vps));
    OneArray(0x21, Kept(st.sps));
    OneArray(0x22, Kept(st.pps));
    hide Framed, ArraysBytes;
  }

  /** The H.265 make_codec_data; last is the SPS the library parsed last. */
  method MakeHvcC(parse: SecParse, last: Option<SpsInfo>) returns (buf: array?<byte>)
    requires parse.Valid() && 1 <= parse.nalLengthSize <= 4 && (last.Some? ==> InRange(last.value))
    ensures buf == null <==> !HvcWrites(parse.StoresView(), last)
    ensures buf == null <==>
      last.None? || forall i :: 0 <= i < parse.spsNals.Length ==> parse.spsNals[i].None?
    ensures buf != null ==> fresh(buf) && buf[..] == HvcRecord(parse.Cfg(), parse.StoresView(), last.value)
  {
    hide Kept, Framed, Head, NonEmpty, ArraysBytes, BigEndian, ArraysOf, InRange;
    HvcWritesIff(parse.StoresView(), last);
    var numVps, vpsSize := Measure(parse.vpsNals);
    var numSps, spsSize := Measure(parse.spsNals);
    var numPps, ppsSize := Measure(parse.ppsNals);
    var numArrays := 0;
    if numVps > 0 { numArrays := numArrays + 1; }
    if numSps > 0 { numArrays := numArrays + 1; }
    if numPps > 0 { numArrays := numArrays + 1; }
    if numSps == 0 || last.None? {
      return null;
    }
    CountArrays(parse.StoresView());
    buf := new byte[23 + 3 * numArrays + vpsSize + spsSize + ppsSize];
    var head := Head(last.value, parse.nalLengthSize, numArrays);
    FillHvcC(buf, head, numVps, parse.vpsNals, numSps, parse.spsNals, numPps, parse.ppsNals);
  }

  // ------------------------------------------------------------------ reading

  /** One loop of set_caps: identify, process, advance. process_nal's result is
      not looked at. */
  method ReadUnits(parse: SecParse, lib: Nal -> Header, data: seq<byte>, off: nat, count: nat)
      returns (end: Option<nat>)
    requires parse.Valid() && 1 <= parse.nalLengthSize <= 4
    modifies parse, parse.vpsNals, parse.spsNals, parse.ppsNals
    ensures parse.Cfg() == old(parse.Cfg())
    ensures var r := ReadList(parse.codec, data, off, count);
      end == r.1 && parse.View() == Run(parse.Cfg(), old(parse.View()), Units(lib, r.0))
  {
    hide ReadList, Run, Units, Process, Identify, Result;
    ghost var c, p, all := parse.Cfg(), parse.View(), ReadList(parse.codec, data, off, count);
    ghost var done: seq<Found> := [];
    var at: nat := off;
    RunNone(c, p, lib);
    for i := 0 to count
      invariant parse.Cfg() == c && 1 <= parse.nalLengthSize <= 4
      invariant all.0 == done + ReadList(parse.codec, data, at, count - i).0
      invariant all.1 == ReadList(parse.codec, data, at, count - i).1
      invariant parse.View() == Run(c, p, Units(lib, done))
    {
      ReadListUnfolds(parse.codec, data, at, count - i);
      var n := Identify(parse.codec, data, at);
      if n.None? {
        assert all.0 == done;
        return None;
      }
      IdentifySmall(parse.codec, data, at);
      ghost var x := Found(n.value, at);
      RunOneMore(c, p, lib, done, x);
      Reassociate(done, [x], ReadList(parse.codec, data, at + 2 + |n.value|, count - i - 1).0);
      var ok := parse.ProcessNal(Unit(n.value, lib(n.value), at));
      done := done + [x];
      at := at + 2 + |n.value|;
    }
    ReadListUnfolds(parse.codec, data, at, 0);
    assert all.0 == done;
    end := Some(at);
  }

  lemma RunNone(c: Config, p: Parser, lib: Nal -> Header)
    ensures Run(c, p, Units(lib, [])) == p
  {}

  lemma RunOneMore(c: Config, p: Parser, lib: Nal -> Header, done: seq<Found>, x: Found)
    ensures Run(c, p, Units(lib, done + [x])) ==
      Process(c, Run(c, p, Units(lib, done)), Unit(x.nal, lib(x.nal), x.at))
  {
    assert Units(lib, done + [x])[..|done|] == Units(lib, done);
  }

  lemma IdentifySmall(c: Codec, data: seq<byte>, off: nat)
    requires Identify(c, data, off).Some?
    ensures |Identify(c, data, off).value| < U32
  {
    IdentifyFits(c, data, off);
    PowTwo();
  }

  /** The two loops over an avcC. */
  method ReadSpsAndPps(parse: SecParse, lib: Nal -> Header, data: seq<byte>) returns (ok: bool)
    requires parse.Valid() && parse.codec.H264? && 1 <= parse.nalLengthSize <= 4
    requires |data| >= 7 && data[0] == 1
    modifies parse, parse.vpsNals, parse.spsNals, parse.ppsNals
    ensures parse.Cfg() == old(parse.Cfg())
    ensures var r := AvcUnits(data);
      ok == r.ok && parse.View() == Run(parse.Cfg(), old(parse.View()), Units(lib, r.found))
  {
    hide ReadList, Run, Units;
    ghost var c, p := parse.Cfg(), parse.View();
    var end := ReadUnits(parse, lib, data, 6, data[5] % 32);
    if end.None? || end.value >= |data| {
      return false;
    }
    ghost var sps := ReadList(H264, data, 6, data[5] % 32).0;
    ghost var pps := ReadList(H264, data, end.value + 1, data[end.value]).0;
    RunMore(c, p, lib, sps, pps);
    AvcUnitsOf(data, data[5] % 32, end.value);
    end := ReadUnits(parse, lib, data, end.value + 1, data[end.value]);
    ok := end.Some?;
  }

  /** The codec_data part of the H.264 set_caps, from the reset of push_codec on. */
  method ReadAvcC(parse: SecParse, lib: Nal -> Header, data: seq<byte>) returns (ok: bool)
    requires parse.Valid() && parse.codec.H264? && 1 <= parse.nalLengthSize <= 4
    modifies parse, parse.vpsNals, parse.spsNals, parse.ppsNals
    ensures var r := ReadRecord(old(parse.Cfg()), lib, old(parse.View()), data);
      && ok == r.ok && parse.View() == r.parser
      && parse.Cfg() == old(parse.Cfg()).(nl := r.nl)
  {
    parse.have := parse.have.(pushCodec := false);
    if |data| < 7 || data[0] != 1 {
      RunNone(parse.Cfg(), parse.View(), lib);
      return false;
    }
    parse.nalLengthSize := data[4] % 4 + 1;
    hide AvcUnits, Run, Units;
    ok := ReadSpsAndPps(parse, lib, data);
    if ok {
      parse.flags := parse.flags.(vps := false, sps := false, pps := false);
    }
  }

  lemma RunMore(c: Config, p: Parser, lib: Nal -> Header, a: seq<Found>, b: seq<Found>)
    ensures Run(c, p, Units(lib, a + b)) == Run(c, Run(c, p, Units(lib, a)), Units(lib, b))
  {
    assert Units(lib, a + b) == Units(lib, a) + Units(lib, b);
    RunJoin(c, p, Units(lib, a), Units(lib, b));
  }

  /** The loop over the arrays of an hvcC. */
  method ReadArrays(parse: SecParse, lib: Nal -> Header, data: seq<byte>, arrays: nat) returns (ok: bool)
    requires parse.Valid() && parse.codec.H265? && 1 <= parse.nalLengthSize <= 4
    modifies parse, parse.vpsNals, parse.spsNals, parse.ppsNals
    ensures parse.Cfg() == old(parse.Cfg())
    ensures var r := HvcArrays(data, 23, arrays);
      ok == r.ok && parse.View() == Run(parse.Cfg(), old(parse.View()), Units(lib, r.found))
  {
    hide HvcArrays, ReadList, Run, Units, FromBigEndian;
    ghost var c, p, all := parse.Cfg(), parse.View(), HvcArrays(data, 23, arrays);
    ghost var done: seq<Found> := [];
    var off: nat := 23;
    RunNone(c, p, lib);
    for i := 0 to arrays
      invariant parse.Cfg() == c && 1 <= parse.nalLengthSize <= 4
      invariant all.found == done + HvcArrays(data, off, arrays - i).found
      invariant all.ok == HvcArrays(data, off, arrays - i).ok
      invariant parse.View() == Run(c, p, Units(lib, done))
    {
      HvcArraysUnfold(data, off, arrays - i);
      if off + 3 >= |data| {
        assert all.found == done;
        return false;
      }
      var count := FromBigEndian(data[off + 1..off + 3]);
      ghost var nals := ReadList(H265, data, off + 3, count).0;
      var end := ReadUnits(parse, lib, data, off + 3, count);
      RunMore(c, p, lib, done, nals);
      if end.None? {
        return false;
      }
      Reassociate(done, nals, HvcArrays(data, end.value, arrays - i - 1).found);
      done := done + nals;
      off := end.value;
    }
    HvcArraysUnfold(data, off, 0);
    assert all.found == done;
    ok := true;
  }

  lemma HvcArraysUnfold(data: seq<byte>, off: nat, n: nat)
    ensures n == 0 ==> HvcArrays(data, off, n) == Parsed([], true)
    ensures n > 0 && off + 3 >= |data| ==> HvcArrays(data, off, n) == Parsed([], false)
    ensures n > 0 && off + 3 < |data| ==>
      var (nals, end) := ReadList(H265, data, off + 3, FromBigEndian(data[off + 1..off + 3]));
      HvcArrays(data, off, n) ==
        if end.None? then Parsed(nals, false)
        else Parsed(nals + HvcArrays(data, end.value, n - 1).found, HvcArrays(data, end.value, n - 1).ok)
  {
    hide ReadList;
  }

  /** The codec_data part of the H.265 set_caps. */
  method ReadHvcC(parse: SecParse, lib: Nal -> Header, data: seq<byte>) returns (ok: bool)
    requires parse.Valid() && parse.codec.H265? && 1 <= parse.nalLengthSize <= 4
    modifies parse, parse.vpsNals, parse.spsNals, parse.ppsNals
    ensures var r := ReadRecord(old(parse.Cfg()), lib, old(parse.View()), data);
      && ok == r.ok && parse.View() == r.parser
      && parse.Cfg() == old(parse.Cfg()).(nl := r.nl)
  {
    parse.have := parse.have.(pushCodec := false);
    if |data| < 23 || data[0] > 1 {
      RunNone(parse.Cfg(), parse.View(), lib);
      return false;
    }
    parse.nalLengthSize := data[21] % 4 + 1;
    hide HvcArrays, Run, Units;
    ok := ReadArrays(parse, lib, data, data[22]);
    if ok {
      parse.flags := parse.flags.(vps := false, sps := false, pps := false);
    }
  }
}
