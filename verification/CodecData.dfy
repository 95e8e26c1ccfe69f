/** The codec configuration records: avcC (section 5.3.3.1 of ISO/IEC 14496-15)
    and hvcC (section 8.3.3.1), as make_codec_data writes them and as set_caps
    reads them back through process_nal. */
module CodecData {
  import opened Bytes
  import opened NalUnits
  import opened NalParser
  import opened Sequences

  // ---------------------------------------------------------------- writing

  /** The occupied slots of a store, in order. */
  function Kept(s: Store): (r: seq<Nal>)
    ensures |r| <= |s|
    ensures forall n <- r :: Some(n) in s
  {
    if s == [] then [] else
      var front, last := Kept(s[..|s| - 1]), s[|s| - 1];
      if last.Some? then front + [last.value] else front
  }

  /** The last unit long enough to hold a profile and a level. */
  function LastLong(nals: seq<Nal>): Option<Nal> {
    if nals == [] then None
    else if |nals[|nals| - 1]| >= 4 then Some(nals[|nals| - 1])
    else LastLong(nals[..|nals| - 1])
  }

  /** What goes into the record: nothing of the stores in the in-band format. */
  function Written(c: Config, s: Store): seq<Nal> {
    if c.codec.H264? && c.format.PackedInBand? then [] else Kept(s)
  }

  /** Whether there is an avcC at all. */
  predicate AvcWrites(c: Config, st: Stores) {
    LastLong(Kept(st.sps)).Some? && (c.format.PackedInBand? || Kept(st.pps) != [])
  }

  function AvcRecord(c: Config, st: Stores): seq<byte>
    requires 1 <= c.nl <= 4 && AvcWrites(c, st)
  {
    var sps, pps := Written(c, st.sps), Written(c, st.pps);
    var p := LastLong(Kept(st.sps)).value;
    [1, LongByte(p, 1), LongByte(p, 2), LongByte(p, 3), 0xfc + (c.nl - 1), 0xe0 + |sps| % 32]
    + Framed(sps, 2) + [|pps| % 256] + Framed(pps, 2)
  }

  function LongByte(n: Nal, i: nat): byte {
    if i < |n| then n[i] else 0
  }

  /** The occupied slots are all kept. */
  lemma {:induction false} KeptAll(s: Store, n: Nal)
    ensures n in Kept(s) <==> Some(n) in s
  {
    if s != [] { KeptAll(s[..|s| - 1], n); }
  }

  /** The last long unit is long, and none behind it is. */
  lemma {:induction false} LastLongIs(nals: seq<Nal>) returns (i: int)
    ensures -1 <= i < |nals| && forall j :: i < j < |nals| ==> |nals[j]| < 4
    ensures LastLong(nals) == if i < 0 then None else Some(nals[i])
    ensures i >= 0 ==> |nals[i]| >= 4
  {
    i := |nals| - 1;
    if nals != [] && |nals[i]| < 4 { i := LastLongIs(nals[..i]); }
  }

  /** There is an avcC exactly when some slot has an SPS of four bytes, and some slot a
      PPS or the format is the in-band one. */
  lemma AvcWritesIff(c: Config, st: Stores)
    ensures AvcWrites(c, st) <==>
      && (exists i :: 0 <= i < |st.sps| && st.sps[i].Some? && |st.sps[i].value| >= 4)
      && (c.format.PackedInBand? || exists i :: 0 <= i < |st.pps| && st.pps[i].Some?)
  {
    var at := LastLongIs(Kept(st.sps));
    hide Kept;
    if i :| 0 <= i < |st.sps| && st.sps[i].Some? && |st.sps[i].value| >= 4 {
      KeptAll(st.sps, st.sps[i].value);
    }
    if at >= 0 {
      KeptAll(st.sps, Kept(st.sps)[at]);
    }
    AnyKept(st.pps);
  }

  lemma AnyKept(s: Store)
    ensures Kept(s) != [] <==> exists i :: 0 <= i < |s| && s[i].Some?
  {
    if i :| 0 <= i < |s| && s[i].Some? {
      KeptAll(s, s[i].value);
    }
    if Kept(s) != [] {
      KeptAll(s, Kept(s)[0]);
    }
  }

  /** The head of an avcC, byte by byte: version, then profile, compatibility and level
      out of the last SPS that has them, length size, and the count of SPS. */
  lemma AvcHeadIs(c: Config, st: Stores) returns (i: nat)
    requires 1 <= c.nl <= 4 && AvcWrites(c, st)
    ensures i < |Kept(st.sps)| && forall j :: i < j < |Kept(st.sps)| ==> |Kept(st.sps)[j]| < 4
    ensures var data, p := AvcRecord(c, st), Kept(st.sps)[i];
      && |p| >= 4 && |data| >= 7 && data[0] == 1 && data[1] == p[1] && data[2] == p[2] && data[3] == p[3]
      && data[4] == 252 + (c.nl - 1) && data[5] == 224 + |Written(c, st.sps)| % 32
  {
    hide Kept, Written, Framed;
    var at := LastLongIs(Kept(st.sps));
    i := at;
  }

  // ---------------------------------------------------------------- reading

  /** A unit found in a record, and where. */
  datatype Found = Found(nal: Nal, at: nat)

  /** The units handed to process_nal, in order, and whether the record is good.
      What precedes the first error has been handed over. */
  datatype Parsed = Parsed(found: seq<Found>, ok: bool)

  /** identify_nalu with its two-byte length. */
  function Identify(c: Codec, data: seq<byte>, off: nat): (r: Option<Nal>)
    ensures r.Some? ==> off + 2 + |r.value| <= |data|
  {
    var n := NalAt(data, off, 2);
    if n.Some? && HeaderReadable(c, n.value) then n else None
  }

  /** count units from off on, and where they end if all of them are there. */
  function ReadList(c: Codec, data: seq<byte>, off: nat, count: nat): (r: (seq<Found>, Option<nat>))
    ensures r.1.Some? ==> |r.0| == count && off <= r.1.value && (count > 0 ==> r.1.value <= |data|)
    decreases count
  {
    if count == 0 then ([], Some(off)) else
      var n := Identify(c, data, off);
      if n.None? then ([], None) else
        var (rest, end) := ReadList(c, data, off + 2 + |n.value|, count - 1);
        ([Found(n.value, off)] + rest, end)
  }

  /** The loops of the H.264 set_caps. */
  function AvcUnits(data: seq<byte>): Parsed {
    if |data| < 7 || data[0] != 1 then Parsed([], false) else
      var (sps, end) := ReadList(H264, data, 6, data[5] % 32);
      if end.None? || end.value >= |data| then Parsed(sps, false) else
        var (pps, end2) := ReadList(H264, data, end.value + 1, data[end.value]);
        Parsed(sps + pps, end2.Some?)
  }

  /** The arrays of an hvcC from off on. */
  function HvcArrays(data: seq<byte>, off: nat, arrays: nat): Parsed
    decreases arrays
  {
    if arrays == 0 then Parsed([], true)
    else if off + 3 >= |data| then Parsed([], false)
    else
      var (nals, end) := ReadList(H265, data, off + 3, FromBigEndian(data[off + 1..off + 3]));
      if end.None? then Parsed(nals, false) else
        var rest := HvcArrays(data, end.value, arrays - 1);
        Parsed(nals + rest.found, rest.ok)
  }

  /** The loops of the H.265 set_caps. */
  function HvcUnits(data: seq<byte>): Parsed {
    if |data| < 23 || data[0] > 1 then Parsed([], false) else HvcArrays(data, 23, data[22])
  }

  function UnitsIn(c: Codec, data: seq<byte>): Parsed {
    if c.H264? then AvcUnits(data) else HvcUnits(data)
  }

  /** lib is what the codec parser library makes of a unit. */
  function Units(lib: Nal -> Header, found: seq<Found>): (r: seq<Unit>)
    ensures |r| == |found|
    ensures forall i :: 0 <= i < |found| ==> r[i] == Unit(found[i].nal, lib(found[i].nal), found[i].at)
  {
    seq(|found|, i requires 0 <= i < |found| => Unit(found[i].nal, lib(found[i].nal), found[i].at))
  }

  // ------------------------------------------------- reading what was written

  predicate Readable(c: Codec, nals: seq<Nal>) {
    FitPrefix(nals, 2) && forall n <- nals :: HeaderReadable(c, n)
  }

  function NalsOf(found: seq<Found>): (r: seq<Nal>)
    ensures |r| == |found| && forall i :: 0 <= i < |found| ==> r[i] == found[i].nal
  {
    seq(|found|, i requires 0 <= i < |found| => found[i].nal)
  }

  lemma {:induction false} ReadListFramed(c: Codec, data: seq<byte>, off: nat, nals: seq<Nal>, rest: seq<byte>)
    requires off <= |data| && data[off..] == Framed(nals, 2) + rest && Readable(c, nals)
    ensures var (found, end) := ReadList(c, data, off, |nals|);
      && NalsOf(found) == nals && end == Some(|data| - |rest|) && data[|data| - |rest|..] == rest
    decreases |nals|
  {
    hide *;
    if nals == [] {
      ReadListNone(c, data, off, rest);
    } else {
      FramedFront(nals, 2);
      var after := Framed(nals[1..], 2) + rest;
      Reassociate(Prefixed(nals[0], 2), Framed(nals[1..], 2), rest);
      ReadableFront(c, nals);
      FitRest(nals, 2);
      NalAtPrefixed(data, off, nals[0], after, 2);
      var next := off + 2 + |nals[0]|;
      ReadListFramed(c, data, next, nals[1..], rest);
      ReadListMore(c, data, off, nals);
    }
  }

  lemma ReadListNone(c: Codec, data: seq<byte>, off: nat, rest: seq<byte>)
    requires off <= |data| && data[off..] == Framed([], 2) + rest
    ensures var (found, end) := ReadList(c, data, off, 0);
      && NalsOf(found) == [] && end == Some(|data| - |rest|) && data[|data| - |rest|..] == rest
  {
    assert Framed([], 2) + rest == rest;
  }

  lemma ReadableFront(c: Codec, nals: seq<Nal>)
    requires nals != [] && Readable(c, nals)
    ensures FitPrefix(nals, 2) && HeaderReadable(c, nals[0]) && Readable(c, nals[1..])
  {}

  lemma ReadListMore(c: Codec, data: seq<byte>, off: nat, nals: seq<Nal>)
    requires nals != [] && NalAt(data, off, 2) == Some(nals[0]) && HeaderReadable(c, nals[0])
    ensures var (rest, end) := ReadList(c, data, off + 2 + |nals[0]|, |nals| - 1);
      && ReadList(c, data, off, |nals|).1 == end
      && (NalsOf(rest) == nals[1..] ==> NalsOf(ReadList(c, data, off, |nals|).0) == nals)
  {
    hide *;
    IdentifyIs(c, data, off, nals[0]);
    ReadListUnfolds(c, data, off, |nals|);
    assert nals == [nals[0]] + nals[1..];
  }

  lemma IdentifyIs(c: Codec, data: seq<byte>, off: nat, n: Nal)
    requires NalAt(data, off, 2) == Some(n) && HeaderReadable(c, n)
    ensures Identify(c, data, off) == Some(n)
  {}

  /** What the H.264 reader finds in a record of at most 31 SPS: everything, but no
      PPS when there are 256 of them. */
  lemma AvcReadsBack(c: Config, st: Stores)
    requires c.codec.H264? && 1 <= c.nl <= 4 && AvcWrites(c, st)
    requires Readable(H264, Written(c, st.sps)) && Readable(H264, Written(c, st.pps))
    requires |Written(c, st.sps)| <= 31 && |Written(c, st.pps)| <= 256
    ensures var sps, pps := Written(c, st.sps), Written(c, st.pps);
      && AvcUnits(AvcRecord(c, st)).ok
      && NalsOf(AvcUnits(AvcRecord(c, st)).found) == sps + if |pps| == 256 then [] else pps
  {
    hide *;
    var sps, pps := Written(c, st.sps), Written(c, st.pps);
    AvcLayout(c, st);
    TwoListsRead(AvcRecord(c, st), sps, pps, |pps| % 256);
  }

  /** Two lists with their counts, where the second count may be 0. */
  lemma TwoListsRead(data: seq<byte>, a: seq<Nal>, b: seq<Nal>, n: byte)
    requires |data| >= 6 && data[0] == 1 && data[5] % 32 == |a| && (n == |b| || n == 0)
    requires data[6..] == Framed(a, 2) + ([n] + Framed(b, 2)) && Readable(H264, a) && Readable(H264, b)
    ensures AvcUnits(data).ok && NalsOf(AvcUnits(data).found) == a + if n == 0 then [] else b
  {
    hide *;
    var tail := [n] + Framed(b, 2);
    ReadListFramed(H264, data, 6, a, tail);
    var off := |data| - |tail|;
    CountByte(data, off, n, Framed(b, 2));
    if n == |b| {
      ReadListFramed(H264, data, off + 1, b, []);
    } else {
      ReadListZero(H264, data, off + 1);
    }
    AvcUnitsOf(data, |a|, off);
    NalsOfJoin(ReadList(H264, data, 6, |a|).0, ReadList(H264, data, off + 1, data[off]).0);
  }

  lemma CountByte(data: seq<byte>, off: nat, x: byte, rest: seq<byte>)
    requires off <= |data| && data[off..] == [x] + rest
    ensures off < |data| && data[off] == x && data[off + 1..] == rest + []
  {
    assert data[off] == data[off..][0] && data[off + 1..] == data[off..][1..];
  }

  lemma ReadListZero(c: Codec, data: seq<byte>, off: nat)
    ensures ReadList(c, data, off, 0).1.Some? && NalsOf(ReadList(c, data, off, 0).0) == []
  {}

  lemma AvcLayout(c: Config, st: Stores)
    requires 1 <= c.nl <= 4 && AvcWrites(c, st)
    ensures var data, sps, pps := AvcRecord(c, st), Written(c, st.sps), Written(c, st.pps);
      && |data| == 7 + |Framed(sps, 2)| + |Framed(pps, 2)|
      && data[0] == 1 && data[4] % 4 + 1 == c.nl && data[5] % 32 == |sps| % 32
      && data[6..] == Framed(sps, 2) + ([|pps| % 256] + Framed(pps, 2))
  {
    hide Framed, Written, AvcWrites, LastLong;
    var data, sps, pps := AvcRecord(c, st), Written(c, st.sps), Written(c, st.pps);
    assert data == data[..6] + Framed(sps, 2) + [|pps| % 256] + Framed(pps, 2);
    Reassociate(Framed(sps, 2), [|pps| % 256], Framed(pps, 2));
  }

  lemma AvcUnitsOf(data: seq<byte>, count: nat, off: nat)
    requires |data| >= 7 && data[0] == 1 && data[5] % 32 == count
    requires ReadList(H264, data, 6, count).1 == Some(off) && off < |data|
    ensures AvcUnits(data).found == ReadList(H264, data, 6, count).0 + ReadList(H264, data, off + 1, data[off]).0
    ensures AvcUnits(data).ok == ReadList(H264, data, off + 1, data[off]).1.Some?
  {}

  lemma NalsOfJoin(a: seq<Found>, b: seq<Found>)
    ensures NalsOf(a + b) == NalsOf(a) + NalsOf(b)
  {}

  // ------------------------------------------------------ filling the stores

  /** n is what the parser keeps in that slot of that shelf. */
  predicate Sorted(c: Codec, lib: Nal -> Header, n: Nal, shelf: Shelf, id: nat) {
    && |n| >= 2 && Belongs(KindOf(c, n), shelf) && lib(n).id == id
    && (if shelf.PpsShelf? then !lib(n).result.Refused? else lib(n).result.Ok?)
  }

  ghost predicate WellSorted(c: Codec, lib: Nal -> Header, s: Store, shelf: Shelf) {
    forall id :: 0 <= id < |s| && s[id].Some? ==> Sorted(c, lib, s[id].value, shelf, id)
  }

  ghost predicate WellKept(c: Codec, lib: Nal -> Header, st: Stores) {
    && |st.vps| == VpsSlots(c) && |st.sps| == SpsSlots(c) && |st.pps| == PpsSlots(c)
    && WellSorted(c, lib, st.vps, VpsShelf) && WellSorted(c, lib, st.sps, SpsShelf)
    && WellSorted(c, lib, st.pps, PpsShelf)
  }

  ghost predicate FromLib(lib: Nal -> Header, log: seq<Unit>) {
    forall u <- log :: u.header == lib(u.nal)
  }

  lemma {:induction false} StaysWellKept(c: Config, lib: Nal -> Header, p: Parser, log: seq<Unit>)
    requires WellKept(c.codec, lib, p.stores) && FromLib(lib, log)
    ensures WellKept(c.codec, lib, Run(c, p, log).stores)
  {
    if log != [] {
      var front, u := log[..|log| - 1], log[|log| - 1];
      StaysWellKept(c, lib, p, front);
      var q := Run(c, p, front);
      KeepsSorted(c, lib, q, u, VpsShelf);
      KeepsSorted(c, lib, q, u, SpsShelf);
      KeepsSorted(c, lib, q, u, PpsShelf);
    }
  }

  lemma EmptyWellKept(c: Codec, lib: Nal -> Header)
    ensures WellKept(c, lib, EmptyStores(c))
  {}

  /** Every store that process_nal can make of a stream is well kept. */
  lemma ReachableWellKept(c: Config, lib: Nal -> Header, log: seq<Unit>)
    requires FromLib(lib, log)
    ensures WellKept(c.codec, lib, Run(c, Fresh(c.codec), log).stores)
  {
    EmptyWellKept(c.codec, lib);
    StaysWellKept(c, lib, Fresh(c.codec), log);
  }

  lemma KeepsSorted(c: Config, lib: Nal -> Header, p: Parser, u: Unit, shelf: Shelf)
    requires WellSorted(c.codec, lib, On(p.stores, shelf), shelf) && u.header == lib(u.nal)
    ensures WellSorted(c.codec, lib, On(Process(c, p, u).stores, shelf), shelf)
    ensures |On(Process(c, p, u).stores, shelf)| == |On(p.stores, shelf)|
  {
    hide KindOf;
    var after := On(Process(c, p, u).stores, shelf);
    forall id | 0 <= id < |after| && after[id].Some? ensures Sorted(c.codec, lib, after[id].value, shelf, id) {
      StoreStep(c, p, u, shelf, id);
      KindTooShort(c.codec, u.nal);
    }
  }

  lemma KindTooShort(c: Codec, n: Nal)
    ensures KindOf(c, n).TooShort? <==> |n| < 2
  {}

  predicate Matches(lib: Nal -> Header, log: seq<Unit>, nals: seq<Nal>) {
    |log| == |nals| && forall i :: 0 <= i < |log| ==> log[i].nal == nals[i] && log[i].header == lib(nals[i])
  }

  /** s laid over old. */
  function Overlay(s: Store, under: Store): (r: Store)
    requires |s| <= |under|
    ensures |r| == |under|
    ensures forall i :: 0 <= i < |r| ==> r[i] == if i < |s| && s[i].Some? then s[i] else under[i]
  {
    seq(|under|, i requires 0 <= i < |under| => if i < |s| && s[i].Some? then s[i] else under[i])
  }

  /** No unit of the store will be refused. */
  predicate Welcome(c: Codec, s: State, nals: seq<Nal>, shelf: Shelf) {
    match shelf
    case VpsShelf => true
    case SpsShelf => nals == [] || s.gotSps || KindOf(c, nals[0]).Sps?
    case PpsShelf => nals == [] || s.gotSps
  }

  /** Processing the units of a store lays them over the same shelf and leaves the
      others alone. */
  lemma {:induction false} FillsShelf(c: Config, lib: Nal -> Header, p: Parser, s: Store, shelf: Shelf, log: seq<Unit>)
    requires WellSorted(c.codec, lib, s, shelf) && |s| <= |On(p.stores, shelf)|
    requires Matches(lib, log, Kept(s)) && Welcome(c.codec, p.state, Kept(s), shelf)
    ensures var q := Run(c, p, log);
      && q.stores == WithShelf(p.stores, shelf, Overlay(s, On(p.stores, shelf)))
      && q.state.gotSps == (p.state.gotSps || (shelf.SpsShelf? && log != []))
    decreases |s|
  {
    hide KindOf, WellSorted, Sorted, Matches, Process, Kept;
    KeptUnfolds(c.codec, lib, s, shelf, log);
    if s == [] {
      assert Overlay(s, On(p.stores, shelf)) == On(p.stores, shelf);
    } else {
      var front, last := s[..|s| - 1], s[|s| - 1];
      if last.None? {
        FillsShelf(c, lib, p, front, shelf, log);
        assert Overlay(s, On(p.stores, shelf)) == Overlay(front, On(p.stores, shelf));
      } else {
        FillsShelf(c, lib, p, front, shelf, log[..|log| - 1]);
        FillsOne(c, lib, Run(c, p, log[..|log| - 1]), last.value, shelf, |s| - 1, log[|log| - 1]);
        OverlayOneMore(s, On(p.stores, shelf));
      }
    }
  }

  function WithShelf(st: Stores, shelf: Shelf, s: Store): (r: Stores)
    ensures On(r, shelf) == s
  {
    match shelf
    case VpsShelf => st.(vps := s)
    case SpsShelf => st.(sps := s)
    case PpsShelf => st.(pps := s)
  }

  lemma OverlayOneMore(s: Store, under: Store)
    requires s != [] && |s| <= |under| && s[|s| - 1].Some?
    ensures Overlay(s, under) == Overlay(s[..|s| - 1], under)[|s| - 1 := s[|s| - 1]]
  {}

  lemma KeptUnfolds(c: Codec, lib: Nal -> Header, s: Store, shelf: Shelf, log: seq<Unit>)
    requires WellSorted(c, lib, s, shelf) && Matches(lib, log, Kept(s))
    ensures |log| == |Kept(s)|
    ensures s != [] ==> WellSorted(c, lib, s[..|s| - 1], shelf)
    ensures s != [] && s[|s| - 1].None? ==> Kept(s) == Kept(s[..|s| - 1])
    ensures s != [] && s[|s| - 1].Some? ==>
      && log != [] && Kept(s) == Kept(s[..|s| - 1]) + [s[|s| - 1].value]
      && Matches(lib, log[..|log| - 1], Kept(s[..|s| - 1]))
      && log[|log| - 1].nal == s[|s| - 1].value && log[|log| - 1].header == lib(s[|s| - 1].value)
      && Sorted(c, lib, s[|s| - 1].value, shelf, |s| - 1)
  {
    hide Sorted;
  }

  lemma FillsOne(c: Config, lib: Nal -> Header, p: Parser, n: Nal, shelf: Shelf, id: nat, u: Unit)
    requires Sorted(c.codec, lib, n, shelf, id) && id < |On(p.stores, shelf)|
    requires u.nal == n && u.header == lib(n)
    requires shelf.VpsShelf? || p.state.gotSps || KindOf(c.codec, n).Sps?
    ensures Process(c, p, u).stores == WithShelf(p.stores, shelf, On(p.stores, shelf)[id := Some(n)])
    ensures Process(c, p, u).state.gotSps == (p.state.gotSps || shelf.SpsShelf?)
  {
    hide KindOf, NextHave, NextFrame, Collected;
  }

  // ----------------------------------------------------- the round trip, avcC

  /** What set_caps makes of a record: whether it is accepted, the length size it
      names, and the parser afterwards. The push is called off first. */
  datatype Reread = Reread(ok: bool, nl: nat, parser: Parser)

  function LengthSizeIn(c: Config, data: seq<byte>): nat {
    if c.codec.H264? then (if |data| < 7 || data[0] != 1 then c.nl else data[4] % 4 + 1)
    else if |data| < 23 || data[0] > 1 then c.nl
    else data[21] % 4 + 1
  }

  function ReadRecord(c: Config, lib: Nal -> Header, p: Parser, data: seq<byte>): Reread {
    var parsed, nl := UnitsIn(c.codec, data), LengthSizeIn(c, data);
    var q := Run(c.(nl := nl), p.(have := p.have.(pushCodec := false)), Units(lib, parsed.found));
    Reread(parsed.ok, nl,
           if parsed.ok then q.(frame := q.frame.(flags := q.frame.flags.(vps := false, sps := false, pps := false)))
           else q)
  }

  /** What the caller of make_codec_data can check. */
  predicate AvcFaithful(c: Config, s: State, st: Stores) {
    && !c.format.PackedInBand?
    && |Kept(st.sps)| <= 31 && |Kept(st.pps)| <= 255
    && FitPrefix(Kept(st.sps), 2) && FitPrefix(Kept(st.pps), 2)
    && Welcome(H264, s, Kept(st.sps), SpsShelf)
  }

  /** Main result, avcC: for every store that process_nal can make, the record read back
      into empty stores rebuilds exactly these stores and the length size, if and
      only if it is not the in-band format, there are at most 31 SPS and 255 PPS,
      every size fits in 16 bits, and the first SPS is not a subset SPS (or an SPS
      has been accepted before). */
  lemma AvcRoundTrip(c: Config, lib: Nal -> Header, p: Parser, st: Stores)
    requires c.codec.H264? && 1 <= c.nl <= 4 && WellKept(H264, lib, st) && AvcWrites(c, st)
    requires p.stores == EmptyStores(H264)
    ensures var r := ReadRecord(c, lib, p, AvcRecord(c, st));
      r.ok && r.nl == c.nl && r.parser.stores == st <==> AvcFaithful(c, p.state, st)
  {
    hide ReadRecord, AvcRecord, AvcFaithful;
    var r := ReadRecord(c, lib, p, AvcRecord(c, st));
    if AvcFaithful(c, p.state, st) {
      AvcRebuilds(c, lib, p, st);
    } else if r.ok && r.parser.stores == st {
      AvcNotRebuilt(c, lib, p, st);
    }
  }

  lemma AvcNames(c: Config, st: Stores)
    requires c.codec.H264? && 1 <= c.nl <= 4 && AvcWrites(c, st)
    ensures LengthSizeIn(c, AvcRecord(c, st)) == c.nl
  {
    AvcLayout(c, st);
  }

  lemma KeptReadable(c: Codec, lib: Nal -> Header, s: Store, shelf: Shelf)
    requires WellSorted(c, lib, s, shelf) && FitPrefix(Kept(s), 2)
    ensures Readable(c, Kept(s))
  {
    forall n | n in Kept(s) ensures HeaderReadable(c, n) {
      assert Some(n) in s;
      var id :| 0 <= id < |s| && s[id] == Some(n);
      assert Sorted(c, lib, n, shelf, id);
    }
  }

  lemma {:induction false} RunJoin(c: Config, p: Parser, a: seq<Unit>, b: seq<Unit>)
    ensures Run(c, p, a + b) == Run(c, Run(c, p, a), b)
  {
    if b == [] {
      assert a + b == a;
    } else {
      assert (a + b)[..|a + b| - 1] == a + b[..|b| - 1];
      RunJoin(c, p, a, b[..|b| - 1]);
    }
  }

  lemma OverlayEmpty(s: Store)
    ensures Overlay(s, Empty(|s|)) == s
  {}

  lemma FillsSpsAndPps(c: Config, lib: Nal -> Header, p: Parser, st: Stores, log: seq<Unit>)
    requires WellSorted(c.codec, lib, st.sps, SpsShelf) && WellSorted(c.codec, lib, st.pps, PpsShelf)
    requires |st.sps| == |p.stores.sps| && |st.pps| == |p.stores.pps|
    requires Kept(st.sps) != [] && Welcome(c.codec, p.state, Kept(st.sps), SpsShelf)
    requires Matches(lib, log, Kept(st.sps) + Kept(st.pps))
    ensures Run(c, p, log).stores ==
      Stores(p.stores.vps, Overlay(st.sps, p.stores.sps), Overlay(st.pps, p.stores.pps))
  {
    hide Run, WellSorted, Kept;
    var n := |Kept(st.sps)|;
    var a, b := log[..n], log[n..];
    assert a + b == log;
    RunJoin(c, p, a, b);
    FillsShelf(c, lib, p, st.sps, SpsShelf, a);
    FillsShelf(c, lib, Run(c, p, a), st.pps, PpsShelf, b);
  }

  lemma UnitsMatch(lib: Nal -> Header, found: seq<Found>)
    ensures Matches(lib, Units(lib, found), NalsOf(found))
  {}

  lemma AvcRebuilds(c: Config, lib: Nal -> Header, p: Parser, st: Stores)
    requires c.codec.H264? && 1 <= c.nl <= 4 && WellKept(H264, lib, st) && AvcWrites(c, st)
    requires p.stores == EmptyStores(H264) && AvcFaithful(c, p.state, st)
    ensures var r := ReadRecord(c, lib, p, AvcRecord(c, st));
      r.ok && r.nl == c.nl && r.parser.stores == st
  {
    AvcNames(c, st);
    KeptReadable(H264, lib, st.sps, SpsShelf);
    KeptReadable(H264, lib, st.pps, PpsShelf);
    AvcReadsBack(c, st);
    var found := AvcUnits(AvcRecord(c, st)).found;
    UnitsMatch(lib, found);
    OverlayEmpty(st.sps);
    OverlayEmpty(st.pps);
    hide Kept, AvcUnits, AvcRecord, Run, FitPrefix, WellSorted, LastLong;
    FillsSpsAndPps(c, lib, p.(have := p.have.(pushCodec := false)), st, Units(lib, found));
  }

  // ------------------------------------- why nothing else comes back, avcC

  /** A filled slot names the unit that filled it. */
  lemma {:induction false} WhereStored(c: Config, p: Parser, log: seq<Unit>, shelf: Shelf, id: nat) returns (i: nat)
    requires LastStored(c, p, log, shelf, id).Some?
    ensures i < |log| && LastStored(c, p, log, shelf, id) == Some(log[i].nal)
    ensures Belongs(KindOf(c.codec, log[i].nal), shelf) && Result(c, Run(c, p, log[..i]).state, log[i])
  {
    hide Result, KindOf, Belongs;
    var front := log[..|log| - 1];
    var u := log[|log| - 1];
    if Belongs(KindOf(c.codec, u.nal), shelf) && Result(c, Run(c, p, front).state, u) && u.header.id == id {
      i := |log| - 1;
    } else {
      i := WhereStored(c, p, front, shelf, id);
      assert front[..i] == log[..i];
    }
  }

  lemma FilledFrom(c: Config, p: Parser, log: seq<Unit>, shelf: Shelf, id: nat) returns (i: nat)
    requires id < |On(p.stores, shelf)| == |On(Run(c, p, log).stores, shelf)|
    requires On(p.stores, shelf)[id].None? && On(Run(c, p, log).stores, shelf)[id].Some?
    ensures i < |log| && On(Run(c, p, log).stores, shelf)[id] == Some(log[i].nal)
    ensures Belongs(KindOf(c.codec, log[i].nal), shelf) && Result(c, Run(c, p, log[..i]).state, log[i])
  {
    StoresAreHistory(c, p, log, shelf, id);
    i := WhereStored(c, p, log, shelf, id);
  }

  predicate AllFrom<T(==)>(a: seq<T>, b: seq<T>) {
    forall x <- a :: x in b
  }

  lemma KeptFrom(c: Config, lib: Nal -> Header, p: Parser, found: seq<Found>, s: Store, shelf: Shelf)
    requires On(Run(c, p, Units(lib, found)).stores, shelf) == s
    requires On(p.stores, shelf) == Empty(|s|)
    ensures AllFrom(Kept(s), NalsOf(found))
  {
    hide Run;
    forall n | n in Kept(s) ensures n in NalsOf(found) {
      assert Some(n) in s;
      var id :| 0 <= id < |s| && s[id] == Some(n);
      var i := FilledFrom(c, p, Units(lib, found), shelf, id);
      assert NalsOf(found)[i] == n;
    }
  }

  lemma {:induction false} KeptIds(c: Codec, lib: Nal -> Header, s: Store, shelf: Shelf)
    requires WellSorted(c, lib, s, shelf)
    ensures forall i :: 0 <= i < |Kept(s)| ==> Belongs(KindOf(c, Kept(s)[i]), shelf) && lib(Kept(s)[i]).id < |s|
    ensures forall i, j :: 0 <= i < j < |Kept(s)| ==> lib(Kept(s)[i]).id < lib(Kept(s)[j]).id
  {
    hide KindOf, Belongs;
    if s != [] {
      KeptIds(c, lib, s[..|s| - 1], shelf);
    }
  }

  predicate TypeFor(c: Codec, n: Nal, shelf: Shelf) {
    match shelf
    case VpsShelf => IsVps(c, n)
    case SpsShelf => IsSps(c, n) || IsSubsetSps(c, n)
    case PpsShelf => IsPps(c, n)
  }

  /** The units of a store have its types. */
  lemma KeptTypes(c: Codec, lib: Nal -> Header, s: Store, shelf: Shelf)
    requires WellSorted(c, lib, s, shelf)
    ensures forall n <- Kept(s) :: TypeFor(c, n, shelf)
  {
    hide KindOf, Kept, IsVps, IsSps, IsSubsetSps, IsPps;
    KeptIds(c, lib, s, shelf);
    forall i | 0 <= i < |Kept(s)| ensures TypeFor(c, Kept(s)[i], shelf) {
      KindByType(c, Kept(s)[i]);
    }
  }

  /** The first list of an avcC holds units of types 7 and 15, the second of type 8. */
  lemma AvcListsNamed(c: Config, lib: Nal -> Header, st: Stores)
    requires c.codec.H264? && WellKept(H264, lib, st)
    ensures forall n <- Written(c, st.sps) :: |n| >= 2 && TypeOf(H264, n) in {7, 15}
    ensures forall n <- Written(c, st.pps) :: |n| >= 2 && TypeOf(H264, n) == 8
  {
    hide Kept, KindOf, WellSorted;
    KeptTypes(H264, lib, st.sps, SpsShelf);
    KeptTypes(H264, lib, st.pps, PpsShelf);
  }

  lemma {:induction false} ReadListFits(c: Codec, data: seq<byte>, off: nat, count: nat)
    ensures FitPrefix(NalsOf(ReadList(c, data, off, count).0), 2)
    decreases count
  {
    hide *;
    ReadListUnfolds(c, data, off, count);
    if count > 0 && Identify(c, data, off).Some? {
      var n := Identify(c, data, off).value;
      IdentifyFits(c, data, off);
      ReadListFits(c, data, off + 2 + |n|, count - 1);
      FitJoin([n], NalsOf(ReadList(c, data, off + 2 + |n|, count - 1).0));
    } else {
      FitJoin([], []);
    }
  }

  lemma ReadListUnfolds(c: Codec, data: seq<byte>, off: nat, count: nat)
    ensures count == 0 ==> ReadList(c, data, off, count) == ([], Some(off)) && NalsOf([]) == []
    ensures count > 0 && Identify(c, data, off).None? ==>
      ReadList(c, data, off, count) == ([], None) && NalsOf([]) == []
    ensures count > 0 && Identify(c, data, off).Some? ==>
      var n := Identify(c, data, off).value;
      var (rest, end) := ReadList(c, data, off + 2 + |n|, count - 1);
      && ReadList(c, data, off, count).0 == [Found(n, off)] + rest && ReadList(c, data, off, count).1 == end
      && NalsOf([Found(n, off)] + rest) == [n] + NalsOf(rest)
  {
    hide Identify;
  }

  lemma IdentifyFits(c: Codec, data: seq<byte>, off: nat)
    requires Identify(c, data, off).Some?
    ensures FitPrefix([Identify(c, data, off).value], 2)
  {
    NalAtFits(data, off, 2);
  }

  lemma FitJoin(a: seq<Nal>, b: seq<Nal>)
    ensures FitPrefix([], 2)
    ensures FitPrefix(a, 2) && FitPrefix(b, 2) ==> FitPrefix(a + b, 2)
  {}

  lemma AvcUnitsFit(data: seq<byte>)
    ensures FitPrefix(NalsOf(AvcUnits(data).found), 2)
  {
    if |data| >= 7 && data[0] == 1 {
      var (sps, end) := ReadList(H264, data, 6, data[5] % 32);
      ReadListFits(H264, data, 6, data[5] % 32);
      if end.Some? && end.value < |data| {
        ReadListFits(H264, data, end.value + 1, data[end.value]);
        NalsOfJoin(sps, ReadList(H264, data, end.value + 1, data[end.value]).0);
      }
    }
  }

  /** Of what is found, the stored units are all there; so none of them was cut. */
  lemma AvcAllFound(c: Config, lib: Nal -> Header, p: Parser, st: Stores)
    requires c.codec.H264? && 1 <= c.nl <= 4 && WellKept(H264, lib, st) && AvcWrites(c, st)
    requires p.stores == EmptyStores(H264)
    requires ReadRecord(c, lib, p, AvcRecord(c, st)).parser.stores == st
    ensures var nals := NalsOf(AvcUnits(AvcRecord(c, st)).found);
      && AllFrom(Kept(st.sps), nals) && AllFrom(Kept(st.pps), nals)
      && FitPrefix(Kept(st.sps), 2) && FitPrefix(Kept(st.pps), 2)
  {
    hide Run, AvcRecord, AvcUnits, Kept, WellSorted, AvcWrites;
    var data := AvcRecord(c, st);
    var q, cfg := p.(have := p.have.(pushCodec := false)), c.(nl := LengthSizeIn(c, data));
    KeptFrom(cfg, lib, q, AvcUnits(data).found, st.sps, SpsShelf);
    KeptFrom(cfg, lib, q, AvcUnits(data).found, st.pps, PpsShelf);
    AvcUnitsFit(data);
  }

  /** A subset SPS that comes first is refused, and its slot stays empty. */
  lemma SubsetSpsLost(c: Config, lib: Nal -> Header, p: Parser, st: Stores, found: seq<Found>)
    requires c.codec.H264? && WellKept(H264, lib, st) && p.stores == EmptyStores(H264)
    requires Kept(st.sps) != [] && !p.state.gotSps && !KindOf(H264, Kept(st.sps)[0]).Sps?
    requires Kept(st.sps) <= NalsOf(found) && AllFrom(NalsOf(found), Kept(st.sps) + Kept(st.pps))
    requires forall i :: |Kept(st.sps)| <= i < |found| ==> found[i].nal in Kept(st.pps)
    ensures Run(c, p, Units(lib, found)).stores.sps != st.sps
  {
    hide Run, Result, WellSorted;
    if Run(c, p, Units(lib, found)).stores.sps == st.sps {
      var n, log := Kept(st.sps)[0], Units(lib, found);
      KeptIds(H264, lib, st.sps, SpsShelf);
      KeptIds(H264, lib, st.pps, PpsShelf);
      assert Some(n) in st.sps;
      var id :| 0 <= id < |st.sps| && st.sps[id] == Some(n);
      var i := FilledFrom(c, p, log, SpsShelf, id);
      if i == 0 {
        RefusedAtOnce(c, p, log[0]);
        RunNothing(c, p, log);
      }
    }
  }

  lemma RunNothing(c: Config, p: Parser, log: seq<Unit>)
    ensures Run(c, p, log[..0]) == p
  {}

  lemma RefusedAtOnce(c: Config, p: Parser, u: Unit)
    requires !p.state.gotSps && Belongs(KindOf(c.codec, u.nal), SpsShelf) && !KindOf(c.codec, u.nal).Sps?
    ensures !Result(c, p.state, u)
  {}

  // 32 SPS: the count byte says none, and the reader takes the first length byte
  // for the number of PPS. Were all units found after all, they would fill the
  // rest of the record without a gap; then their bytes add up wrong.

  function Weight(nals: seq<Nal>): nat {
    if nals == [] then 0 else Weight(nals[..|nals| - 1]) + 2 + |nals[|nals| - 1]|
  }

  function ByteSum(s: seq<byte>): nat {
    if s == [] then 0 else ByteSum(s[..|s| - 1]) + s[|s| - 1]
  }

  lemma {:induction false} ByteSumJoin(a: seq<byte>, b: seq<byte>)
    ensures ByteSum(a + b) == ByteSum(a) + ByteSum(b)
  {
    if b == [] {
      assert a + b == a;
    } else {
      assert (a + b)[..|a + b| - 1] == a + b[..|b| - 1];
      ByteSumJoin(a, b[..|b| - 1]);
    }
  }

  /** The bytes of the framed units, added up. */
  function FramedSum(nals: seq<Nal>): nat {
    if nals == [] then 0 else FramedSum(nals[..|nals| - 1]) + ByteSum(Prefixed(nals[|nals| - 1], 2))
  }

  lemma {:induction false} FramedMeasures(nals: seq<Nal>)
    ensures |Framed(nals, 2)| == Weight(nals) && ByteSum(Framed(nals, 2)) == FramedSum(nals)
  {
    if nals != [] {
      FramedMeasures(nals[..|nals| - 1]);
      ByteSumJoin(Framed(nals[..|nals| - 1], 2), Prefixed(nals[|nals| - 1], 2));
    }
  }

  lemma {:induction false} MeasuresJoin(a: seq<Nal>, b: seq<Nal>)
    ensures Weight(a + b) == Weight(a) + Weight(b) && FramedSum(a + b) == FramedSum(a) + FramedSum(b)
  {
    if b == [] {
      assert a + b == a;
    } else {
      assert (a + b)[..|a + b| - 1] == a + b[..|b| - 1];
      MeasuresJoin(a, b[..|b| - 1]);
    }
  }

  lemma MeasuresOne(n: Nal)
    ensures Weight([n]) == 2 + |n| && FramedSum([n]) == ByteSum(Prefixed(n, 2))
  {
    var one := [n];
    assert one[..0] == [];
  }

  predicate Distinct(s: seq<Nal>) {
    forall i, j :: 0 <= i < j < |s| ==> s[i] != s[j]
  }

  /** Distinct units that are all found weigh no more than what is found; if they
      weigh as much, nothing else is found. */
  lemma {:induction false} Crowded(s: seq<Nal>, found: seq<Nal>)
    requires Distinct(s) && AllFrom(s, found)
    ensures Weight(s) <= Weight(found)
    ensures Weight(s) == Weight(found) ==> |s| == |found| && FramedSum(s) == FramedSum(found)
    decreases |s|
  {
    if s != [] {
      var front, x := s[..|s| - 1], s[|s| - 1];
      assert x in found;
      var i :| 0 <= i < |found| && found[i] == x;
      var rest := found[..i] + found[i + 1..];
      forall y | y in front ensures y in rest {
        assert y in found;
        var j :| 0 <= j < |found| && found[j] == y;
        assert y == if j < i then rest[j] else rest[j - 1];
      }
      Crowded(front, rest);
      assert found == found[..i] + ([x] + found[i + 1..]);
      MeasuresJoin(found[..i], [x] + found[i + 1..]);
      MeasuresJoin([x], found[i + 1..]);
      MeasuresJoin(found[..i], found[i + 1..]);
      MeasuresOne(x);
    } else if found != [] {
      assert Weight(found) >= 2;
    }
  }

  lemma AllDistinct(lib: Nal -> Header, st: Stores)
    requires WellKept(H264, lib, st)
    ensures Distinct(Kept(st.sps) + Kept(st.pps))
  {
    hide KindOf, WellSorted;
    KeptIds(H264, lib, st.sps, SpsShelf);
    KeptIds(H264, lib, st.pps, PpsShelf);
    var n := |Kept(st.sps)|;
    var all := Kept(st.sps) + Kept(st.pps);
    forall i, j | 0 <= i < j < |all| ensures all[i] != all[j] {
      if j < n {
        assert lib(Kept(st.sps)[i]).id < lib(Kept(st.sps)[j]).id;
      } else if i >= n {
        assert lib(Kept(st.pps)[i - n]).id < lib(Kept(st.pps)[j - n]).id;
      }
    }
  }

  /** What a successful ReadList took from the data. */
  lemma {:induction false} ReadListTook(c: Codec, data: seq<byte>, off: nat, count: nat)
    requires off <= |data| && ReadList(c, data, off, count).1.Some?
    ensures var (found, end) := ReadList(c, data, off, count);
      |found| == count && off + Weight(NalsOf(found)) == end.value <= |data|
    ensures ByteSum(data[..off]) + FramedSum(NalsOf(ReadList(c, data, off, count).0)) ==
      ByteSum(data[..ReadList(c, data, off, count).1.value])
    decreases count
  {
    hide *;
    ReadListUnfolds(c, data, off, count);
    if count == 0 {
      MeasuresNone();
    } else {
      var n := Identify(c, data, off).value;
      ReadListTook(c, data, off + 2 + |n|, count - 1);
      var rest := NalsOf(ReadList(c, data, off + 2 + |n|, count - 1).0);
      MeasuresJoin([n], rest);
      MeasuresOne(n);
      TookOne(c, data, off);
    }
  }

  lemma MeasuresNone()
    ensures Weight([]) == 0 && FramedSum([]) == 0
  {}

  lemma TookOne(c: Codec, data: seq<byte>, off: nat)
    requires off <= |data| && Identify(c, data, off).Some?
    ensures var n := Identify(c, data, off).value;
      ByteSum(data[..off]) + ByteSum(Prefixed(n, 2)) == ByteSum(data[..off + 2 + |n|])
  {
    hide *;
    var n := Identify(c, data, off).value;
    IdentifiedParts(c, data, off);
    TwoBytes(data[off..off + 2]);
    PrefixedIs(n);
    ByteSumJoin(data[..off], Prefixed(n, 2));
    TakeMore(data, off, 2, |n|);
  }

  lemma IdentifiedParts(c: Codec, data: seq<byte>, off: nat)
    requires Identify(c, data, off).Some?
    ensures var n := Identify(c, data, off).value;
      && off + 2 + |n| <= |data| && n == data[off + 2..off + 2 + |n|] && |n| == FromBigEndian(data[off..off + 2])
  {}

  lemma TakeMore(data: seq<byte>, off: nat, n: nat, m: nat)
    requires off + n + m <= |data|
    ensures data[..off + n + m] == data[..off] + (data[off..off + n] + data[off + n..off + n + m])
  {}

  lemma PrefixedIs(n: Nal)
    ensures Prefixed(n, 2) == BigEndian(|n|, 2) + n
  {}

  lemma TwoBytes(s: seq<byte>)
    requires |s| == 2
    ensures BigEndian(FromBigEndian(s), 2) == s
  {
    assert s[..1][..0] == [];
    assert FromBigEndian(s[..1]) == s[0];
    assert BigEndian(s[0], 1) == [s[0]];
  }

  /** A record of 32 SPS is never read back. */
  lemma ThirtyTwoSpsLost(c: Config, lib: Nal -> Header, st: Stores)
    requires c.codec.H264? && 1 <= c.nl <= 4 && WellKept(H264, lib, st) && AvcWrites(c, st)
    requires !c.format.PackedInBand? && |Kept(st.sps)| == 32 && FitPrefix(Kept(st.sps), 2)
    requires AvcUnits(AvcRecord(c, st)).ok
    ensures var nals := NalsOf(AvcUnits(AvcRecord(c, st)).found);
      !(AllFrom(Kept(st.sps), nals) && AllFrom(Kept(st.pps), nals))
  {
    hide *;
    var data, sps, pps := AvcRecord(c, st), Kept(st.sps), Kept(st.pps);
    var nals := NalsOf(AvcUnits(data).found);
    WrittenIsKept(c, st);
    AvcLayout(c, st);
    AvcUnitsWithoutSps(data);
    ReadListTook(H264, data, 7, data[6]);
    FramedMeasures(sps);
    FramedMeasures(pps);
    MeasuresJoin(sps, pps);
    RecordSum(data, Framed(sps, 2), |pps| % 256, Framed(pps, 2));
    KeptBound(st);
    assert data[..|data|] == data;
    if AllFrom(sps, nals) && AllFrom(pps, nals) {
      AllDistinct(lib, st);
      AllFromJoin(sps, pps, nals);
      Crowded(sps + pps, nals);
    }
  }

  lemma WrittenIsKept(c: Config, st: Stores)
    ensures !c.format.PackedInBand? ==> Written(c, st.sps) == Kept(st.sps) && Written(c, st.pps) == Kept(st.pps)
    ensures c.codec.H264? && c.format.PackedInBand? ==> Written(c, st.sps) == [] && Written(c, st.pps) == []
  {}

  lemma KeptBound(st: Stores)
    ensures |Kept(st.sps)| <= |st.sps| && |Kept(st.pps)| <= |st.pps|
  {}

  lemma AllFromJoin(a: seq<Nal>, b: seq<Nal>, s: seq<Nal>)
    requires AllFrom(a, s) && AllFrom(b, s)
    ensures AllFrom(a + b, s)
  {}

  lemma AvcUnitsWithoutSps(data: seq<byte>)
    requires |data| >= 7 && data[0] == 1 && data[5] % 32 == 0
    ensures AvcUnits(data).found == ReadList(H264, data, 7, data[6]).0
    ensures AvcUnits(data).ok == ReadList(H264, data, 7, data[6]).1.Some?
  {}

  /** The bytes behind the first seven, added up. */
  lemma RecordSum(data: seq<byte>, a: seq<byte>, x: byte, b: seq<byte>)
    requires |data| >= 7 && data[6..] == a + ([x] + b)
    ensures ByteSum(data) == ByteSum(data[..7]) - data[6] + ByteSum(a) + x + ByteSum(b)
  {
    ByteSumJoin(data[..6], data[6..]);
    ByteSumJoin(a, [x] + b);
    ByteSumJoin([x], b);
    var one := [x];
    assert one[..0] == [];
    assert data == data[..6] + data[6..];
    assert data[..7][..6] == data[..6];
  }

  /** Whatever the reader accepts and rebuilds was written faithfully. */
  lemma AvcNotRebuilt(c: Config, lib: Nal -> Header, p: Parser, st: Stores)
    requires c.codec.H264? && 1 <= c.nl <= 4 && WellKept(H264, lib, st) && AvcWrites(c, st)
    requires p.stores == EmptyStores(H264)
    requires ReadRecord(c, lib, p, AvcRecord(c, st)).ok
    requires ReadRecord(c, lib, p, AvcRecord(c, st)).parser.stores == st
    ensures AvcFaithful(c, p.state, st)
  {
    hide *;
    var data, sps, pps := AvcRecord(c, st), Kept(st.sps), Kept(st.pps);
    var found := AvcUnits(data).found;
    var nals := NalsOf(found);
    AvcAllFound(c, lib, p, st);
    AvcReadOk(c, lib, p, data);
    WrittenIsKept(c, st);
    KeptBound(st);
    KeptOnShelves(c, lib, st);
    if c.format.PackedInBand? {
      ReadableNone(H264);
      AvcReadsBack(c, st);
      NoneFrom(sps, nals);
      assert false;
    }
    if |sps| == 32 {
      ThirtyTwoSpsLost(c, lib, st);
      assert false;
    }
    KeptReadable(H264, lib, st.sps, SpsShelf);
    KeptReadable(H264, lib, st.pps, PpsShelf);
    AvcReadsBack(c, st);
    if |pps| == 256 {
      assert sps + [] == sps;
      NoneFrom(pps, sps);
      assert false;
    }
    if !Welcome(H264, p.state, sps, SpsShelf) {
      SubsetFirst(c, lib, p, st, found);
      assert false;
    }
    assert AvcFaithful(c, p.state, st) by { FaithfulIs(c, p.state, st); }
  }

  lemma FaithfulIs(c: Config, s: State, st: Stores)
    ensures AvcFaithful(c, s, st) <==>
      && !c.format.PackedInBand?
      && |Kept(st.sps)| <= 31 && |Kept(st.pps)| <= 255
      && FitPrefix(Kept(st.sps), 2) && FitPrefix(Kept(st.pps), 2)
      && Welcome(H264, s, Kept(st.sps), SpsShelf)
  {}

  lemma AvcReadOk(c: Config, lib: Nal -> Header, p: Parser, data: seq<byte>)
    requires c.codec.H264?
    ensures ReadRecord(c, lib, p, data).ok == AvcUnits(data).ok
  {}

  lemma NoneFrom(a: seq<Nal>, b: seq<Nal>)
    requires a != [] && forall n <- a :: n !in b
    ensures !AllFrom(a, b)
  {
    assert a[0] in a;
  }

  lemma KeptOnShelves(c: Config, lib: Nal -> Header, st: Stores)
    requires WellKept(H264, lib, st) && AvcWrites(c, st)
    ensures |st.sps| == 32 && |st.pps| == 256 && Kept(st.sps) != []
    ensures WellSorted(H264, lib, st.sps, SpsShelf) && WellSorted(H264, lib, st.pps, PpsShelf)
    ensures forall n <- Kept(st.pps) :: n !in Kept(st.sps)
  {
    hide KindOf, WellSorted;
    KeptIds(H264, lib, st.sps, SpsShelf);
    KeptIds(H264, lib, st.pps, PpsShelf);
    hide Kept;
    forall n | n in Kept(st.pps) ensures n !in Kept(st.sps) {
      assert Belongs(KindOf(H264, n), PpsShelf);
    }
  }

  lemma SubsetFirst(c: Config, lib: Nal -> Header, p: Parser, st: Stores, found: seq<Found>)
    requires c.codec.H264? && WellKept(H264, lib, st) && AvcWrites(c, st) && p.stores == EmptyStores(H264)
    requires 1 <= c.nl <= 4 && found == AvcUnits(AvcRecord(c, st)).found
    requires NalsOf(found) == Kept(st.sps) + Kept(st.pps) && !Welcome(H264, p.state, Kept(st.sps), SpsShelf)
    ensures ReadRecord(c, lib, p, AvcRecord(c, st)).parser.stores != st
  {
    hide AvcRecord, AvcUnits, AvcWrites, WellSorted, KindOf, Run, Kept;
    forall i | |Kept(st.sps)| <= i < |found| ensures found[i].nal in Kept(st.pps) {
      assert NalsOf(found)[i] == Kept(st.pps)[i - |Kept(st.sps)|];
    }
    SubsetSpsLost(c.(nl := LengthSizeIn(c, AvcRecord(c, st))), lib, p.(have := p.have.(pushCodec := false)), st, found);
  }

  lemma ReadableNone(c: Codec)
    ensures Readable(c, [])
  {}

  // ------------------------------------------------------- trailing bytes

  lemma NalAtStable(data: seq<byte>, extra: seq<byte>, off: nat, nl: nat)
    requires NalAt(data, off, nl).Some?
    ensures NalAt(data + extra, off, nl) == NalAt(data, off, nl)
  {
    var more := data + extra;
    assert more[off..off + nl] == data[off..off + nl];
    var size := FromBigEndian(data[off..off + nl]);
    assert more[off + nl..off + nl + size] == data[off + nl..off + nl + size];
  }

  lemma IdentifyStable(c: Codec, data: seq<byte>, extra: seq<byte>, off: nat)
    requires Identify(c, data, off).Some?
    ensures Identify(c, data + extra, off) == Identify(c, data, off)
  {
    NalAtStable(data, extra, off, 2);
  }

  lemma {:induction false} ReadListStable(c: Codec, data: seq<byte>, extra: seq<byte>, off: nat, count: nat)
    requires ReadList(c, data, off, count).1.Some?
    ensures ReadList(c, data + extra, off, count) == ReadList(c, data, off, count)
    decreases count
  {
    hide *;
    ReadListUnfolds(c, data, off, count);
    ReadListUnfolds(c, data + extra, off, count);
    if count > 0 {
      IdentifyStable(c, data, extra, off);
      ReadListStable(c, data, extra, off + 2 + |Identify(c, data, off).value|, count - 1);
    }
  }

  lemma AvcStable(data: seq<byte>, extra: seq<byte>)
    requires AvcUnits(data).ok
    ensures AvcUnits(data + extra) == AvcUnits(data)
  {
    hide ReadList;
    var n, more := data[5] % 32, data + extra;
    var end := ReadList(H264, data, 6, n).1.value;
    ReadListStable(H264, data, extra, 6, n);
    ReadListStable(H264, data, extra, end + 1, data[end]);
    assert more[0] == data[0] && more[5] == data[5] && more[end] == data[end];
    AvcUnitsOf(data, n, end);
    AvcUnitsOf(more, n, end);
  }

  lemma {:induction false} HvcArraysStable(data: seq<byte>, extra: seq<byte>, off: nat, arrays: nat)
    requires HvcArrays(data, off, arrays).ok
    ensures HvcArrays(data + extra, off, arrays) == HvcArrays(data, off, arrays)
    decreases arrays
  {
    if arrays > 0 {
      var count := FromBigEndian(data[off + 1..off + 3]);
      assert (data + extra)[off + 1..off + 3] == data[off + 1..off + 3];
      ReadListStable(H265, data, extra, off + 3, count);
      HvcArraysStable(data, extra, ReadList(H265, data, off + 3, count).1.value, arrays - 1);
    }
  }

  /** Bytes behind an accepted record change nothing of what is read. */
  lemma TrailingBytesIgnored(c: Codec, data: seq<byte>, extra: seq<byte>)
    requires UnitsIn(c, data).ok
    ensures UnitsIn(c, data + extra) == UnitsIn(c, data)
  {
    if c.H264? { AvcStable(data, extra); } else { HvcArraysStable(data, extra, 23, data[22]); }
  }

  // ------------------------------------------------- records and the push

  lemma {:induction false} PushStaysOff(c: Config, p: Parser, log: seq<Unit>)
    requires !p.have.pushCodec
    ensures !Run(c, p, log).have.pushCodec
  {
    if log != [] { PushStaysOff(c, p, log[..|log| - 1]); }
  }

  /** Reading a record, good or bad, leaves no push pending: whether one is pending
      after set_caps depends on what set_caps does behind the record alone. */
  lemma RecordLeavesNoPush(c: Config, lib: Nal -> Header, p: Parser, data: seq<byte>)
    ensures !ReadRecord(c, lib, p, data).parser.have.pushCodec
  {
    PushStaysOff(c.(nl := LengthSizeIn(c, data)), p.(have := p.have.(pushCodec := false)),
                 Units(lib, UnitsIn(c.codec, data).found));
  }
}
