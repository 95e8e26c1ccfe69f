/** What the stores hold in a run of the parser: the units come in configuration
    records alone, whose lengths have two bytes. So the size of a unit never stands
    in the way of writing the stores into a record. */
module StoredRecords {
  import opened Bytes
  import opened CodecData
  import opened HvcData
  import opened NalParser
  import opened NalUnits

  /** What happens to a parser: caps with a record, which empty the stores first when
      they differ from the caps before; a reset; and whatever else, which may do
      anything but touch the stores. */
  datatype Turn =
    | SetCaps(format: Format, transform: bool, nl: nat, data: seq<byte>, changed: bool)
    | Reset
    | Other(state: State, have: Have, frame: Frame)

  /** reset_stream_info. */
  function ResetStreamInfo(c: Codec, p: Parser): Parser {
    Parser(p.state, Have(false, false, false, false), NEW_FRAME, EmptyStores(c))
  }

  function Take(c: Codec, lib: Nal -> Header, p: Parser, t: Turn): Parser {
    match t
    case SetCaps(format, transform, nl, data, changed) =>
      ReadRecord(Config(c, format, transform, nl), lib, if changed then ResetStreamInfo(c, p) else p, data).parser
    case Reset => ResetStreamInfo(c, p)
    case Other(state, have, frame) => Parser(state, have, frame, p.stores)
  }

  /** The parser after these turns, from start on. */
  function TakeAll(c: Codec, lib: Nal -> Header, turns: seq<Turn>): Parser {
    if turns == [] then Fresh(c) else Take(c, lib, TakeAll(c, lib, turns[..|turns| - 1]), turns[|turns| - 1])
  }

  // ------------------------------------------------ what the stores then hold

  ghost predicate ShortStore(s: Store) {
    forall id :: 0 <= id < |s| && s[id].Some? ==> |s[id].value| < 0x1_0000
  }

  /** Every unit has a size that two bytes hold. */
  ghost predicate Short(st: Stores) {
    ShortStore(st.vps) && ShortStore(st.sps) && ShortStore(st.pps)
  }

  lemma KeptFits(s: Store)
    requires ShortStore(s)
    ensures FitPrefix(Kept(s), 2)
  {
    PowTwo();
    forall n | n in Kept(s) ensures |n| < Pow256(2) {
      assert Some(n) in s;
      var id :| 0 <= id < |s| && s[id] == Some(n);
    }
  }

  lemma StepShort(c: Config, p: Parser, u: Unit, shelf: Shelf)
    requires ShortStore(On(p.stores, shelf)) && |u.nal| < 0x1_0000
    ensures ShortStore(On(Process(c, p, u).stores, shelf))
  {
    hide KindOf;
    var after := On(Process(c, p, u).stores, shelf);
    forall id | 0 <= id < |after| && after[id].Some? ensures |after[id].value| < 0x1_0000 {
      StoreStep(c, p, u, shelf, id);
    }
  }

  lemma {:induction false} RunShort(c: Config, p: Parser, log: seq<Unit>)
    requires Short(p.stores) && forall u <- log :: |u.nal| < 0x1_0000
    ensures Short(Run(c, p, log).stores)
  {
    hide Process, ShortStore;
    if log != [] {
      var front, u := log[..|log| - 1], log[|log| - 1];
      RunShort(c, p, front);
      StepShort(c, Run(c, p, front), u, VpsShelf);
      StepShort(c, Run(c, p, front), u, SpsShelf);
      StepShort(c, Run(c, p, front), u, PpsShelf);
    }
  }

  lemma UnitsShort(c: Codec, lib: Nal -> Header, data: seq<byte>)
    ensures FromLib(lib, Units(lib, UnitsIn(c, data).found))
    ensures forall u <- Units(lib, UnitsIn(c, data).found) :: |u.nal| < 0x1_0000
  {
    hide AvcUnits, HvcUnits;
    var found := UnitsIn(c, data).found;
    AvcUnitsFit(data);
    HvcUnitsFit(data);
    PowTwo();
    forall i | 0 <= i < |found| ensures |found[i].nal| < 0x1_0000 {
      assert NalsOf(found)[i] == found[i].nal;
    }
  }

  /** Reading a record keeps both. */
  lemma ReadKeeps(c: Config, lib: Nal -> Header, p: Parser, data: seq<byte>)
    requires WellKept(c.codec, lib, p.stores) && Short(p.stores)
    ensures var st := ReadRecord(c, lib, p, data).parser.stores;
      WellKept(c.codec, lib, st) && Short(st)
  {
    hide Run, WellKept, Short, UnitsIn;
    var cfg, q := c.(nl := LengthSizeIn(c, data)), p.(have := p.have.(pushCodec := false));
    UnitsShort(c.codec, lib, data);
    StaysWellKept(cfg, lib, q, Units(lib, UnitsIn(c.codec, data).found));
    RunShort(cfg, q, Units(lib, UnitsIn(c.codec, data).found));
  }

  lemma EmptyShort(c: Codec)
    ensures Short(EmptyStores(c))
  {}

  /** In every run every slot holds an accepted unit of its type and id, of a size
      that two bytes hold. */
  lemma {:induction false} StoredIsShort(c: Codec, lib: Nal -> Header, turns: seq<Turn>)
    ensures var st := TakeAll(c, lib, turns).stores;
      WellKept(c, lib, st) && Short(st)
  {
    hide WellKept, Short, ReadRecord, EmptyStores;
    EmptyWellKept(c, lib);
    EmptyShort(c);
    if turns != [] {
      var front, t := turns[..|turns| - 1], turns[|turns| - 1];
      StoredIsShort(c, lib, front);
      if t.SetCaps? {
        var p := TakeAll(c, lib, front);
        ReadKeeps(Config(c, t.format, t.transform, t.nl), lib, if t.changed then ResetStreamInfo(c, p) else p, t.data);
      }
    }
  }

  /** After a reset nothing is stored. After caps that differ from the ones before, what is
      stored came in their record. */
  lemma ChangeForgets(c: Codec, lib: Nal -> Header, p: Parser, t: Turn)
    requires t.Reset? || (t.SetCaps? && t.changed)
    ensures var st := Take(c, lib, p, t).stores;
      && (t.Reset? ==> Kept(st.vps) == [] && Kept(st.sps) == [] && Kept(st.pps) == [])
      && (t.SetCaps? ==>
           var nals := NalsOf(UnitsIn(c, t.data).found);
           AllFrom(Kept(st.vps), nals) && AllFrom(Kept(st.sps), nals) && AllFrom(Kept(st.pps), nals))
  {
    var q := ResetStreamInfo(c, p);
    if t.Reset? {
      NothingKept(VpsSlots(c));
      NothingKept(SpsSlots(c));
      NothingKept(PpsSlots(c));
    } else {
      hide Run, UnitsIn, Kept, AllFrom;
      var cfg := Config(c, t.format, t.transform, t.nl);
      cfg := cfg.(nl := LengthSizeIn(cfg, t.data));
      var q := q.(have := q.have.(pushCodec := false));
      var found := UnitsIn(c, t.data).found;
      var st := Run(cfg, q, Units(lib, found)).stores;
      SlotsStay(cfg, q, Units(lib, found));
      KeptFrom(cfg, lib, q, found, st.vps, VpsShelf);
      KeptFrom(cfg, lib, q, found, st.sps, SpsShelf);
      KeptFrom(cfg, lib, q, found, st.pps, PpsShelf);
    }
  }

  lemma {:induction false} NothingKept(n: nat)
    ensures Kept(Empty(n)) == []
  {
    if n > 0 {
      NothingKept(n - 1);
      assert Empty(n)[..n - 1] == Empty(n - 1);
    }
  }

  lemma {:induction false} SlotsStay(c: Config, p: Parser, log: seq<Unit>)
    ensures var st := Run(c, p, log).stores;
      |st.vps| == |p.stores.vps| && |st.sps| == |p.stores.sps| && |st.pps| == |p.stores.pps|
  {
    if log != [] {
      SlotsStay(c, p, log[..|log| - 1]);
      hide KindOf, Accepts, NextState, NextHave, NextFrame, Collected;
    }
  }

  // ------------------------------------------------------------ round trips

  lemma StoredFits(c: Codec, lib: Nal -> Header, turns: seq<Turn>)
    ensures var st := TakeAll(c, lib, turns).stores;
      && WellKept(c, lib, st)
      && FitPrefix(Kept(st.vps), 2) && FitPrefix(Kept(st.sps), 2) && FitPrefix(Kept(st.pps), 2)
  {
    hide WellKept, ShortStore, FitPrefix, TakeAll;
    var st := TakeAll(c, lib, turns).stores;
    StoredIsShort(c, lib, turns);
    KeptFits(st.vps);
    KeptFits(st.sps);
    KeptFits(st.pps);
  }

  /** Main result, hvcC: after every run the record of the stores, read back into
      empty stores, rebuilds exactly these stores and the length size. */
  lemma HvcComesBack(c: Config, lib: Nal -> Header, turns: seq<Turn>, p: Parser, i: SpsInfo)
    requires c.codec.H265? && 1 <= c.nl <= 4 && p.stores == EmptyStores(H265)
    requires HvcWrites(TakeAll(H265, lib, turns).stores, Some(i)) && InRange(i)
    ensures var st := TakeAll(H265, lib, turns).stores;
      var r := ReadRecord(c, lib, p, HvcRecord(c, st, i));
      r.ok && r.nl == c.nl && r.parser.stores == st
  {
    hide WellKept, FitPrefix, TakeAll, ReadRecord, HvcRecord, HvcWrites;
    StoredFits(H265, lib, turns);
    HvcRoundTrip(c, lib, p, TakeAll(H265, lib, turns).stores, i);
  }

  /** Main result, avcC: after every run the record does so if and only if it is not
      the in-band format, there are at most 31 SPS and 255 PPS, and the first SPS is
      not a subset SPS (or an SPS has been accepted before). */
  lemma AvcComesBackIff(c: Config, lib: Nal -> Header, turns: seq<Turn>, p: Parser)
    requires c.codec.H264? && 1 <= c.nl <= 4 && p.stores == EmptyStores(H264)
    requires AvcWrites(c, TakeAll(H264, lib, turns).stores)
    ensures var st := TakeAll(H264, lib, turns).stores;
      var r := ReadRecord(c, lib, p, AvcRecord(c, st));
      r.ok && r.nl == c.nl && r.parser.stores == st <==>
        && !c.format.PackedInBand? && |Kept(st.sps)| <= 31 && |Kept(st.pps)| <= 255
        && Welcome(H264, p.state, Kept(st.sps), SpsShelf)
  {
    hide WellKept, FitPrefix, TakeAll, ReadRecord, AvcRecord, AvcWrites, Welcome, Kept;
    StoredFits(H264, lib, turns);
    AvcRoundTrip(c, lib, p, TakeAll(H264, lib, turns).stores);
  }
}
