/** Records that fill the stores so that what is then written does not come back: with
    32 SPS, with 256 PPS, with anything in the in-band format, or with a subset SPS in
    the first slot. */
module RecordWitness {
  import opened Bytes
  import opened CodecData
  import opened NalParser
  import opened NalUnits
  import opened Sequences
  import opened StoredRecords

  /** A library that accepts every unit and reads the id from its second byte. */
  function ReadId(n: Nal): Header {
    Header(Ok, if |n| >= 2 then n[1] else 0, false, false, false)
  }

  function Sps(id: byte): Nal { [0x67, id, 0, 0] }

  function SubsetSps(id: byte): Nal { [0x6f, id, 0, 0] }

  function Pps(id: byte): Nal { [0x68, id] }

  /** An avcC with these units in its first and in its second list. The loops over
      the lists do not look at the types. */
  function ListRecord(a: seq<Nal>, b: seq<Nal>): seq<byte>
    requires |a| <= 31 && |b| <= 255
  {
    [1, 0x64, 0, 0x28, 0xff, 0xe0 + |a|] + Framed(a, 2) + [|b|] + Framed(b, 2)
  }

  /** A run: the caps c come with this record. */
  function Given(c: Config, data: seq<byte>): seq<Turn> {
    [SetCaps(c.format, c.transform, c.nl, data, false)]
  }

  lemma StoresGiven(c: Config, data: seq<byte>) returns (cfg: Config, log: seq<Unit>)
    requires c.codec.H264?
    ensures cfg.codec.H264? && log == Units(ReadId, AvcUnits(data).found)
    ensures TakeAll(H264, ReadId, Given(c, data)).stores == Run(cfg, Fresh(H264), log).stores
  {
    hide AvcUnits, Run;
    var turns := Given(c, data);
    assert turns[..0] == [] && TakeAll(H264, ReadId, turns[..0]) == Fresh(H264);
    cfg, log := c.(nl := LengthSizeIn(c, data)), Units(ReadId, AvcUnits(data).found);
  }

  lemma ListLayout(a: seq<Nal>, b: seq<Nal>)
    requires |a| <= 31 && |b| <= 255
    ensures var data := ListRecord(a, b);
      && |data| >= 6 && data[0] == 1 && data[5] % 32 == |a|
      && data[6..] == Framed(a, 2) + ([|b|] + Framed(b, 2))
  {
    hide Framed;
    Reassociate(Framed(a, 2), [|b|], Framed(b, 2));
    var head := [1, 0x64, 0, 0x28, 0xff, 0xe0 + |a|];
    ReassociateFour(head, Framed(a, 2), [|b|], Framed(b, 2));
    assert ListRecord(a, b) == head + (Framed(a, 2) + ([|b|] + Framed(b, 2)));
  }

  /** All units of the record reach process_nal, in order. */
  lemma RecordBrings(c: Config, a: seq<Nal>, b: seq<Nal>) returns (cfg: Config, log: seq<Unit>)
    requires c.codec.H264? && |a| <= 31 && |b| <= 255 && Readable(H264, a) && Readable(H264, b)
    ensures Matches(ReadId, log, a + b) && cfg.codec.H264?
    ensures TakeAll(H264, ReadId, Given(c, ListRecord(a, b))).stores == Run(cfg, Fresh(H264), log).stores
  {
    hide *;
    var data := ListRecord(a, b);
    ListLayout(a, b);
    TwoListsRead(data, a, b, |b|);
    UnitsMatch(ReadId, AvcUnits(data).found);
    cfg, log := StoresGiven(c, data);
  }

  /** SPS in the first k slots, PPS in the first m. */
  function FirstSlots(k: nat, m: nat): Stores
    requires k <= 32 && m <= 256
  {
    Stores([], seq(32, i requires 0 <= i < 32 => if i < k then Some(Sps(i)) else None),
               seq(256, i requires 0 <= i < 256 => if i < m then Some(Pps(i)) else None))
  }

  function SpsList(k: nat): (r: seq<Nal>)
    requires k <= 32
    ensures |r| == k && forall i :: 0 <= i < k ==> r[i] == Sps(i)
  {
    seq(k, i requires 0 <= i < k => Sps(i))
  }

  function PpsList(m: nat): (r: seq<Nal>)
    requires m <= 256
    ensures |r| == m && forall i :: 0 <= i < m ==> r[i] == Pps(i)
  {
    seq(m, i requires 0 <= i < m => Pps(i))
  }

  lemma {:induction false} KeptOfFirst(s: Store, nals: seq<Nal>)
    requires |nals| <= |s|
    requires forall i :: 0 <= i < |s| ==> s[i] == if i < |nals| then Some(nals[i]) else None
    ensures Kept(s) == nals
    decreases |s|
  {
    if |nals| < |s| {
      KeptOfFirst(s[..|s| - 1], nals);
    } else if s != [] {
      KeptOfFirst(s[..|s| - 1], nals[..|nals| - 1]);
      assert nals == nals[..|nals| - 1] + [nals[|nals| - 1]];
    }
  }

  lemma KeptOfSlots(k: nat, m: nat)
    requires k <= 32 && m <= 256
    ensures Kept(FirstSlots(k, m).sps) == SpsList(k) && Kept(FirstSlots(k, m).pps) == PpsList(m)
  {
    hide Kept, Sps, Pps;
    KeptOfFirst(FirstSlots(k, m).sps, SpsList(k));
    KeptOfFirst(FirstSlots(k, m).pps, PpsList(m));
  }

  lemma KindsOfUnits(id: byte)
    ensures KindOf(H264, Sps(id)).Sps? && KindOf(H264, SubsetSps(id)).SubsetSps? && KindOf(H264, Pps(id)).Pps?
  {}

  lemma SlotsSorted(k: nat, m: nat)
    requires k <= 32 && m <= 256
    ensures WellSorted(H264, ReadId, FirstSlots(k, m).sps, SpsShelf)
    ensures WellSorted(H264, ReadId, FirstSlots(k, m).pps, PpsShelf)
  {
    hide KindOf;
    forall id | 0 <= id < k ensures Sorted(H264, ReadId, Sps(id), SpsShelf, id) { KindsOfUnits(id); }
    forall id | 0 <= id < m ensures Sorted(H264, ReadId, Pps(id), PpsShelf, id) { KindsOfUnits(id); }
  }

  /** k SPS and then m PPS, of which the first j are in the first list. */
  function SlotsRecord(j: nat, k: nat, m: nat): seq<byte>
    requires k <= 32 && m <= 256 && j <= 31 && j <= k + m <= j + 255
  {
    ListRecord((SpsList(k) + PpsList(m))[..j], (SpsList(k) + PpsList(m))[j..])
  }

  /** One record fills these slots, and there is an avcC of them. One record holds up
      to 286 units: so k may be 32, or m may be 256. */
  lemma FirstSlotsReached(c: Config, j: nat, k: nat, m: nat)
    requires c.codec.H264? && 1 <= k <= 32 && 1 <= m <= 256 && j <= 31 && j <= k + m <= j + 255
    ensures TakeAll(H264, ReadId, Given(c, SlotsRecord(j, k, m))).stores == FirstSlots(k, m)
    ensures AvcWrites(c, FirstSlots(k, m))
  {
    hide Run, TakeAll, ListRecord, Kept, WellSorted, KindOf, Sps, Pps, ReadId;
    var st, all := FirstSlots(k, m), SpsList(k) + PpsList(m);
    assert all[..j] + all[j..] == all;
    ListsReadable(k, m, j);
    var cfg, log := RecordBrings(c, all[..j], all[j..]);
    KeptOfSlots(k, m);
    SlotsSorted(k, m);
    FirstIsSps(k);
    FillsSpsAndPps(cfg, ReadId, Fresh(H264), st, log);
    OverlayEmpty(st.sps);
    OverlayEmpty(st.pps);
    SpsAreLong(k);
  }

  lemma ListsReadable(k: nat, m: nat, j: nat)
    requires k <= 32 && m <= 256 && j <= k + m
    ensures var all := SpsList(k) + PpsList(m);
      Readable(H264, all[..j]) && Readable(H264, all[j..])
  {
    var all := SpsList(k) + PpsList(m);
    assert Pow256(1) == 256;
    forall n | n in all ensures |n| < Pow256(2) && HeaderReadable(H264, n) {
      var i :| 0 <= i < |all| && all[i] == n;
    }
  }

  lemma FirstIsSps(k: nat)
    requires 1 <= k <= 32
    ensures KindOf(H264, SpsList(k)[0]).Sps?
  {
    KindsOfUnits(0);
  }

  lemma SpsAreLong(k: nat)
    requires 1 <= k <= 32
    ensures LastLong(SpsList(k)).Some?
  {
    assert SpsList(k)[k - 1] == Sps(k - 1);
  }

  /** The avcC of the stores that this record fills comes back if and only if it is not
      the in-band format, not all 32 SPS slots and not all 256 PPS slots are taken. */
  lemma FirstSlotsComeBackIff(c: Config, j: nat, k: nat, m: nat)
    requires c.codec.H264? && 1 <= c.nl <= 4
    requires 1 <= k <= 32 && 1 <= m <= 256 && j <= 31 && j <= k + m <= j + 255
    ensures var st := TakeAll(H264, ReadId, Given(c, SlotsRecord(j, k, m))).stores;
      && AvcWrites(c, st)
      && var r := ReadRecord(c, ReadId, Fresh(H264), AvcRecord(c, st));
         r.ok && r.nl == c.nl && r.parser.stores == st <==> !c.format.PackedInBand? && k < 32 && m < 256
  {
    hide TakeAll, Given, SlotsRecord, Kept, AvcRecord, ReadRecord, KindOf, AvcWrites, FirstSlots;
    FirstSlotsReached(c, j, k, m);
    KeptOfSlots(k, m);
    FirstIsSps(k);
    AvcComesBackIff(c, ReadId, Given(c, SlotsRecord(j, k, m)), Fresh(H264));
  }

  /** A record with a subset SPS behind its SPS, which goes into a slot before. */
  const SUBSET_RECORD := ListRecord([Sps(1), SubsetSps(0)], [Pps(0)])

  /** The avcC of the stores that this record fills does not come back. */
  lemma SubsetSpsBelowFails(c: Config)
    requires c.codec.H264? && 1 <= c.nl <= 4
    ensures var st := TakeAll(H264, ReadId, Given(c, SUBSET_RECORD)).stores;
      && AvcWrites(c, st)
      && var r := ReadRecord(c, ReadId, Fresh(H264), AvcRecord(c, st));
         !(r.ok && r.nl == c.nl && r.parser.stores == st)
  {
    hide ReadRecord, AvcRecord, TakeAll, KindOf, Kept;
    var turns := Given(c, SUBSET_RECORD);
    var st := TakeAll(H264, ReadId, turns).stores;
    SubsetSpsReached(c);
    KeptOfFirst(st.sps, [SubsetSps(0), Sps(1)]);
    KeptOfFirst(st.pps, [Pps(0)]);
    KindsOfUnits(0);
    assert LastLong([SubsetSps(0), Sps(1)]).Some?;
    AvcComesBackIff(c, ReadId, turns, Fresh(H264));
  }

  lemma SubsetSpsReached(c: Config)
    requires c.codec.H264?
    ensures TakeAll(H264, ReadId, Given(c, SUBSET_RECORD)).stores ==
      Stores([], Empty(32)[1 := Some(Sps(1))][0 := Some(SubsetSps(0))], Empty(256)[0 := Some(Pps(0))])
  {
    hide TakeAll, ListRecord;
    var a, b := [Sps(1), SubsetSps(0)], [Pps(0)];
    assert Pow256(1) == 256;
    assert Readable(H264, a) && Readable(H264, b);
    var cfg, log := RecordBrings(c, a, b);
    assert a + b == [Sps(1), SubsetSps(0), Pps(0)];
    SubsetSpsStored(cfg, log);
  }

  lemma SubsetSpsStored(c: Config, log: seq<Unit>)
    requires c.codec.H264? && Matches(ReadId, log, [Sps(1), SubsetSps(0), Pps(0)])
    ensures Run(c, Fresh(H264), log).stores ==
      Stores([], Empty(32)[1 := Some(Sps(1))][0 := Some(SubsetSps(0))], Empty(256)[0 := Some(Pps(0))])
  {
    hide NextHave, NextFrame, Collected;
    KindsOfUnits(0);
    KindsOfUnits(1);
    var p := Fresh(H264);
    var p1 := Process(c, p, log[0]);
    var p2 := Process(c, p1, log[1]);
    var p3 := Process(c, p2, log[2]);
    assert log[..1] == [log[0]] && log[..2][..1] == log[..1] && log[..3] == log && log[..0] == [];
    assert Run(c, p, log[..0]) == p;
    assert Run(c, p, log[..1]) == p1 by { assert log[..1][..0] == log[..0]; }
    assert Run(c, p, log[..2]) == p2;
    assert log[..3][..2] == log[..2];
    assert Run(c, p, log) == p3;
  }
}
