/** process_nal of both secure parsers: which parameter sets have been seen, what
    is stored, and where parameter sets go into the frame. The H.265 machine has
    VPS and no subset SPS; otherwise they are one. */
module NalParser {
  import opened Bytes
  import opened NalUnits

  // ---------------------------------------------------------------- the state

  datatype ParseResult = Ok | BrokenLink | Refused

  /** What the codec parser library makes of a unit: its verdict, the id of a
      parameter set, whether a slice is intra, whether an extension is MVC, and
      whether an SEI has a recovery point among the messages that could be read. */
  datatype Header = Header(result: ParseResult, id: nat, intra: bool, mvc: bool, recovery: bool)

  /** A unit as process_nal gets it; at is the offset of its start code. */
  datatype Unit = Unit(nal: Nal, header: Header, at: nat)

  /** Packed and PackedInBand are avc and avc3, or hvc1 and hev1. */
  datatype Format = Unset | ByteStream | Packed | PackedInBand

  datatype Config = Config(codec: Codec, format: Format, transform: bool, nl: nat)

  type Store = seq<Option<Nal>>

  /** The bits of the field state. */
  datatype State = State(gotSps: bool, gotPps: bool, gotSlice: bool)

  /** What has been seen for the caps, and whether parameter sets must still be
      pushed. */
  datatype Have = Have(vps: bool, sps: bool, pps: bool, pushCodec: bool)

  /** What is known of the frame being parsed. */
  datatype Flags = Flags(
    vps: bool, sps: bool, pps: bool, updateCaps: bool, header: bool, keyframe: bool, audInsert: bool)

  /** Its flags, its marked positions, and its wrapped units so far. */
  datatype Frame = Frame(flags: Flags, seiPos: int, idrPos: int, out: seq<seq<byte>>)

  datatype Stores = Stores(vps: Store, sps: Store, pps: Store)

  datatype Parser = Parser(state: State, have: Have, frame: Frame, stores: Stores)

  function VpsSlots(c: Codec): nat { if c.H264? then 0 else 16 }

  function SpsSlots(c: Codec): nat { if c.H264? then 32 else 16 }

  function PpsSlots(c: Codec): nat { if c.H264? then 256 else 64 }

  const NOTHING_SEEN := State(false, false, false)

  /** As reset_frame leaves it. */
  const NEW_FRAME := Frame(Flags(false, false, false, false, false, false, true), -1, -1, [])

  function EmptyStores(c: Codec): Stores {
    Stores(Empty(VpsSlots(c)), Empty(SpsSlots(c)), Empty(PpsSlots(c)))
  }

  function Empty(n: nat): (s: Store)
    ensures |s| == n && forall i :: 0 <= i < n ==> s[i] == None
  {
    seq(n, _ => None)
  }

  /** As start leaves it. */
  function Fresh(c: Codec): Parser {
    Parser(NOTHING_SEEN, Have(false, false, false, false), NEW_FRAME, EmptyStores(c))
  }

  /** gst_adapter_available: the bytes collected so far. */
  function Available(out: seq<seq<byte>>): nat {
    if out == [] then 0 else Available(out[..|out| - 1]) + |out[|out| - 1]|
  }

  // ------------------------------------------------------------- process_nal

  function Wrapped(c: Config, n: Nal): seq<byte> {
    if c.format.Packed? || c.format.PackedInBand? then Prefixed(n, c.nl) else [0, 0, 0, 1] + n
  }

  /** process_nal's result for a unit that is not too short. */
  predicate Accepts(s: State, k: Kind, h: Header) {
    match k
    case Sps => h.result.Ok?
    case SubsetSps => s.gotSps && h.result.Ok?
    case Pps => s.gotSps && !h.result.Refused?
    case Sei => s.gotSps
    case Slice(_) => s.gotSps && s.gotPps
    case SliceExt => s.gotSps && s.gotPps
    case Other => s.gotSps && h.result.Ok?
    case _ => h.result.Ok?
  }

  predicate IsSlice(k: Kind) {
    k.Slice? || k.SliceExt?
  }

  /** An extension slice that is not MVC is passed on unread. */
  predicate Reads(k: Kind, h: Header) {
    k.Slice? || (k.SliceExt? && h.mvc)
  }

  function NextState(s: State, k: Kind, h: Header): State {
    if k.Sps? then State(h.result.Ok?, false, false)
    else if k.Pps? then State(s.gotSps, s.gotSps && !h.result.Refused?, false)
    else if IsSlice(k) then s.(gotSlice := s.gotSps && s.gotPps && Reads(k, h) && h.result.Ok?)
    else s
  }

  /** Parameter sets in the stream cancel the pending push: a VPS or SPS when a
      PPS is there, a PPS when an SPS is. */
  function NextHave(v: Have, k: Kind): Have {
    if k.Vps? then
      if v.pushCodec && v.pps then Have(false, false, false, false) else v.(vps := true)
    else if k.Sps? || k.SubsetSps? then
      if v.pushCodec && v.pps then Have(v.vps, false, false, false) else v.(sps := true)
    else if k.Pps? then
      if v.pushCodec && v.sps then Have(v.vps, false, false, false) else v.(pps := true)
    else v
  }

  function Position(c: Config, f: Frame, at: nat): int {
    if c.transform then Available(f.out) else at
  }

  /** A slice after which parameter sets may have to go in. */
  predicate Marks(k: Kind, h: Header, pushCodec: bool) {
    Reads(k, h) && (pushCodec || (k.Slice? && k.randomAccess))
  }

  function IdrPosition(c: Config, f: Frame, at: nat): int {
    var idr := if f.idrPos == -1 then Position(c, f, at) else f.idrPos;
    if f.seiPos >= 0 && idr > f.seiPos then f.seiPos else idr
  }

  /** What makes the frame a key frame: an intra slice that was decoded, or an SEI
      with a recovery point. */
  predicate KeyUnit(k: Kind, h: Header) {
    (Reads(k, h) && h.result.Ok? && h.intra) || (k.Sei? && h.recovery)
  }

  function NextFlags(c: Config, f: Flags, v: Have, k: Kind, h: Header): Flags {
    var sps := k.Sps? || k.SubsetSps?;
    Flags(
      f.vps || k.Vps?, f.sps || sps, f.pps || k.Pps?,
      f.updateCaps || k.Vps? || sps || (k.Pps? && !v.pps),
      f.header || k.Vps? || sps || k.Pps? || k.Sei?,
      f.keyframe || KeyUnit(k, h),
      f.audInsert && !(k.Aud? && c.codec.H264?))
  }

  /** Which flags units without parameters move. */
  lemma FewFlags(c: Config, f: Flags, v: Have, k: Kind, h: Header)
    ensures k.Sei? ==>
      NextFlags(c, f, v, k, h) == f.(header := true, keyframe := f.keyframe || h.recovery)
    ensures IsSlice(k) ==>
      NextFlags(c, f, v, k, h) == if Reads(k, h) && h.result.Ok? && h.intra then f.(keyframe := true) else f
    ensures k.Aud? ==> NextFlags(c, f, v, k, h) == if c.codec.H264? then f.(audInsert := false) else f
    ensures k.Other? ==> NextFlags(c, f, v, k, h) == f
  {}

  lemma NoParameters(v: Have, s: Stores, k: Kind, id: nat, n: Nal)
    ensures k.Sei? || IsSlice(k) || k.Aud? || k.Other? ==> NextHave(v, k) == v && NextStores(s, k, id, n) == s
  {}

  function NextFrame(c: Config, f: Frame, v: Have, k: Kind, h: Header, at: nat): Frame {
    Frame(
      NextFlags(c, f.flags, v, k, h),
      if k.Sei? && f.seiPos == -1 then Position(c, f, at) else f.seiPos,
      if Marks(k, h, v.pushCodec) then IdrPosition(c, f, at) else f.idrPos,
      f.out)
  }

  /** Parameter sets move flags alone. */
  lemma ParameterFrame(c: Config, f: Frame, v: Have, k: Kind, h: Header, at: nat)
    ensures k.Vps? || k.Sps? || k.SubsetSps? || k.Pps? ==>
      NextFrame(c, f, v, k, h, at) == f.(flags := NextFlags(c, f.flags, v, k, h))
  {
    MarksASlice(k, h, v.pushCodec);
    hide NextFlags, Marks, Reads, IdrPosition, Position;
  }

  lemma ParameterFlags(c: Config, f: Flags, v: Have, k: Kind, h: Header)
    requires k.Vps? || k.Sps? || k.SubsetSps? || k.Pps?
    ensures NextFlags(c, f, v, k, h) ==
      Flags(f.vps || k.Vps?, f.sps || k.Sps? || k.SubsetSps?, f.pps || k.Pps?,
            f.updateCaps || !k.Pps? || !v.pps, true, f.keyframe, f.audInsert)
  {
    MarksASlice(k, h, v.pushCodec);
    hide Reads;
  }

  function Collected(c: Config, f: Frame, n: Nal): Frame {
    if c.transform then f.(out := f.out + [Wrapped(c, n)]) else f
  }

  function Put(s: Store, id: nat, n: Nal): (r: Store)
    ensures |r| == |s|
  {
    if id < |s| then s[id := Some(n)] else s
  }

  function NextStores(s: Stores, k: Kind, id: nat, n: Nal): Stores {
    if k.Vps? then s.(vps := Put(s.vps, id, n))
    else if k.Sps? || k.SubsetSps? then s.(sps := Put(s.sps, id, n))
    else if k.Pps? then s.(pps := Put(s.pps, id, n))
    else s
  }

  /** The state that process_nal leaves. A refused unit changes the bits alone, a
      too short one nothing. */
  function Process(c: Config, p: Parser, u: Unit): Parser {
    var k := KindOf(c.codec, u.nal);
    if k.TooShort? then p
    else if !Accepts(p.state, k, u.header) then p.(state := NextState(p.state, k, u.header))
    else Parser(
      NextState(p.state, k, u.header),
      NextHave(p.have, k),
      Collected(c, NextFrame(c, p.frame, p.have, k, u.header, u.at), u.nal),
      NextStores(p.stores, k, u.header.id, u.nal))
  }

  /** process_nal's result. */
  predicate Result(c: Config, s: State, u: Unit) {
    var k := KindOf(c.codec, u.nal);
    k.TooShort? || Accepts(s, k, u.header)
  }

  function Run(c: Config, p: Parser, log: seq<Unit>): Parser {
    if log == [] then p else Process(c, Run(c, p, log[..|log| - 1]), log[|log| - 1])
  }

  // ------------------------------------------------- the state bits as history

  datatype Class = SpsClass | PpsClass | SliceClass

  predicate Is(c: Codec, u: Unit, k: Class) {
    match k
    case SpsClass => IsSps(c, u.nal)
    case PpsClass => IsPps(c, u.nal)
    case SliceClass => IsPlainSlice(c, u.nal) || IsSliceExtension(c, u.nal)
  }

  /** Where the last unit of a class stands in the log, or -1. */
  function Last(c: Codec, log: seq<Unit>, k: Class): (i: int)
    ensures -1 <= i < |log|
    ensures i >= 0 ==> Is(c, log[i], k)
    ensures forall j :: i < j < |log| ==> !Is(c, log[j], k)
  {
    if log == [] then -1
    else if Is(c, log[|log| - 1], k) then |log| - 1
    else Last(c, log[..|log| - 1], k)
  }

  predicate SpsSeen(c: Codec, log: seq<Unit>) {
    var i := Last(c, log, SpsClass);
    i >= 0 && log[i].header.result.Ok?
  }

  predicate PpsSeen(c: Codec, log: seq<Unit>) {
    var j := Last(c, log, PpsClass);
    SpsSeen(c, log) && Last(c, log, SpsClass) < j && !log[j].header.result.Refused?
  }

  predicate SliceSeen(c: Codec, log: seq<Unit>) {
    var k := Last(c, log, SliceClass);
    PpsSeen(c, log) && Last(c, log, PpsClass) < k && log[k].header.result.Ok?
    && (IsSliceExtension(c, log[k].nal) ==> log[k].header.mvc)
  }

  function History(c: Codec, log: seq<Unit>): State {
    State(SpsSeen(c, log), PpsSeen(c, log), SliceSeen(c, log))
  }

  /** Main result, history: over every sequence of units the three bits say
      whether the last SPS was accepted, the last PPS after it was accepted, and
      the last slice after that was decoded. A subset SPS never changes them. */
  lemma {:induction false} BitsAreHistory(c: Config, p: Parser, log: seq<Unit>)
    requires p.state == NOTHING_SEEN
    ensures Run(c, p, log).state == History(c.codec, log)
  {
    if log != [] {
      var front, u := log[..|log| - 1], log[|log| - 1];
      BitsAreHistory(c, p, front);
      assert front + [u] == log;
      HistoryOneMore(c.codec, front, u);
    }
  }

  lemma HistoryOneMore(c: Codec, front: seq<Unit>, u: Unit)
    ensures History(c, front + [u]) ==
      if KindOf(c, u.nal).TooShort? then History(c, front)
      else NextState(History(c, front), KindOf(c, u.nal), u.header)
  {
    LastOneMore(c, front, u, SpsClass);
    LastOneMore(c, front, u, PpsClass);
    LastOneMore(c, front, u, SliceClass);
    KindByType(c, u.nal);
    hide Last, KindOf, IsSps, IsPps, IsPlainSlice, IsSliceExtension, IsVps, IsSubsetSps, IsSei, IsAud, IsRandomAccess;
  }

  lemma LastOneMore(c: Codec, front: seq<Unit>, u: Unit, k: Class)
    ensures Last(c, front + [u], k) == if Is(c, u, k) then |front| else Last(c, front, k)
  {
    assert (front + [u])[..|front|] == front;
  }

  /** What is accepted, by type: a slice exactly when the last SPS was and the last PPS
      after it was; a PPS exactly when the last SPS was and it is not refused itself; an
      SEI when the last SPS was; a VPS, an SPS and a delimiter when they parse; a subset
      SPS and whatever else when they parse behind such an SPS. A unit too short for a
      type passes. */
  lemma AcceptedIff(c: Config, p: Parser, log: seq<Unit>, u: Unit)
    requires p.state == NOTHING_SEEN
    ensures var ok, n, h := Result(c, Run(c, p, log).state, u), u.nal, u.header;
      ok <==>
        if |n| < 2 then true
        else if IsPlainSlice(c.codec, n) || IsSliceExtension(c.codec, n) then PpsSeen(c.codec, log)
        else if IsPps(c.codec, n) then SpsSeen(c.codec, log) && !h.result.Refused?
        else if IsSei(c.codec, n) then SpsSeen(c.codec, log)
        else if IsVps(c.codec, n) || IsSps(c.codec, n) || IsAud(c.codec, n) then h.result.Ok?
        else SpsSeen(c.codec, log) && h.result.Ok?
  {
    BitsAreHistory(c, p, log);
    KindByType(c.codec, u.nal);
    hide KindOf, Run, IsSps, IsPps, IsPlainSlice, IsSliceExtension, IsVps, IsSubsetSps, IsSei, IsAud, IsRandomAccess,
      SpsSeen, PpsSeen, SliceSeen;
  }

  // ------------------------------------------------- the frame and its marks

  /** An accepted unit of the frame: whether it is SEI, whether parameter sets may have
      to go in before it, and the offset of its start code. */
  datatype Piece = Piece(nal: Nal, sei: bool, mark: bool, at: nat)

  function PieceOf(c: Config, p: Parser, u: Unit): seq<Piece> {
    var k := KindOf(c.codec, u.nal);
    if k.TooShort? || !Accepts(p.state, k, u.header) then []
    else [Piece(u.nal, k.Sei?, Marks(k, u.header, p.have.pushCodec), u.at)]
  }

  /** Which accepted units are marked, by type: random access points, and while a push is
      pending every slice that is read. */
  lemma PieceByType(c: Config, p: Parser, u: Unit)
    ensures PieceOf(c, p, u) ==
      if |u.nal| < 2 || !Result(c, p.state, u) then []
      else [Piece(u.nal, IsSei(c.codec, u.nal),
                  || IsRandomAccess(c.codec, u.nal)
                  || (p.have.pushCodec && (IsPlainSlice(c.codec, u.nal)
                                           || (IsSliceExtension(c.codec, u.nal) && u.header.mvc))), u.at)]
  {
    KindByType(c.codec, u.nal);
    hide KindOf, Accepts, IsSei, IsRandomAccess, IsPlainSlice, IsSliceExtension;
  }

  /** The accepted units of a log, in order. */
  function Pieces(c: Config, p: Parser, log: seq<Unit>): seq<Piece> {
    if log == [] then [] else
      var front := log[..|log| - 1];
      Pieces(c, p, front) + PieceOf(c, Run(c, p, front), log[|log| - 1])
  }

  function FirstSei(ps: seq<Piece>): (i: int)
    ensures -1 <= i < |ps|
    ensures if i < 0 then forall j :: 0 <= j < |ps| ==> !ps[j].sei else ps[i].sei
    ensures forall j :: 0 <= j < i ==> !ps[j].sei
  {
    if ps == [] then -1 else
      var i := FirstSei(ps[..|ps| - 1]);
      if i < 0 && ps[|ps| - 1].sei then |ps| - 1 else i
  }

  function FirstMark(ps: seq<Piece>): (i: int)
    ensures -1 <= i < |ps|
    ensures if i < 0 then forall j :: 0 <= j < |ps| ==> !ps[j].mark else ps[i].mark
    ensures forall j :: 0 <= j < i ==> !ps[j].mark
  {
    if ps == [] then -1 else
      var i := FirstMark(ps[..|ps| - 1]);
      if i < 0 && ps[|ps| - 1].mark then |ps| - 1 else i
  }

  /** Parameter sets go in before the first marked slice, or before the SEI if
      that comes first. */
  function Insertion(ps: seq<Piece>): (i: int)
    ensures -1 <= i < |ps|
  {
    var m, e := FirstMark(ps), FirstSei(ps);
    if 0 <= e < m then e else m
  }

  function Outs(c: Config, ps: seq<Piece>): (out: seq<seq<byte>>)
    ensures |out| == |ps|
  {
    if ps == [] then [] else Outs(c, ps[..|ps| - 1]) + [Wrapped(c, ps[|ps| - 1].nal)]
  }

  function Offset(c: Config, ps: seq<Piece>, i: int): int
    requires i <= |ps|
  {
    if i < 0 then -1 else Available(Outs(c, ps[..i]))
  }

  ghost predicate FrameIs(c: Config, f: Frame, ps: seq<Piece>) {
    && f.out == Outs(c, ps)
    && f.seiPos == Offset(c, ps, FirstSei(ps))
    && f.idrPos == Offset(c, ps, Insertion(ps))
  }

  /** Main result, positions: in transform mode sei_pos and idr_pos are the offsets
      of the first SEI and of the insertion point among the collected units. */
  lemma {:induction false} PositionsExact(c: Config, p: Parser, log: seq<Unit>)
    requires c.transform && p.frame == NEW_FRAME
    ensures FrameIs(c, Run(c, p, log).frame, Pieces(c, p, log))
  {
    if log != [] {
      var front, u := log[..|log| - 1], log[|log| - 1];
      PositionsExact(c, p, front);
      var before, ps := Run(c, p, front), Pieces(c, p, front);
      var k := KindOf(c.codec, u.nal);
      if k.TooShort? || !Accepts(before.state, k, u.header) {
        assert ps + [] == ps;
      } else {
        FrameStep(c, before, ps, u);
      }
    }
  }

  lemma FrameStep(c: Config, p: Parser, ps: seq<Piece>, u: Unit)
    requires c.transform && FrameIs(c, p.frame, ps)
    requires !KindOf(c.codec, u.nal).TooShort? && Accepts(p.state, KindOf(c.codec, u.nal), u.header)
    ensures FrameIs(c, Process(c, p, u).frame, ps + PieceOf(c, p, u))
  {
    var k := KindOf(c.codec, u.nal);
    var x := Piece(u.nal, k.Sei?, Marks(k, u.header, p.have.pushCodec), u.at);
    assert (ps + [x])[..|ps|] == ps;
    hide KindOf, Accepts, NextState, NextHave, NextStores, NextFlags, Marks, Offset, Insertion, FirstSei, FirstMark;
    SeiMoves(c, p.frame, ps, x);
    IdrMoves(c, p.frame, ps, x, u.at);
  }

  function LastMark(ps: seq<Piece>): (i: int)
    ensures -1 <= i < |ps|
    ensures if i < 0 then forall j :: 0 <= j < |ps| ==> !ps[j].mark else ps[i].mark
    ensures forall j :: i < j < |ps| ==> !ps[j].mark
  {
    if ps == [] then -1 else if ps[|ps| - 1].mark then |ps| - 1 else LastMark(ps[..|ps| - 1])
  }

  /** The first SEI's start code, and the first marked slice's; but the SEI's, when that
      one is further on and a marked slice has come behind the SEI. */
  ghost predicate MarksInPlace(f: Frame, ps: seq<Piece>) {
    var e, m := FirstSei(ps), FirstMark(ps);
    && f.out == []
    && f.seiPos == (if e < 0 then -1 else ps[e].at)
    && f.idrPos == (if m < 0 then -1 else if 0 <= e < LastMark(ps) && ps[m].at > ps[e].at then ps[e].at else ps[m].at)
  }

  /** Without a transformation nothing is collected, and the positions are offsets of
      start codes. */
  lemma {:induction false} PositionsInPlace(c: Config, p: Parser, log: seq<Unit>)
    requires !c.transform && p.frame == NEW_FRAME
    ensures MarksInPlace(Run(c, p, log).frame, Pieces(c, p, log))
  {
    if log != [] {
      var front, u := log[..|log| - 1], log[|log| - 1];
      PositionsInPlace(c, p, front);
      hide MarksInPlace;
      InPlaceStep(c, Run(c, p, front), Pieces(c, p, front), u);
    }
  }

  lemma InPlaceStep(c: Config, p: Parser, ps: seq<Piece>, u: Unit)
    requires !c.transform && MarksInPlace(p.frame, ps)
    ensures MarksInPlace(Process(c, p, u).frame, ps + PieceOf(c, p, u))
  {
    var k := KindOf(c.codec, u.nal);
    hide KindOf, Accepts, NextState, NextHave, NextStores, NextFlags, Marks;
    if k.TooShort? || !Accepts(p.state, k, u.header) {
      assert ps + [] == ps;
    } else {
      var x := Piece(u.nal, k.Sei?, Marks(k, u.header, p.have.pushCodec), u.at);
      MarksASlice(k, u.header, p.have.pushCodec);
      FirstOneMore(ps, x);
      assert (ps + [x])[..|ps|] == ps;
      assert LastMark(ps + [x]) == if x.mark then |ps| else LastMark(ps);
      hide FirstSei, FirstMark, LastMark;
    }
  }

  lemma MarksASlice(k: Kind, h: Header, pushCodec: bool)
    ensures Marks(k, h, pushCodec) ==> IsSlice(k)
    ensures Reads(k, h) ==> IsSlice(k)
  {}

  lemma SeiMoves(c: Config, f: Frame, ps: seq<Piece>, x: Piece)
    requires FrameIs(c, f, ps)
    ensures Offset(c, ps + [x], FirstSei(ps + [x])) ==
      if x.sei && f.seiPos == -1 then Available(f.out) else f.seiPos
  {
    FirstOneMore(ps, x);
    OffsetStays(c, ps, x, FirstSei(ps));
    OffsetOfEnd(c, ps, x);
  }

  lemma IdrMoves(c: Config, f: Frame, ps: seq<Piece>, x: Piece, at: nat)
    requires c.transform && FrameIs(c, f, ps) && !(x.sei && x.mark)
    ensures Offset(c, ps + [x], Insertion(ps + [x])) ==
      if x.mark then IdrPosition(c, f, at) else f.idrPos
  {
    hide Offset, FirstSei, FirstMark, Available, Outs;
    var e, m := FirstSei(ps), FirstMark(ps);
    FirstOneMore(ps, x);
    OffsetSign(c, ps, e);
    OffsetSign(c, ps, m);
    OffsetStays(c, ps, x, e);
    OffsetStays(c, ps, x, m);
    OffsetOfEnd(c, ps, x);
    OffsetsOrdered(c, ps, e, m);
    OffsetsOrdered(c, ps, m, e);
    OffsetsOrdered(c, ps + [x], e, |ps|);
  }

  lemma OffsetSign(c: Config, ps: seq<Piece>, i: int)
    requires i <= |ps|
    ensures if i < 0 then Offset(c, ps, i) == -1 else Offset(c, ps, i) >= 0
  {}

  lemma OffsetOfEnd(c: Config, ps: seq<Piece>, x: Piece)
    ensures Offset(c, ps + [x], |ps|) == Available(Outs(c, ps))
  {
    assert (ps + [x])[..|ps|] == ps;
  }

  lemma FirstOneMore(ps: seq<Piece>, x: Piece)
    ensures FirstSei(ps + [x]) == if FirstSei(ps) < 0 && x.sei then |ps| else FirstSei(ps)
    ensures FirstMark(ps + [x]) == if FirstMark(ps) < 0 && x.mark then |ps| else FirstMark(ps)
  {
    assert (ps + [x])[..|ps|] == ps;
  }

  lemma OffsetStays(c: Config, ps: seq<Piece>, x: Piece, i: int)
    requires i <= |ps|
    ensures Offset(c, ps + [x], i) == Offset(c, ps, i)
  {
    if i >= 0 { assert (ps + [x])[..i] == ps[..i]; }
  }

  /** Offsets grow with the index: every wrapped unit has bytes. */
  lemma {:induction false} OffsetsOrdered(c: Config, ps: seq<Piece>, i: int, j: int)
    requires i <= |ps| && j <= |ps|
    ensures Offset(c, ps, i) >= -1 && (i < j && (i >= 0 || j >= 0) ==> Offset(c, ps, i) <= Offset(c, ps, j))
    decreases j
  {
    if 0 <= i < j {
      assert ps[..j][..j - 1] == ps[..j - 1];
      OffsetsOrdered(c, ps, i, j - 1);
    }
  }

  /** The bytes of the frame: the collected buffers put together. */
  function Concat(out: seq<seq<byte>>): (r: seq<byte>)
    ensures |r| == Available(out)
  {
    if out == [] then [] else Concat(out[..|out| - 1]) + out[|out| - 1]
  }

  function Nals(ps: seq<Piece>): (r: seq<Nal>)
    ensures |r| == |ps| && forall i :: 0 <= i < |ps| ==> r[i] == ps[i].nal
  {
    seq(|ps|, i requires 0 <= i < |ps| => ps[i].nal)
  }

  predicate LengthFormat(c: Config) {
    c.nl > 0 && (c.format.Packed? || c.format.PackedInBand?)
  }

  lemma {:induction false} ConcatFramed(c: Config, ps: seq<Piece>)
    requires LengthFormat(c)
    ensures Concat(Outs(c, ps)) == Framed(Nals(ps), c.nl)
  {
    if ps != [] {
      ConcatFramed(c, ps[..|ps| - 1]);
      assert Nals(ps)[..|ps| - 1] == Nals(ps[..|ps| - 1]);
    }
  }

  /** The frame reads back as its accepted units, if and only if their sizes fit
      the length prefix. */
  lemma FrameReadsBack(c: Config, p: Parser, log: seq<Unit>)
    requires c.transform && LengthFormat(c) && p.frame == NEW_FRAME
    ensures var nals := Nals(Pieces(c, p, log));
      ReadAll(Concat(Run(c, p, log).frame.out), 0, c.nl) == Some(nals) <==> FitPrefix(nals, c.nl)
  {
    PositionsExact(c, p, log);
    ConcatFramed(c, Pieces(c, p, log));
    FramingRoundTrip(Nals(Pieces(c, p, log)), c.nl);
  }

  /** A marked position is -1, or it cuts the frame between two units. */
  lemma PositionsCut(c: Config, p: Parser, log: seq<Unit>)
    requires c.transform && LengthFormat(c) && p.frame == NEW_FRAME
    requires FitPrefix(Nals(Pieces(c, p, log)), c.nl)
    ensures var f, ps := Run(c, p, log).frame, Pieces(c, p, log);
      var data := Concat(f.out);
      && (if Insertion(ps) < 0 then f.idrPos == -1
          else 0 <= f.idrPos <= |data| && ReadAll(data, f.idrPos, c.nl) == Some(Nals(ps[Insertion(ps)..])))
      && (if FirstSei(ps) < 0 then f.seiPos == -1
          else 0 <= f.seiPos <= |data| && ReadAll(data, f.seiPos, c.nl) == Some(Nals(ps[FirstSei(ps)..])))
      && (f.idrPos >= 0 && f.seiPos >= 0 ==> f.idrPos <= f.seiPos)
  {
    hide Run, Pieces, Insertion, FirstSei, Offset, Outs, Nals, Concat, ReadAll, LengthFormat, FitPrefix;
    var ps := Pieces(c, p, log);
    PositionsExact(c, p, log);
    CutAt(c, ps, Insertion(ps));
    CutAt(c, ps, FirstSei(ps));
    InsertionNotAfterSei(ps);
    OffsetSign(c, ps, Insertion(ps));
    OffsetSign(c, ps, FirstSei(ps));
    OffsetsOrdered(c, ps, Insertion(ps), FirstSei(ps));
  }

  lemma InsertionNotAfterSei(ps: seq<Piece>)
    ensures FirstSei(ps) >= 0 ==> Insertion(ps) <= FirstSei(ps)
  {}

  lemma CutAt(c: Config, ps: seq<Piece>, i: int)
    requires LengthFormat(c) && i < |ps| && FitPrefix(Nals(ps), c.nl)
    ensures i < 0 ==> Offset(c, ps, i) == -1
    ensures i >= 0 ==>
      && 0 <= Offset(c, ps, i) <= |Concat(Outs(c, ps))|
      && ReadAll(Concat(Outs(c, ps)), Offset(c, ps, i), c.nl) == Some(Nals(ps[i..]))
  {
    hide *;
    OffsetSign(c, ps, i);
    if i >= 0 {
      RestFramed(c, ps, i);
      RestFits(ps, i, c.nl);
      FormatHasLength(c);
      ReadAllFramed(Concat(Outs(c, ps)), Offset(c, ps, i), Nals(ps[i..]), c.nl);
    }
  }

  lemma FormatHasLength(c: Config)
    ensures LengthFormat(c) ==> c.nl > 0
  {}

  lemma RestFits(ps: seq<Piece>, i: nat, nl: nat)
    requires i <= |ps| && FitPrefix(Nals(ps), nl)
    ensures FitPrefix(Nals(ps[i..]), nl)
  {}

  lemma RestFramed(c: Config, ps: seq<Piece>, i: nat)
    requires LengthFormat(c) && i <= |ps|
    ensures 0 <= Offset(c, ps, i) <= |Concat(Outs(c, ps))|
    ensures Concat(Outs(c, ps))[Offset(c, ps, i)..] == Framed(Nals(ps[i..]), c.nl)
  {
    hide *;
    ConcatFramed(c, ps);
    ConcatFramed(c, ps[..i]);
    OffsetIsLength(c, ps, i);
    FramedSplit(Nals(ps), i, c.nl);
    NalsCut(ps, i);
  }

  lemma OffsetIsLength(c: Config, ps: seq<Piece>, i: nat)
    requires i <= |ps|
    ensures Offset(c, ps, i) == |Concat(Outs(c, ps[..i]))|
  {}

  lemma NalsCut(ps: seq<Piece>, i: nat)
    requires i <= |ps|
    ensures Nals(ps)[..i] == Nals(ps[..i]) && Nals(ps)[i..] == Nals(ps[i..])
  {}

  // --------------------------------------------------------------- the stores

  /** The store a unit of that kind goes to. */
  datatype Shelf = VpsShelf | SpsShelf | PpsShelf

  function On(s: Stores, shelf: Shelf): Store {
    match shelf
    case VpsShelf => s.vps
    case SpsShelf => s.sps
    case PpsShelf => s.pps
  }

  predicate Belongs(k: Kind, shelf: Shelf) {
    match shelf
    case VpsShelf => k.Vps?
    case SpsShelf => k.Sps? || k.SubsetSps?
    case PpsShelf => k.Pps?
  }

  /** The last accepted unit of the log that belongs there and has that id. */
  function LastStored(c: Config, p: Parser, log: seq<Unit>, shelf: Shelf, id: nat): Option<Nal> {
    if log == [] then None else
      var front, u := log[..|log| - 1], log[|log| - 1];
      if Belongs(KindOf(c.codec, u.nal), shelf) && Result(c, Run(c, p, front).state, u) && u.header.id == id
      then Some(u.nal)
      else LastStored(c, p, front, shelf, id)
  }

  /** Main result, stores: after any sequence of units each slot holds the last
      accepted unit with its id, or what it held before. */
  lemma {:induction false} StoresAreHistory(c: Config, p: Parser, log: seq<Unit>, shelf: Shelf, id: nat)
    requires id < |On(p.stores, shelf)|
    ensures id < |On(Run(c, p, log).stores, shelf)|
    ensures On(Run(c, p, log).stores, shelf)[id] ==
      if LastStored(c, p, log, shelf, id).Some? then LastStored(c, p, log, shelf, id) else On(p.stores, shelf)[id]
  {
    if log != [] {
      var front, u := log[..|log| - 1], log[|log| - 1];
      StoresAreHistory(c, p, front, shelf, id);
      StoreStep(c, Run(c, p, front), u, shelf, id);
    }
  }

  lemma StoreStep(c: Config, p: Parser, u: Unit, shelf: Shelf, id: nat)
    requires id < |On(p.stores, shelf)|
    ensures |On(Process(c, p, u).stores, shelf)| == |On(p.stores, shelf)|
    ensures On(Process(c, p, u).stores, shelf)[id] ==
      if Belongs(KindOf(c.codec, u.nal), shelf) && Result(c, p.state, u) && u.header.id == id then Some(u.nal)
      else On(p.stores, shelf)[id]
  {
    hide KindOf, Accepts, NextState, NextHave, NextFrame, Collected;
  }

  // ----------------------------------------------------- the flags as history

  datatype What = AnyVps | AnySps | AnyPps | AnyHeader | AnyKeyUnit | AnyAud

  predicate IsA(c: Codec, u: Unit, what: What) {
    var n, h := u.nal, u.header;
    match what
    case AnyVps => IsVps(c, n)
    case AnySps => IsSps(c, n) || IsSubsetSps(c, n)
    case AnyPps => IsPps(c, n)
    case AnyHeader => IsVps(c, n) || IsSps(c, n) || IsSubsetSps(c, n) || IsPps(c, n) || IsSei(c, n)
    case AnyKeyUnit =>
      || ((IsPlainSlice(c, n) || (IsSliceExtension(c, n) && h.mvc)) && h.result.Ok? && h.intra)
      || (IsSei(c, n) && h.recovery)
    case AnyAud => IsAud(c, n)
  }

  /** The unit, coming in state s, is accepted and is what is asked for. */
  predicate Shows(c: Config, s: State, u: Unit, what: What) {
    |u.nal| >= 2 && Result(c, s, u) && IsA(c.codec, u, what)
  }

  /** The same by the kind of the unit. */
  predicate ShowsKind(k: Kind, h: Header, what: What) {
    match what
    case AnyVps => k.Vps?
    case AnySps => k.Sps? || k.SubsetSps?
    case AnyPps => k.Pps?
    case AnyHeader => k.Vps? || k.Sps? || k.SubsetSps? || k.Pps? || k.Sei?
    case AnyKeyUnit => KeyUnit(k, h)
    case AnyAud => k.Aud?
  }

  lemma ShowsByKind(c: Config, s: State, u: Unit, what: What)
    ensures var k := KindOf(c.codec, u.nal);
      Shows(c, s, u, what) <==> !k.TooShort? && Accepts(s, k, u.header) && ShowsKind(k, u.header, what)
  {
    KindByType(c.codec, u.nal);
    hide KindOf, Accepts, IsVps, IsSps, IsSubsetSps, IsPps, IsSei, IsAud, IsPlainSlice, IsSliceExtension;
  }

  /** Some unit of the log is. */
  predicate Shown(c: Config, p: Parser, log: seq<Unit>, what: What) {
    log != [] &&
    (Shown(c, p, log[..|log| - 1], what) || Shows(c, Run(c, p, log[..|log| - 1]).state, log[|log| - 1], what))
  }

  /** The flags of a frame say which accepted units it has had. */
  lemma {:induction false} FlagsAreHistory(c: Config, p: Parser, log: seq<Unit>)
    requires p.frame == NEW_FRAME
    ensures var f := Run(c, p, log).frame.flags;
      && f.vps == Shown(c, p, log, AnyVps) && f.sps == Shown(c, p, log, AnySps) && f.pps == Shown(c, p, log, AnyPps)
      && f.header == Shown(c, p, log, AnyHeader) && f.keyframe == Shown(c, p, log, AnyKeyUnit)
      && f.audInsert == !(c.codec.H264? && Shown(c, p, log, AnyAud))
      && (f.updateCaps ==> f.vps || f.sps || f.pps)
  {
    if log != [] {
      FlagsAreHistory(c, p, log[..|log| - 1]);
      FlagsStep(c, Run(c, p, log[..|log| - 1]), log[|log| - 1]);
    }
  }

  lemma FlagsStep(c: Config, p: Parser, u: Unit)
    ensures var f, g := p.frame.flags, Process(c, p, u).frame.flags;
      && g.vps == (f.vps || Shows(c, p.state, u, AnyVps)) && g.sps == (f.sps || Shows(c, p.state, u, AnySps))
      && g.pps == (f.pps || Shows(c, p.state, u, AnyPps)) && g.header == (f.header || Shows(c, p.state, u, AnyHeader))
      && g.keyframe == (f.keyframe || Shows(c, p.state, u, AnyKeyUnit))
      && g.audInsert == (f.audInsert && !(c.codec.H264? && Shows(c, p.state, u, AnyAud)))
      && (g.updateCaps ==> f.updateCaps || g.vps || g.sps || g.pps)
  {
    hide KindOf, Accepts, Process, Reads, Shows, KeyUnit;
    ProcessFlags(c, p, u);
    forall what: What ensures Shows(c, p.state, u, what) <==>
      !KindOf(c.codec, u.nal).TooShort? && Accepts(p.state, KindOf(c.codec, u.nal), u.header)
      && ShowsKind(KindOf(c.codec, u.nal), u.header, what)
    {
      ShowsByKind(c, p.state, u, what);
    }
  }

  lemma ProcessFlags(c: Config, p: Parser, u: Unit)
    ensures var k := KindOf(c.codec, u.nal);
      Process(c, p, u).frame.flags ==
        if !k.TooShort? && Accepts(p.state, k, u.header) then NextFlags(c, p.frame.flags, p.have, k, u.header)
        else p.frame.flags
  {
    hide KindOf, Accepts, NextState, NextHave, NextStores, NextFlags, Position, IdrPosition, Marks, Wrapped;
  }

  /** With no push pending, as whenever a record is read: what has been seen for the
      caps, and when new caps are asked for. */
  lemma {:induction false} CapsAreHistory(c: Config, p: Parser, log: seq<Unit>)
    requires !p.have.pushCodec
    ensures var v, f := Run(c, p, log).have, Run(c, p, log).frame.flags;
      && !v.pushCodec && v.vps == (p.have.vps || Shown(c, p, log, AnyVps))
      && v.sps == (p.have.sps || Shown(c, p, log, AnySps)) && v.pps == (p.have.pps || Shown(c, p, log, AnyPps))
      && f.updateCaps == (p.frame.flags.updateCaps || Shown(c, p, log, AnyVps) || Shown(c, p, log, AnySps)
                          || (Shown(c, p, log, AnyPps) && !p.have.pps))
  {
    if log != [] {
      CapsAreHistory(c, p, log[..|log| - 1]);
      CapsStep(c, Run(c, p, log[..|log| - 1]), log[|log| - 1]);
    }
  }

  lemma CapsStep(c: Config, p: Parser, u: Unit)
    requires !p.have.pushCodec
    ensures var v, w, f, g := p.have, Process(c, p, u).have, p.frame.flags, Process(c, p, u).frame.flags;
      var vps, sps, pps := Shows(c, p.state, u, AnyVps), Shows(c, p.state, u, AnySps), Shows(c, p.state, u, AnyPps);
      && w == Have(v.vps || vps, v.sps || sps, v.pps || pps, false)
      && g.updateCaps == (f.updateCaps || vps || sps || (pps && !v.pps))
  {
    ShowsByKind(c, p.state, u, AnyVps);
    ShowsByKind(c, p.state, u, AnySps);
    ShowsByKind(c, p.state, u, AnyPps);
    ProcessFlags(c, p, u);
    hide KindOf, Accepts, NextState, NextFrame, NextStores, Collected, Shows, KeyUnit;
  }

  /** A VPS has come after a PPS. */
  predicate LateVps(c: Config, p: Parser, log: seq<Unit>) {
    log != [] &&
    var front := log[..|log| - 1];
    (LateVps(c, p, front) || (Shown(c, p, front, AnyPps) && Shows(c, Run(c, p, front).state, log[|log| - 1], AnyVps)))
  }

  /** A pending push is called off exactly when the stream has brought an SPS and a
      PPS, in either order, or a VPS behind a PPS. */
  lemma {:induction false} PushCalledOffIff(c: Config, p: Parser, log: seq<Unit>)
    requires p.have == Have(false, false, false, true)
    ensures Run(c, p, log).have.pushCodec <==>
      !(Shown(c, p, log, AnySps) && Shown(c, p, log, AnyPps)) && !LateVps(c, p, log)
    ensures var v := Run(c, p, log).have;
      v.pushCodec ==> v.sps == Shown(c, p, log, AnySps) && v.pps == Shown(c, p, log, AnyPps)
  {
    if log != [] {
      PushCalledOffIff(c, p, log[..|log| - 1]);
      HaveStep(c, Run(c, p, log[..|log| - 1]), log[|log| - 1]);
    }
  }

  lemma HaveStep(c: Config, p: Parser, u: Unit)
    ensures var v, w := p.have, Process(c, p, u).have;
      var vps, sps, pps := Shows(c, p.state, u, AnyVps), Shows(c, p.state, u, AnySps), Shows(c, p.state, u, AnyPps);
      && w.pushCodec == (v.pushCodec && !((vps || sps) && v.pps) && !(pps && v.sps))
      && (w.pushCodec ==> w.sps == (v.sps || sps) && w.pps == (v.pps || pps))
  {
    hide KindOf, Accepts, NextState, NextFrame, NextStores, Collected, Shows;
    ShowsByKind(c, p.state, u, AnyVps);
    ShowsByKind(c, p.state, u, AnySps);
    ShowsByKind(c, p.state, u, AnyPps);
  }

  /** Calling the push off forgets what was seen for the caps; a VPS seen before stays
      known, unless a VPS called it off. */
  lemma CallOffForgets(c: Config, p: Parser, u: Unit)
    requires p.have.pushCodec && !Process(c, p, u).have.pushCodec
    ensures Process(c, p, u).have == Have(p.have.vps && !IsVps(c.codec, u.nal), false, false, false)
  {
    KindByType(c.codec, u.nal);
    hide KindOf, Accepts, NextState, NextFrame, NextStores, Collected, IsVps;
  }

  // ----------------------------------------------------- the parser in place

  /** GstH264SecParse and GstH265SecParse, as far as process_nal goes. The flags
      are kept in groups; each assignment is to one of them. */
  class SecParse {
    const codec: Codec
    const vpsNals: array<Option<Nal>>
    const spsNals: array<Option<Nal>>
    const ppsNals: array<Option<Nal>>
    var format: Format
    var transform: bool
    var nalLengthSize: nat
    var state: State
    var have: Have
    var flags: Flags
    var seiPos: int
    var idrPos: int
    var frameOut: seq<seq<byte>>

    ghost predicate Valid() {
      vpsNals != spsNals && vpsNals != ppsNals && spsNals != ppsNals
    }

    function Cfg(): Config
      reads this
    {
      Config(codec, format, transform, nalLengthSize)
    }

    ghost function FrameView(): Frame
      reads this
    {
      Frame(flags, seiPos, idrPos, frameOut)
    }

    ghost function StoresView(): Stores
      reads this, vpsNals, spsNals, ppsNals
    {
      Stores(vpsNals[..], spsNals[..], ppsNals[..])
    }

    ghost function View(): Parser
      reads this, vpsNals, spsNals, ppsNals
    {
      Parser(state, have, FrameView(), StoresView())
    }

    constructor (codec: Codec)
      ensures Valid() && View() == Fresh(codec) && Cfg() == Config(codec, Unset, false, 4)
      ensures fresh(vpsNals) && fresh(spsNals) && fresh(ppsNals)
    {
      this.codec := codec;
      vpsNals := new Option<Nal>[VpsSlots(codec)](_ => None);
      spsNals := new Option<Nal>[SpsSlots(codec)](_ => None);
      ppsNals := new Option<Nal>[PpsSlots(codec)](_ => None);
      format, transform, nalLengthSize := Unset, false, 4;
      state, have := NOTHING_SEEN, Have(false, false, false, false);
      flags, seiPos, idrPos, frameOut := NEW_FRAME.flags, -1, -1, [];
    }

    /** reset_frame. */
    method ResetFrame()
      modifies this
      ensures View() == old(View()).(frame := NEW_FRAME) && Cfg() == old(Cfg())
    {
      idrPos, seiPos := -1, -1;
      flags := Flags(false, false, false, false, false, false, true);
      frameOut := [];
    }

    /** store_nal. */
    method StoreNal(id: nat, k: Kind, nal: Nal)
      requires Valid()
      modifies vpsNals, spsNals, ppsNals
      ensures StoresView() == NextStores(old(StoresView()), k, id, nal)
    {
      var store;
      if k.Vps? {
        store := vpsNals;
      } else if k.Sps? || k.SubsetSps? {
        store := spsNals;
      } else if k.Pps? {
        store := ppsNals;
      } else {
        return;
      }
      if id >= store.Length {
        return;
      }
      store[id] := Some(nal);
    }

    /** Where the next collected unit, or this one, begins. */
    function Here(at: nat): int
      reads this
    {
      if transform then Available(frameOut) else at
    }

    /** process_nal. */
    method ProcessNal(u: Unit) returns (ok: bool)
      requires Valid() && 1 <= nalLengthSize <= 4 && |u.nal| < U32
      modifies this, vpsNals, spsNals, ppsNals
      ensures View() == Process(Cfg(), old(View()), u) && ok == Result(Cfg(), old(state), u)
      ensures Cfg() == old(Cfg())
    {
      hide NextFrame, NextFlags, NextState, NextHave, NextStores, Accepts, HasPrefix;
      if |u.nal| < 2 {
        return true;
      }
      var k := KindOf(codec, u.nal);
      NoParameters(have, StoresView(), k, u.header.id, u.nal);
      ParameterFrame(Cfg(), FrameView(), have, k, u.header, u.at);
      if k.Vps? {
        ok := ProcessVps(u);
      } else if k.Sps? || k.SubsetSps? {
        ok := ProcessSps(u, k);
      } else if k.Pps? {
        ok := ProcessPps(u);
      } else if k.Sei? {
        ok := ProcessSei(u);
      } else if k.Slice? || k.SliceExt? {
        ok := ProcessSlice(u, k);
      } else {
        ok := ProcessOther(u, k);
      }
      if ok && transform {
        var buf := WrapNal(u.nal);
        frameOut := frameOut + [buf];
      }
    }

    method ProcessVps(u: Unit) returns (ok: bool)
      requires Valid()
      modifies this`have, this`flags, vpsNals, spsNals, ppsNals
      ensures ok == Accepts(old(state), Vps, u.header) && state == NextState(old(state), Vps, u.header)
      ensures have == if ok then NextHave(old(have), Vps) else old(have)
      ensures flags == if ok then NextFlags(Cfg(), old(flags), old(have), Vps, u.header) else old(flags)
      ensures StoresView() == if ok then NextStores(old(StoresView()), Vps, u.header.id, u.nal) else old(StoresView())
    {
      hide NextHave, NextFlags, NextStores;
      ok := u.header.result.Ok?;
      if ok {
        TakeVps(u);
      }
    }

    method TakeVps(u: Unit)
      requires Valid()
      modifies this`have, this`flags, vpsNals, spsNals, ppsNals
      ensures have == NextHave(old(have), Vps)
      ensures flags == NextFlags(Cfg(), old(flags), old(have), Vps, u.header)
      ensures StoresView() == NextStores(old(StoresView()), Vps, u.header.id, u.nal)
    {
      ParameterFlags(Cfg(), flags, have, Vps, u.header);
      hide NextStores, NextFlags, NextHave;
      flags := flags.(updateCaps := true, vps := true);
      NoteVps();
      StoreNal(u.header.id, Vps, u.nal);
      flags := flags.(header := true);
    }

    method ProcessSps(u: Unit, k: Kind) returns (ok: bool)
      requires Valid() && (k.Sps? || k.SubsetSps?)
      modifies this`state, this`have, this`flags, vpsNals, spsNals, ppsNals
      ensures ok == Accepts(old(state), k, u.header) && state == NextState(old(state), k, u.header)
      ensures have == if ok then NextHave(old(have), k) else old(have)
      ensures flags == if ok then NextFlags(Cfg(), old(flags), old(have), k, u.header) else old(flags)
      ensures StoresView() == if ok then NextStores(old(StoresView()), k, u.header.id, u.nal) else old(StoresView())
    {
      hide NextHave, NextFlags, NextStores;
      if k.SubsetSps? {
        if !state.gotSps {
          return false;
        }
      } else {
        state := NOTHING_SEEN;
      }
      if !u.header.result.Ok? {
        return false;
      }
      TakeSps(u, k);
      state := state.(gotSps := true);
      ok := true;
    }

    method TakeSps(u: Unit, k: Kind)
      requires Valid() && (k.Sps? || k.SubsetSps?)
      modifies this`have, this`flags, vpsNals, spsNals, ppsNals
      ensures have == NextHave(old(have), k)
      ensures flags == NextFlags(Cfg(), old(flags), old(have), k, u.header)
      ensures StoresView() == NextStores(old(StoresView()), k, u.header.id, u.nal)
    {
      ParameterFlags(Cfg(), flags, have, k, u.header);
      hide NextStores, NextFlags, NextHave;
      flags := flags.(updateCaps := true, sps := true);
      NoteSps(k);
      StoreNal(u.header.id, k, u.nal);
      flags := flags.(header := true);
    }

    method ProcessPps(u: Unit) returns (ok: bool)
      requires Valid()
      modifies this`state, this`have, this`flags, vpsNals, spsNals, ppsNals
      ensures ok == Accepts(old(state), Pps, u.header) && state == NextState(old(state), Pps, u.header)
      ensures have == if ok then NextHave(old(have), Pps) else old(have)
      ensures flags == if ok then NextFlags(Cfg(), old(flags), old(have), Pps, u.header) else old(flags)
      ensures StoresView() == if ok then NextStores(old(StoresView()), Pps, u.header.id, u.nal) else old(StoresView())
    {
      hide NextHave, NextFlags, NextStores;
      state := state.(gotPps := false, gotSlice := false);
      if !state.gotSps || u.header.result.Refused? {
        return false;
      }
      TakePps(u);
      state := state.(gotPps := true);
      ok := true;
    }

    method TakePps(u: Unit)
      requires Valid()
      modifies this`have, this`flags, vpsNals, spsNals, ppsNals
      ensures have == NextHave(old(have), Pps)
      ensures flags == NextFlags(Cfg(), old(flags), old(have), Pps, u.header)
      ensures StoresView() == NextStores(old(StoresView()), Pps, u.header.id, u.nal)
    {
      ParameterFlags(Cfg(), flags, have, Pps, u.header);
      hide NextStores, NextFlags, NextHave;
      MarkPps();
      NotePps();
      StoreNal(u.header.id, Pps, u.nal);
      flags := flags.(header := true);
    }

    /** A PPS is in the frame; one that is the first since the caps were looked at
        may have changed them. */
    method MarkPps()
      modifies this`flags
      ensures flags == old(flags).(pps := true, updateCaps := old(flags).updateCaps || !have.pps)
    {
      if !have.pps {
        flags := flags.(updateCaps := true);
      }
      flags := flags.(pps := true);
    }

    /** What has been seen for the caps; parameter sets in the stream before the
        first frame is pushed call the pending push off. */
    method NoteVps()
      modifies this`have
      ensures have == NextHave(old(have), Vps)
    {
      have := have.(vps := true);
      if have.pushCodec && have.pps {
        have := Have(false, false, false, false);
      }
    }

    method NoteSps(k: Kind)
      requires k.Sps? || k.SubsetSps?
      modifies this`have
      ensures have == NextHave(old(have), k)
    {
      have := have.(sps := true);
      if have.pushCodec && have.pps {
        have := have.(pushCodec := false, sps := false, pps := false);
      }
    }

    method NotePps()
      modifies this`have
      ensures have == NextHave(old(have), Pps)
    {
      have := have.(pps := true);
      if have.pushCodec && have.sps {
        have := have.(pushCodec := false, sps := false, pps := false);
      }
    }

    method ProcessSei(u: Unit) returns (ok: bool)
      modifies this`flags, this`seiPos
      ensures ok == Accepts(old(state), Sei, u.header) && state == NextState(old(state), Sei, u.header)
      ensures FrameView() ==
        if ok then NextFrame(Cfg(), old(FrameView()), old(have), Sei, u.header, u.at) else old(FrameView())
    {
      FewFlags(Cfg(), flags, have, Sei, u.header);
      hide NextFlags, NextHave, NextStores, Available, IdrPosition;
      if !state.gotSps {
        return false;
      }
      flags := flags.(header := true);
      if u.header.recovery {
        flags := flags.(keyframe := true);
      }
      if seiPos == -1 {
        seiPos := Here(u.at);
      }
      ok := true;
    }

    method ProcessSlice(u: Unit, k: Kind) returns (ok: bool)
      requires k.Slice? || k.SliceExt?
      modifies this`state, this`flags, this`idrPos
      ensures ok == Accepts(old(state), k, u.header) && state == NextState(old(state), k, u.header)
      ensures FrameView() ==
        if ok then NextFrame(Cfg(), old(FrameView()), old(have), k, u.header, u.at) else old(FrameView())
    {
      FewFlags(Cfg(), flags, have, k, u.header);
      hide NextFlags, Available;
      state := state.(gotSlice := false);
      if !(state.gotSps && state.gotPps) {
        return false;
      }
      if k.SliceExt? && !u.header.mvc {
        return true;
      }
      if u.header.result.Ok? {
        if u.header.intra {
          flags := flags.(keyframe := true);
        }
        state := state.(gotSlice := true);
      }
      if !(k.Slice? && k.randomAccess) && !have.pushCodec {
        return true;
      }
      MarkIdr(u.at);
      ok := true;
    }

    /** The mark: here, or at the SEI that comes before. */
    method MarkIdr(at: nat)
      modifies this`idrPos
      ensures idrPos == IdrPosition(Cfg(), old(FrameView()), at)
    {
      if idrPos == -1 {
        idrPos := Here(at);
      }
      if seiPos >= 0 && idrPos > seiPos {
        idrPos := seiPos;
      }
    }

    /** Access unit delimiters, and whatever else is only passed on. */
    method ProcessOther(u: Unit, k: Kind) returns (ok: bool)
      requires k.Aud? || k.Other?
      modifies this`flags
      ensures ok == Accepts(old(state), k, u.header) && state == NextState(old(state), k, u.header)
      ensures FrameView() ==
        if ok then NextFrame(Cfg(), old(FrameView()), old(have), k, u.header, u.at) else old(FrameView())
    {
      FewFlags(Cfg(), flags, have, k, u.header);
      hide NextFlags, NextHave, NextStores, Available, IdrPosition;
      ok := (k.Aud? || state.gotSps) && u.header.result.Ok?;
      if ok && k.Aud? && codec.H264? {
        flags := flags.(audInsert := false);
      }
    }

    /** wrap_nal. The length is shifted up in 32 bits, four bytes are written and
        the payload then overwrites all but the first nl of them. */
    method WrapNal(data: Nal) returns (buf: seq<byte>)
      requires 1 <= nalLengthSize <= 4 && |data| < U32
      ensures buf == Wrapped(Cfg(), data)
      ensures HasPrefix(Cfg(), data, buf)
    {
      WrappedIs(Cfg(), data);
      WrappedNames(Cfg(), data);
      hide Wrapped, HasPrefix, FromBigEndian, Prefixed, BigEndian, ShiftLeft;
      var nl := nalLengthSize;
      var out := new byte[4 + |data|];
      var tmp: uint32;
      if format.Packed? || format.PackedInBand? {
        tmp := ShiftLeft(|data|, 4 - nl);
        ShiftedLength(|data|, nl);
      } else {
        nl := 4;
        tmp := 1;
      }
      ghost var head := BigEndian(tmp, 4);
      for i := 0 to 4
        invariant forall j :: 0 <= j < i ==> out[j] == head[j]
      {
        out[i] := BigEndian(tmp, 4)[i];
      }
      for i := 0 to |data|
        invariant forall j :: 0 <= j < nl ==> out[j] == head[j]
        invariant forall j :: 0 <= j < i ==> out[nl + j] == data[j]
      {
        out[nl + i] := data[i];
      }
      buf := out[..|data| + nl];
      InTwoParts(buf, head[..nl], data);
    }
  }

  /** The unit behind its length, when that fits, or behind a start code. */
  predicate HasPrefix(c: Config, n: Nal, buf: seq<byte>) {
    if c.format.Packed? || c.format.PackedInBand?
    then |buf| == c.nl + |n| && buf[c.nl..] == n && (|n| < Pow256(c.nl) ==> FromBigEndian(buf[..c.nl]) == |n|)
    else |buf| == 4 + |n| && buf[..4] == [0, 0, 0, 1] && buf[4..] == n
  }

  lemma WrappedNames(c: Config, n: Nal)
    ensures HasPrefix(c, n, Wrapped(c, n))
  {
    BigEndianRoundTrip(|n|, c.nl);
    hide BigEndian, FromBigEndian;
    if c.format.Packed? || c.format.PackedInBand? {
      assert Wrapped(c, n)[..c.nl] == BigEndian(|n|, c.nl);
    }
  }

  lemma WrappedIs(c: Config, n: Nal)
    ensures Wrapped(c, n) ==
      (if c.format.Packed? || c.format.PackedInBand? then BigEndian(|n|, c.nl) else BigEndian(1, 4)) + n
  {
    BigEndianFour(1);
  }

  lemma InTwoParts<T>(s: seq<T>, a: seq<T>, b: seq<T>)
    requires |s| == |a| + |b|
    requires forall j :: 0 <= j < |a| ==> s[j] == a[j]
    requires forall j :: 0 <= j < |b| ==> s[|a| + j] == b[j]
    ensures s == a + b
  {}

  /** size << (8 * n) in 32 bits. */
  function ShiftLeft(size: uint32, n: nat): uint32
    requires n <= 3
  {
    if n == 0 then size
    else if n == 1 then size * 0x100 % 0x1_0000_0000
    else if n == 2 then size * 0x1_0000 % 0x1_0000_0000
    else size * 0x100_0000 % 0x1_0000_0000
  }

  /** The bytes that are left of the shifted length are its nl low-order bytes. */
  lemma ShiftedLength(size: uint32, nl: nat)
    requires 1 <= nl <= 4
    ensures BigEndian(ShiftLeft(size, 4 - nl), 4)[..nl] == BigEndian(size, nl)
  {
    hide BigEndian;
    BigEndianShift(size, nl);
    if nl < 4 {
      BigEndianCut(size * if nl == 3 then 0x100 else if nl == 2 then 0x1_0000 else 0x100_0000);
      BigEndianShift(size * 0x100, nl + 1);
      BigEndianShift(size * 0x1_0000, nl + 2);
    }
  }
}
