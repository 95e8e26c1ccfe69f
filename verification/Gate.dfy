/** pre_push_frame and the events of both secure parsers: after a restart no frame
    leaves before one with a random access point and its parameter sets. */
module Gate {
  import opened Bytes
  import opened NalUnits

  // ------------------------------------------------------------- the machine

  /** What the secure world has seen in a frame. */
  datatype Seen = Seen(vps: bool, sps: bool, pps: bool, idr: bool, slice: bool)

  predicate Params(c: Codec, s: Seen) {
    s.sps || s.pps || (c.H265? && s.vps)
  }

  /** A frame, and how the calls it causes turn out. running is the running time of
      its time stamp, if it has one. */
  datatype Frame = Frame(
    srcCaps: bool, flushing: bool, secure: bool,
    headerOk: bool, naluOk: bool, prependOk: bool,
    seen: Seen, stamped: bool, running: nat, delta: bool)

  /** push_codec, whether the codec tag went out, whether the input is a byte stream,
      whether a codec_data waits to be converted, and the queued key unit request
      with the time it asks for. */
  datatype State = State(
    pushCodec: bool, tagged: bool, byteStream: bool, codecDataIn: bool, queued: Option<Option<nat>>)

  const START := State(false, false, false, false, None)

  datatype Event =
    | Push(frame: Frame)
    | FlushStop
    | KeyUnitDown(wanted: Option<nat>)
    | KeyUnitUp(allHeaders: bool, wanted: Option<nat>)
    | SetCaps(byteStream: bool, codecDataIn: bool, arms: bool)
    | Reset

  /** GstFlowReturn. FALSE is 0, which is the value of OK. */
  const FLOW_DROPPED := 100
  const FLOW_OK := 0
  const FLOW_FLUSHING := -2
  const FLOW_NOT_NEGOTIATED := -4
  const FLOW_ERROR := -5
  const FALSE := 0

  /** What a step lets out: the flow value, and whether parameter sets were put in
      front, could not be, and whether a key unit request went downstream. */
  datatype Outcome = Outcome(flow: int, prepended: bool, prependFailed: bool, delivered: bool)

  const SILENT := Outcome(FLOW_DROPPED, false, false, false)

  /** check_pending_key_unit_event. */
  predicate Due(s: State, f: Frame) {
    && s.queued.Some?
    && !(s.queued.value.Some? && (!f.stamped || f.running < s.queued.value.value))
    && !f.delta
  }

  predicate Negotiated(s: State, f: Frame) {
    s.tagged || f.srcCaps
  }

  /** The part for packetised input: the state, and what is returned early. */
  function Convert(c: Codec, s: State, f: Frame): (State, Option<Outcome>) {
    var t := s.(codecDataIn := s.codecDataIn && !f.headerOk);
    var params := Params(c, f.seen);
    if !f.naluOk then (t, Some(SILENT.(flow := FLOW_ERROR)))
    else if params && !f.seen.idr && !f.seen.slice then (t, Some(SILENT))
    else if !t.pushCodec then (t, None)
    else if !params && f.seen.idr then
      if f.prependOk then (t.(pushCodec := false), None)
      else (t, Some(SILENT.(flow := FALSE, prependFailed := true)))
    else if !f.seen.idr then (t, Some(SILENT))
    else (t.(pushCodec := false), None)
  }

  predicate Prepends(c: Codec, s: State, f: Frame) {
    !s.byteStream && s.pushCodec && !Params(c, f.seen) && f.seen.idr && f.prependOk
  }

  /** pre_push_frame. */
  function PrePush(c: Codec, s: State, f: Frame): (State, Outcome) {
    if !Negotiated(s, f) then
      (s, SILENT.(flow := if f.flushing then FLOW_FLUSHING else FLOW_NOT_NEGOTIATED))
    else
      var t := s.(tagged := true);
      if !f.secure then (t, SILENT.(flow := FLOW_ERROR)) else
        var (u, early) := if t.byteStream then (t, None) else Convert(c, t, f);
        if early.Some? then (u, early.value)
        else if Due(u, f) then (u.(pushCodec := true, queued := None), Outcome(FLOW_OK, Prepends(c, t, f), false, true))
        else (u, Outcome(FLOW_OK, Prepends(c, t, f), false, false))
  }

  function Step(c: Codec, s: State, e: Event): (State, Outcome) {
    match e
    case Push(f) => PrePush(c, s, f)
    case FlushStop => (s.(pushCodec := true), SILENT)
    case KeyUnitDown(wanted) => (if s.queued.Some? then s else s.(queued := Some(wanted)), SILENT)
    case KeyUnitUp(all, wanted) => (if all then s.(queued := Some(wanted)) else s, SILENT)
    case SetCaps(byteStream, codecDataIn, arms) =>
      (s.(byteStream := byteStream, codecDataIn := codecDataIn, pushCodec := arms), SILENT)
    case Reset => (START.(byteStream := s.byteStream), SILENT)
  }

  function Run(c: Codec, log: seq<Event>): State {
    if log == [] then START else Step(c, Run(c, log[..|log| - 1]), log[|log| - 1]).0
  }

  /** The outcome of the last event. */
  function Last(c: Codec, log: seq<Event>): Outcome
    requires log != []
  {
    Step(c, Run(c, log[..|log| - 1]), log[|log| - 1]).1
  }

  // ------------------------------------------------------- the push as history

  /** The last event let its frame out of packetised input. */
  predicate Released(c: Codec, log: seq<Event>)
    requires log != []
  {
    var before, e := Run(c, log[..|log| - 1]), log[|log| - 1];
    e.Push? && !before.byteStream && Last(c, log).flow == FLOW_OK
  }

  /** The last event calls for parameter sets: a flush, caps that arm the push, or
      a key unit request that went downstream. */
  predicate Restarts(c: Codec, log: seq<Event>)
    requires log != []
  {
    var e := log[|log| - 1];
    e.FlushStop? || (e.SetCaps? && e.arms) || Last(c, log).delivered
  }

  /** The last event takes the call back: other caps, a reset, or a frame let out
      without a failed prepend. */
  predicate Settles(c: Codec, log: seq<Event>)
    requires log != []
  {
    var e := log[|log| - 1];
    e.SetCaps? || e.Reset? || (Released(c, log) && !Last(c, log).prependFailed)
  }

  /** There was a restart, and nothing has settled it since. */
  predicate Armed(c: Codec, log: seq<Event>) {
    if log == [] then false
    else if Restarts(c, log) then true
    else if Settles(c, log) then false
    else Armed(c, log[..|log| - 1])
  }

  /** push_codec is what the history of restarts and released frames says. */
  lemma {:induction false} PushIsArmed(c: Codec, log: seq<Event>)
    ensures Run(c, log).pushCodec == Armed(c, log)
  {
    if log != [] {
      var front := log[..|log| - 1];
      PushIsArmed(c, front);
      PushStep(c, Run(c, front), log[|log| - 1]);
    }
  }

  lemma PushStep(c: Codec, s: State, e: Event)
    ensures var (t, out) := Step(c, s, e);
      t.pushCodec ==
        if e.FlushStop? || (e.SetCaps? && e.arms) || out.delivered then true
        else if e.SetCaps? || e.Reset? then false
        else if e.Push? && !s.byteStream && out.flow == FLOW_OK && !out.prependFailed then false
        else s.pushCodec
  {}

  /** Nothing settles a restart from event i on up to event j. */
  predicate Unsettled(c: Codec, log: seq<Event>, i: nat, j: nat)
    requires 0 < i <= j <= |log|
  {
    if i == j then Restarts(c, log[..i]) else !Settles(c, log[..j]) && Unsettled(c, log, i, j - 1)
  }

  lemma {:induction false} ArmedUntilSettled(c: Codec, log: seq<Event>, i: nat, j: nat)
    requires 0 < i <= j <= |log| && Unsettled(c, log, i, j)
    ensures Armed(c, log[..j])
    decreases j
  {
    hide Restarts, Settles, Run;
    if i < j {
      ArmedUntilSettled(c, log, i, j - 1);
      assert log[..j][..j - 1] == log[..j - 1];
    }
  }

  /** Main result: after a restart that nothing has settled, the first frame that is
      let out has a random access point and carries parameter sets, its own or
      prepended ones, if and only if it has its own or can be prepended to. */
  lemma FirstFrameAfterRestart(c: Codec, log: seq<Event>, i: nat)
    requires 0 < i < |log| && Unsettled(c, log, i, |log| - 1) && Released(c, log)
    ensures var f, out := log[|log| - 1].frame, Last(c, log);
      f.seen.idr && (Params(c, f.seen) || out.prepended) <==> Params(c, f.seen) || f.prependOk
  {
    hide Unsettled, Armed, Run;
    ArmedUntilSettled(c, log, i, |log| - 1);
    PushIsArmed(c, log[..|log| - 1]);
    ReleasedWhileArmed(c, Run(c, log[..|log| - 1]), log[|log| - 1].frame);
  }

  lemma ReleasedWhileArmed(c: Codec, s: State, f: Frame)
    requires s.pushCodec && !s.byteStream && PrePush(c, s, f).1.flow == FLOW_OK
    ensures f.seen.idr && (Params(c, f.seen) || PrePush(c, s, f).1.prepended) <==> Params(c, f.seen) || f.prependOk
  {}

  /** No frame with parameter sets and no picture is ever let out. */
  lemma ParamsNotAlone(c: Codec, log: seq<Event>)
    requires log != [] && Released(c, log)
    ensures var seen := log[|log| - 1].frame.seen;
      Params(c, seen) ==> seen.idr || seen.slice
  {}

  /** A failed prepend passes for OK and leaves the call for parameter sets standing. */
  lemma FailedPrependPasses(c: Codec, s: State, f: Frame)
    requires !s.byteStream && s.pushCodec && s.tagged && f.secure && f.naluOk
    requires !Params(c, f.seen) && f.seen.idr && !f.prependOk
    ensures var (t, out) := PrePush(c, s, f);
      out.flow == FLOW_OK && !out.prepended && t.pushCodec
  {}

  // ------------------------------------------------ which frames are let out

  /** The codec tag has gone out: since the last reset, a frame came when the source
      pad had caps. */
  predicate TagSent(log: seq<Event>) {
    log != [] &&
    var e := log[|log| - 1];
    !e.Reset? && ((e.Push? && e.frame.srcCaps) || TagSent(log[..|log| - 1]))
  }

  /** The last caps named a byte stream. */
  predicate ByteStreamInput(log: seq<Event>) {
    log != [] &&
    var e := log[|log| - 1];
    if e.SetCaps? then e.byteStream else ByteStreamInput(log[..|log| - 1])
  }

  /** The caps came with a codec_data that no frame has converted since. */
  predicate DataWaits(log: seq<Event>) {
    log != [] &&
    var front, e := log[..|log| - 1], log[|log| - 1];
    match e
    case SetCaps(_, codecDataIn, _) => codecDataIn
    case Reset => false
    case Push(f) => DataWaits(front) && !(Goes(front, f) && !ByteStreamInput(front) && f.headerOk)
    case _ => DataWaits(front)
  }

  /** The frame gets past the checks on the pad and on its memory. */
  predicate Goes(before: seq<Event>, f: Frame) {
    (f.srcCaps || TagSent(before)) && f.secure
  }

  /** The key unit request that stands, with the time it asks for, since the last reset
      or delivery: one that comes with the stream when none stood, or the last one
      that comes against it. */
  function Wanted(c: Codec, log: seq<Event>): Option<Option<nat>>
    decreases |log|, 0
  {
    if log == [] then None else
      var front, e := log[..|log| - 1], log[|log| - 1];
      match e
      case KeyUnitDown(wanted) => if Wanted(c, front).Some? then Wanted(c, front) else Some(wanted)
      case KeyUnitUp(all, wanted) => if all then Some(wanted) else Wanted(c, front)
      case Reset => None
      case Push(f) => if Delivers(c, front, f) then None else Wanted(c, front)
      case _ => Wanted(c, front)
  }

  /** Whether a frame of packetised input brings what it must: no parameter sets
      without a picture, and a random access point while a push is pending. */
  predicate Fit(c: Codec, before: seq<Event>, f: Frame) {
    var params := f.seen.sps || f.seen.pps || (c.H265? && f.seen.vps);
    (params ==> f.seen.idr || f.seen.slice) && (Armed(c, before) ==> f.seen.idr)
  }

  /** A pending push that the frame's own parameter sets do not settle. */
  predicate NeedsParams(c: Codec, before: seq<Event>, f: Frame) {
    !ByteStreamInput(before) && Armed(c, before) && !f.seen.sps && !f.seen.pps && (c.H265? ==> !f.seen.vps)
  }

  /** The frame goes on to the delivery of key unit requests. */
  predicate Passes(c: Codec, before: seq<Event>, f: Frame) {
    && Goes(before, f)
    && (!ByteStreamInput(before) ==> f.naluOk && Fit(c, before, f))
    && (NeedsParams(c, before, f) ==> f.prependOk)
  }

  /** A key frame that passes, at or after the time asked for, delivers the request. */
  predicate Delivers(c: Codec, before: seq<Event>, f: Frame)
    decreases |before|, 1
  {
    && Passes(c, before, f) && !f.delta && Wanted(c, before).Some?
    && (Wanted(c, before).value.Some? ==> f.stamped && Wanted(c, before).value.value <= f.running)
  }

  /** Every field of the state is what the history says. */
  ghost predicate StateIs(c: Codec, before: seq<Event>) {
    Run(c, before) ==
      State(Armed(c, before), TagSent(before), ByteStreamInput(before), DataWaits(before), Wanted(c, before))
  }

  /** Main result: after every run the whole state is what the history says. */
  lemma {:induction false} StateIsHistory(c: Codec, log: seq<Event>)
    ensures StateIs(c, log)
  {
    PushIsArmed(c, log);
    if log != [] {
      var front, e := log[..|log| - 1], log[|log| - 1];
      StateIsHistory(c, front);
      hide Run, Armed;
      assert Run(c, log) == Step(c, Run(c, front), e).0 by { RunUnfolds(c, log); }
      if e.Push? {
        PushMoves(c, front, e.frame);
        PushAnswers(c, front, e.frame);
        hide PrePush, Delivers, Goes;
      }
    }
  }

  lemma RunUnfolds(c: Codec, log: seq<Event>)
    requires log != []
    ensures Run(c, log) == Step(c, Run(c, log[..|log| - 1]), log[|log| - 1]).0
  {}

  /** What a frame does to the state after a run whose state is its history. */
  lemma PushMoves(c: Codec, before: seq<Event>, f: Frame)
    requires StateIs(c, before)
    ensures var t := PrePush(c, Run(c, before), f).0;
      && t.tagged == (TagSent(before) || f.srcCaps) && t.byteStream == ByteStreamInput(before)
      && t.codecDataIn == (DataWaits(before) && !(Goes(before, f) && !ByteStreamInput(before) && f.headerOk))
  {
    hide Armed, TagSent, ByteStreamInput, DataWaits, Wanted, Run, Due, Params;
  }

  lemma PushAnswers(c: Codec, before: seq<Event>, f: Frame)
    requires StateIs(c, before)
    ensures PrePush(c, Run(c, before), f).0.queued == if Delivers(c, before, f) then None else Wanted(c, before)
  {
    hide Armed, TagSent, ByteStreamInput, DataWaits, Wanted, Run;
  }

  lemma PushReturns(c: Codec, before: seq<Event>, f: Frame)
    requires StateIs(c, before)
    ensures PrePush(c, Run(c, before), f).1 == OutcomeOf(c, before, f)
  {
    hide Armed, TagSent, ByteStreamInput, DataWaits, Wanted, Run;
  }

  /** The outcome by history, with the numbers that the flow values stand for. */
  function OutcomeOf(c: Codec, before: seq<Event>, f: Frame): Outcome {
    if !f.srcCaps && !TagSent(before) then Outcome(if f.flushing then -2 else -4, false, false, false)
    else if !f.secure || (!ByteStreamInput(before) && !f.naluOk) then Outcome(-5, false, false, false)
    else if !ByteStreamInput(before) && !Fit(c, before, f) then Outcome(100, false, false, false)
    else Outcome(0, NeedsParams(c, before, f) && f.prependOk, NeedsParams(c, before, f) && !f.prependOk,
                 Delivers(c, before, f))
  }

  /** Main result: over every run the outcome of a frame is what the history says. */
  lemma OutcomeIsHistory(c: Codec, log: seq<Event>)
    requires log != [] && log[|log| - 1].Push?
    ensures Last(c, log) == OutcomeOf(c, log[..|log| - 1], log[|log| - 1].frame)
  {
    hide Run, Armed, PrePush, OutcomeOf;
    StateIsHistory(c, log[..|log| - 1]);
    PushReturns(c, log[..|log| - 1], log[|log| - 1].frame);
  }

  /** A frame of packetised input that reaches the checks is let out exactly when it has
      a picture with its parameter sets, and a random access point while a push is
      pending. */
  lemma ReleasedIff(c: Codec, log: seq<Event>)
    requires log != [] && log[|log| - 1].Push?
    ensures var before, f := log[..|log| - 1], log[|log| - 1].frame;
      !ByteStreamInput(before) && Goes(before, f) && f.naluOk ==>
        (Released(c, log) <==>
          && (f.seen.sps || f.seen.pps || (c.H265? && f.seen.vps) ==> f.seen.idr || f.seen.slice)
          && (Armed(c, before) ==> f.seen.idr))
  {
    OutcomeIsHistory(c, log);
    StateIsHistory(c, log[..|log| - 1]);
    hide Armed, Run, Last, TagSent, ByteStreamInput, DataWaits, Wanted;
  }

  // ------------------------------------------------------ one for each restart

  /** What event k of the log does. */
  predicate RestartsAt(c: Codec, log: seq<Event>, k: nat)
    requires k < |log|
  {
    Restarts(c, log[..k + 1])
  }

  predicate PrependsAt(c: Codec, log: seq<Event>, k: nat)
    requires k < |log|
  {
    Last(c, log[..k + 1]).prepended
  }

  predicate DeliversAt(c: Codec, log: seq<Event>, k: nat)
    requires k < |log|
  {
    Last(c, log[..k + 1]).delivered
  }

  /** The event asks for a key unit. */
  predicate Asks(e: Event) {
    e.KeyUnitDown? || (e.KeyUnitUp? && e.allHeaders)
  }

  /** From event i on, one before event j restarts, or asks. */
  ghost predicate RestartsWithin(c: Codec, log: seq<Event>, i: nat, j: nat)
    requires i <= j <= |log|
  {
    exists k :: i <= k < j && RestartsAt(c, log, k)
  }

  ghost predicate AsksWithin(log: seq<Event>, i: nat, j: nat)
    requires i <= j <= |log|
  {
    exists k :: i <= k < j && Asks(log[k])
  }

  /** What one event does to the two things that may be pending. */
  lemma EventDoes(c: Codec, log: seq<Event>, k: nat)
    requires k < |log|
    ensures var s, t := Run(c, log[..k]), Run(c, log[..k + 1]);
      && (t.pushCodec ==> RestartsAt(c, log, k) || (s.pushCodec && !PrependsAt(c, log, k)))
      && (PrependsAt(c, log, k) ==> s.pushCodec)
      && (t.queued.Some? ==> Asks(log[k]) || (s.queued.Some? && !DeliversAt(c, log, k)))
      && (DeliversAt(c, log, k) ==> s.queued.Some?)
  {
    var front := log[..k + 1];
    assert front[..|front| - 1] == log[..k] && front[|front| - 1] == log[k];
    BalanceStep(c, Run(c, log[..k]), log[k]);
    hide Step;
  }

  lemma {:induction false} PendingSince(c: Codec, log: seq<Event>, i: nat, j: nat)
    requires i <= j <= |log|
    ensures !Run(c, log[..i]).pushCodec && Run(c, log[..j]).pushCodec ==> RestartsWithin(c, log, i, j)
    ensures Run(c, log[..i]).queued.None? && Run(c, log[..j]).queued.Some? ==> AsksWithin(log, i, j)
    decreases j
  {
    hide Run, RestartsAt, PrependsAt, DeliversAt, Asks;
    if i < j {
      PendingSince(c, log, i, j - 1);
      EventDoes(c, log, j - 1);
    }
  }

  lemma NothingPendingAtFirst(c: Codec, log: seq<Event>)
    ensures !Run(c, log[..0]).pushCodec && Run(c, log[..0]).queued.None?
  {}

  /** Main result: every prepend answers a restart of its own. There is one before
      the first, and from the frame of one prepend on there is another before the
      next. */
  lemma OnePrependPerRestart(c: Codec, log: seq<Event>, i: nat, j: nat)
    requires j < |log| && PrependsAt(c, log, j)
    ensures RestartsWithin(c, log, 0, j)
    ensures i < j && PrependsAt(c, log, i) ==> RestartsWithin(c, log, i, j)
  {
    hide Run, RestartsAt, PrependsAt, DeliversAt;
    NothingPendingAtFirst(c, log);
    EventDoes(c, log, j);
    PendingSince(c, log, 0, j);
    if i < j && PrependsAt(c, log, i) {
      EventDoes(c, log, i);
      PendingSince(c, log, i + 1, j);
    }
  }

  /** The same for key unit requests: every delivery answers a request of its own,
      one that comes after the delivery before it. */
  lemma OneDeliveryPerRequest(c: Codec, log: seq<Event>, i: nat, j: nat)
    requires j < |log| && DeliversAt(c, log, j)
    ensures AsksWithin(log, 0, j)
    ensures i < j && DeliversAt(c, log, i) ==> AsksWithin(log, i + 1, j)
  {
    hide Run, RestartsAt, PrependsAt, DeliversAt, Asks;
    NothingPendingAtFirst(c, log);
    EventDoes(c, log, j);
    PendingSince(c, log, 0, j);
    if i < j && DeliversAt(c, log, i) {
      EventDoes(c, log, i);
      DeliveryAsksNothing(c, log, i);
      PendingSince(c, log, i + 1, j);
    }
  }

  lemma DeliveryAsksNothing(c: Codec, log: seq<Event>, k: nat)
    requires k < |log| && DeliversAt(c, log, k)
    ensures !Asks(log[k])
  {
    assert log[..k + 1][|log[..k + 1]| - 1] == log[k];
  }

  lemma BalanceStep(c: Codec, s: State, e: Event)
    ensures var (t, out) := Step(c, s, e);
      && (t.pushCodec ==> e.FlushStop? || (e.SetCaps? && e.arms) || out.delivered || (s.pushCodec && !out.prepended))
      && (out.prepended ==> s.pushCodec)
      && (t.queued.Some? ==> Asks(e) || (s.queued.Some? && !out.delivered))
      && (out.delivered ==> s.queued.Some?)
  {}

  // -------------------------------------------------------------- in place

  class Parser {
    const codec: Codec
    var pushCodec: bool
    var sentCodecTag: bool
    var byteStream: bool
    var codecDataIn: bool
    var queued: Option<Option<nat>>

    function View(): State
      reads this
    {
      State(pushCodec, sentCodecTag, byteStream, codecDataIn, queued)
    }

    constructor (codec: Codec)
      ensures View() == START && this.codec == codec
    {
      this.codec := codec;
      pushCodec, sentCodecTag, byteStream, codecDataIn, queued := false, false, false, false, None;
    }

    method PrePushFrame(f: Frame) returns (out: Outcome)
      modifies this
      ensures (View(), out) == PrePush(codec, old(View()), f)
    {
      out := SILENT;
      if !sentCodecTag {
        if !f.srcCaps {
          out := out.(flow := if f.flushing then FLOW_FLUSHING else FLOW_NOT_NEGOTIATED);
          return;
        }
        sentCodecTag := true;
      }
      if !f.secure {
        out := out.(flow := FLOW_ERROR);
        return;
      }
      if !byteStream {
        if codecDataIn {
          if f.headerOk {
            codecDataIn := false;
          }
        }
        if !f.naluOk {
          out := out.(flow := FLOW_ERROR);
          return;
        }
        if Params(codec, f.seen) && !(f.seen.idr || f.seen.slice) {
          return;
        }
        if pushCodec {
          if !Params(codec, f.seen) && f.seen.idr {
            if !f.prependOk {
              out := out.(flow := FALSE, prependFailed := true);
              return;
            }
            out := out.(prepended := true);
            pushCodec := false;
          } else if !f.seen.idr {
            return;
          } else {
            pushCodec := false;
          }
        }
      }
      if Due(View(), f) {
        PrepareKeyUnit();
        out := out.(delivered := true);
      }
      out := out.(flow := FLOW_OK);
    }

    /** prepare_key_unit. */
    method PrepareKeyUnit()
      modifies this
      ensures View() == old(View()).(pushCodec := true, queued := None)
    {
      queued := None;
      pushCodec := true;
    }

    /** The events that matter, and set_caps as far as it concerns the push. */
    method Handle(e: Event)
      requires !e.Push?
      modifies this
      ensures View() == Step(codec, old(View()), e).0
    {
      match e
      case FlushStop => pushCodec := true;
      case KeyUnitDown(wanted) =>
        if queued.None? {
          queued := Some(wanted);
        }
      case KeyUnitUp(all, wanted) =>
        if all {
          queued := Some(wanted);
        }
      case SetCaps(format, data, arms) =>
        pushCodec := false;
        byteStream, codecDataIn := format, data;
        if arms {
          pushCodec := true;
        }
      case Reset =>
        pushCodec, sentCodecTag, codecDataIn, queued := false, false, false, None;
    }
  }
}
