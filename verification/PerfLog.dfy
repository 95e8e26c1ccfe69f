/** What the profiler is meant to compute, stated over a plain log of the
    scopes a thread opened and closed, and the state machine that the tree of
    PerfNode objects (module PerfHeap) implements. */
module PerfLog {
  import opened Sequences

  const U64: int := 0x1_0000_0000_0000_0000
  const INITIAL_MIN_VALUE: int := 1000000000

  type uint64 = x: int | 0 <= x < U64

  /** A call path: the names of the enclosing scopes, outermost first. */
  type Path = seq<string>

  // ---------------------------------------------------------------- statistics

  datatype Totals = Totals(time: uint64, count: uint64, max: uint64, min: uint64)

  datatype TimingStats = TimingStats(total: Totals, interval: Totals, lastDelta: uint64)

  const NO_TOTALS := Totals(0, 0, 0, INITIAL_MIN_VALUE)
  const NO_STATS := TimingStats(NO_TOTALS, NO_TOTALS, 0)

  /** Unsigned 64-bit addition and subtraction. */
  function Plus(a: uint64, b: uint64): uint64 {
    if a + b < U64 then a + b else a + b - U64
  }

  /** The difference of two time stamps; the wall clock may step back. */
  function Elapsed(now: uint64, start: uint64): uint64 {
    if start <= now then now - start else now - start + U64
  }

  /** The start and the elapsed time give the end, in 64 bits; and without wrapping when
      the clock has not stepped back. */
  lemma ElapsedIs(now: uint64, start: uint64)
    ensures Plus(start, Elapsed(now, start)) == now
    ensures start <= now ==> Elapsed(now, start) == now - start
  {}

  /** A number as a 64-bit counter holds it. */
  function Wrapped(n: nat): uint64 {
    n % U64
  }

  lemma WrappedPlus(n: nat, m: nat)
    ensures Plus(Wrapped(n), Wrapped(m)) == Wrapped(n + m)
  {
    var q, r := n / U64 + m / U64, n % U64 + m % U64;
    assert n + m == q * U64 + r;
    if r < U64 {
      QuotientRemainder(q, r);
    } else {
      assert n + m == (q + 1) * U64 + (r - U64);
      QuotientRemainder(q + 1, r - U64);
    }
  }

  lemma QuotientRemainder(q: nat, r: uint64)
    ensures (q * U64 + r) % U64 == r
  {
  }

  function Count(t: Totals, delta: uint64): Totals {
    Totals(Plus(t.time, delta), Plus(t.count, 1),
           if t.max < delta then delta else t.max,
           if t.min > delta then delta else t.min)
  }

  function Increment(s: TimingStats, delta: uint64): TimingStats {
    TimingStats(Count(s.total, delta), Count(s.interval, delta), delta)
  }

  function ResetInterval(s: TimingStats): TimingStats {
    s.(interval := NO_TOTALS)
  }

  function Sum(ds: seq<uint64>): nat {
    if ds == [] then 0 else Sum(ds[..|ds| - 1]) + ds[|ds| - 1]
  }

  /** t is the summary of the durations ds: their sum and number (64 bits wide),
      their maximum and 0, their minimum and 10^9. */
  ghost predicate Summarises(t: Totals, ds: seq<uint64>) {
    && t.time == Wrapped(Sum(ds))
    && t.count == Wrapped(|ds|)
    && (forall d <- ds :: d <= t.max) && (t.max == 0 || t.max in ds)
    && (forall d <- ds :: t.min <= d) && t.min <= 1_000_000_000
    && (t.min == 1_000_000_000 || t.min in ds)
  }

  lemma CountSummarises(t: Totals, ds: seq<uint64>, d: uint64)
    requires Summarises(t, ds)
    ensures Summarises(Count(t, d), ds + [d])
  {
    assert (ds + [d])[..|ds|] == ds;
    WrappedPlus(Sum(ds), d);
    WrappedPlus(|ds|, 1);
    assert forall x :: x in ds + [d] <==> x in ds || x == d;
  }

  /** A summary is determined by the durations it summarises. */
  lemma SummaryUnique(t: Totals, t': Totals, ds: seq<uint64>)
    requires Summarises(t, ds) && Summarises(t', ds)
    ensures t == t'
  {
    assert t.max <= t'.max && t'.max <= t.max;
    assert t.min <= t'.min && t'.min <= t.min;
  }

  lemma {:induction false} SumBounds(ds: seq<uint64>, lo: nat, hi: nat)
    requires forall d <- ds :: lo <= d <= hi
    ensures lo * |ds| <= Sum(ds) <= hi * |ds|
  {
    if ds != [] {
      var front := ds[..|ds| - 1];
      assert forall d <- front :: d in ds;
      assert ds[|ds| - 1] in ds;
      SumBounds(front, lo, hi);
      OneMore(lo, |front|);
      OneMore(hi, |front|);
    }
  }

  lemma OneMore(x: nat, n: nat)
    ensures x * (n + 1) == x * n + x
  {}

  /** Wherever the 64-bit sum has not wrapped, the average lies between the
      reported minimum and maximum. */
  lemma AverageWithinExtremes(t: Totals, ds: seq<uint64>)
    requires Summarises(t, ds) && Sum(ds) < U64 && |ds| < U64
    ensures t.min * t.count <= t.time <= t.max * t.count
  {
    SumBounds(ds, t.min, t.max);
  }

  // ------------------------------------------------------- one thread's machine

  datatype Event = Open(name: string, now: uint64) | Close(now: uint64) | Report

  /** An open scope: the name it was opened under and its start time. */
  datatype Frame = Frame(name: string, start: uint64)

  datatype TreeView = TreeView(
    nodes: map<Path, TimingStats>, frames: seq<Frame>, activity: uint64, atReport: uint64)

  const EMPTY_TREE := TreeView(map[], [], 0, 0)

  function Names(frames: seq<Frame>): (p: Path)
    ensures |p| == |frames|
    ensures forall i :: 0 <= i < |p| ==> p[i] == frames[i].name
  {
    seq(|frames|, i requires 0 <= i < |frames| => frames[i].name)
  }

  function Inactive(v: TreeView): bool {
    v.activity == v.atReport
  }

  /** One step of the tree. Closing with nothing open and reporting a tree that
      has no root are undefined in the program; they leave the view alone here. */
  function Step(v: TreeView, e: Event): TreeView {
    match e
    case Open(name, now) =>
      var rooted := if v.nodes == map[] then map[[] := NO_STATS] else v.nodes;
      var p := Names(v.frames) + [name];
      v.(nodes := if p in rooted then rooted else rooted[p := NO_STATS],
         frames := v.frames + [Frame(name, now)],
         activity := Plus(v.activity, 1))
    case Close(now) =>
      var p := Names(v.frames);
      if v.frames == [] || p !in v.nodes then v else
        var top := v.frames[|v.frames| - 1];
        v.(nodes := v.nodes[p := Increment(v.nodes[p], Elapsed(now, top.start))],
           frames := v.frames[..|v.frames| - 1])
    case Report =>
      v.(nodes := map p | p in v.nodes :: ResetInterval(v.nodes[p]), atReport := v.activity)
  }

  function Run(log: seq<Event>): TreeView {
    if log == [] then EMPTY_TREE else Step(Run(log[..|log| - 1]), log[|log| - 1])
  }

  // --------------------------------------- the same facts read off the log alone

  /** The scopes still open at the end of the log. */
  function Frames(log: seq<Event>): seq<Frame> {
    if log == [] then [] else FramesAfter(Frames(log[..|log| - 1]), log[|log| - 1])
  }

  function FramesAfter(frames: seq<Frame>, e: Event): seq<Frame> {
    match e
    case Open(name, now) => frames + [Frame(name, now)]
    case Close(_) => if frames == [] then frames else frames[..|frames| - 1]
    case Report => frames
  }

  /** Some event of the log opened a scope whose call path is p (or, for the
      empty path, opened any scope at all). */
  predicate PathOpened(log: seq<Event>, p: Path) {
    log != [] &&
    var before, e := log[..|log| - 1], log[|log| - 1];
    (PathOpened(before, p) || (e.Open? && (p == [] || p == Names(Frames(before)) + [e.name])))
  }

  /** Durations of the scopes closed with path p, in closing order. */
  function Durations(log: seq<Event>, p: Path): seq<uint64> {
    if log == [] then [] else
      var before := log[..|log| - 1];
      Durations(before, p) + ClosedBy(before, log[|log| - 1], p)
  }

  /** The same, counting only from the last report on. */
  function RecentDurations(log: seq<Event>, p: Path): seq<uint64> {
    if log == [] then [] else
      var before := log[..|log| - 1];
      if log[|log| - 1].Report? then [] else RecentDurations(before, p) + ClosedBy(before, log[|log| - 1], p)
  }

  function ClosedBy(before: seq<Event>, e: Event, p: Path): seq<uint64> {
    var fs := Frames(before);
    if e.Close? && fs != [] && Names(fs) == p then [Elapsed(e.now, fs[|fs| - 1].start)] else []
  }

  function Opens(log: seq<Event>): nat {
    if log == [] then 0 else Opens(log[..|log| - 1]) + if log[|log| - 1].Open? then 1 else 0
  }

  function OpensSinceReport(log: seq<Event>): nat {
    if log == [] then 0
    else if log[|log| - 1].Report? then 0
    else OpensSinceReport(log[..|log| - 1]) + if log[|log| - 1].Open? then 1 else 0
  }

  /** Every Close closes a scope, as scope objects on the thread's stack ensure. */
  predicate WellNested(log: seq<Event>) {
    log == [] ||
    (WellNested(log[..|log| - 1]) && (log[|log| - 1].Close? ==> Frames(log[..|log| - 1]) != []))
  }

  /** Every enclosing path of an open scope has been opened. */
  lemma {:induction false} EnclosingOpened(log: seq<Event>, n: nat)
    requires n <= |Frames(log)| && Frames(log) != []
    ensures PathOpened(log, Names(Frames(log))[..n])
  {
    var before, e := log[..|log| - 1], log[|log| - 1];
    var fs := Frames(before);
    if e.Open? && (n == |fs| + 1 || fs == []) {
      assert Names(Frames(log))[..n] == if n == |fs| + 1 then Names(fs) + [e.name] else [];
    } else {
      EnclosingOpened(before, n);
      assert Names(Frames(log))[..n] == Names(fs)[..n];
    }
  }

  /** The view v says about the log what it should: it holds exactly the opened
      call paths, and at each of them the summary of the scopes closed with that
      path, in total and since the last report. */
  ghost predicate Matches(v: TreeView, log: seq<Event>) {
    && v.frames == Frames(log)
    && (forall p :: p in v.nodes <==> PathOpened(log, p))
    && (forall p :: p in v.nodes ==> Summarises(v.nodes[p].total, Durations(log, p)))
    && (forall p :: p in v.nodes ==> Summarises(v.nodes[p].interval, RecentDurations(log, p)))
    && OpensSinceReport(log) <= Opens(log)
    && v.activity == Wrapped(Opens(log))
    && v.atReport == Wrapped(Opens(log) - OpensSinceReport(log))
  }

  /** Main result: the tree matches every well-nested log. Recursion under one
      name is no exception, since the path then repeats the name. */
  lemma {:induction false} TreeMatchesLog(log: seq<Event>)
    requires WellNested(log)
    ensures Matches(Run(log), log)
  {
    if log != [] {
      var before, e := log[..|log| - 1], log[|log| - 1];
      assert log == before + [e];
      TreeMatchesLog(before);
      StepMatches(Run(before), before, e);
    }
  }

  /** The tree looks inactive exactly when the number of scopes opened since its
      last report is a multiple of 2^64: in practice, when it is 0. */
  lemma InactiveIffNoOpens(v: TreeView, log: seq<Event>)
    requires Matches(v, log)
    ensures Inactive(v) <==> OpensSinceReport(log) % U64 == 0
  {
    WrappedPlus(Opens(log) - OpensSinceReport(log), OpensSinceReport(log));
  }

  lemma StepMatches(v: TreeView, before: seq<Event>, e: Event)
    requires Matches(v, before) && (e.Close? ==> v.frames != [])
    ensures Matches(Step(v, e), before + [e])
  {
    var v', log := Step(v, e), before + [e];
    if e.Close? { ActiveOpened(before); }
    StepCounts(v, before, e);
    forall p
      ensures p in v'.nodes <==> PathOpened(log, p)
      ensures p in v'.nodes ==> Summarises(v'.nodes[p].total, Durations(log, p))
      ensures p in v'.nodes ==> Summarises(v'.nodes[p].interval, RecentDurations(log, p))
    {
      StepMatchesAt(v, before, e, p);
    }
  }

  lemma StepCounts(v: TreeView, before: seq<Event>, e: Event)
    requires v.frames == Frames(before)
    requires e.Close? ==> v.frames != [] && Names(v.frames) in v.nodes
    requires OpensSinceReport(before) <= Opens(before)
    requires v.activity == Wrapped(Opens(before))
    requires v.atReport == Wrapped(Opens(before) - OpensSinceReport(before))
    ensures var v', log := Step(v, e), before + [e];
      && v'.frames == Frames(log)
      && OpensSinceReport(log) <= Opens(log)
      && v'.activity == Wrapped(Opens(log))
      && v'.atReport == Wrapped(Opens(log) - OpensSinceReport(log))
  {
    assert (before + [e])[..|before|] == before && Wrapped(1) == 1;
    WrappedPlus(Opens(before), 1);
    hide Wrapped, Plus, Names;
  }

  lemma StepMatchesAt(v: TreeView, before: seq<Event>, e: Event, p: Path)
    requires Matches(v, before) && (e.Close? ==> v.frames != [])
    ensures p in Step(v, e).nodes <==> PathOpened(before + [e], p)
    ensures p in Step(v, e).nodes ==> Summarises(Step(v, e).nodes[p].total, Durations(before + [e], p))
    ensures p in Step(v, e).nodes ==> Summarises(Step(v, e).nodes[p].interval, RecentDurations(before + [e], p))
  {
    hide Summarises, Names, Durations, RecentDurations;
    assert (before + [e])[..|before|] == before;
    UnopenedHasNoDurations(before);
    if v.nodes != map[] {
      var q :| q in v.nodes;
      RootOpened(before, q);
    }
    if e.Close? {
      ActiveOpened(before);
    }
    if p in Step(v, e).nodes { StepSummarises(v, before, e, p); }
  }

  lemma ActiveOpened(log: seq<Event>)
    requires Frames(log) != []
    ensures PathOpened(log, Names(Frames(log)))
  {
    EnclosingOpened(log, |Frames(log)|);
    assert Names(Frames(log))[..|Frames(log)|] == Names(Frames(log));
  }

  lemma {:induction false} RootOpened(log: seq<Event>, p: Path)
    requires PathOpened(log, p)
    ensures PathOpened(log, [])
  {
    if PathOpened(log[..|log| - 1], p) { RootOpened(log[..|log| - 1], p); }
  }

  lemma {:induction false} UnopenedHasNoDurations(log: seq<Event>)
    ensures forall p :: !PathOpened(log, p) ==> Durations(log, p) == [] && RecentDurations(log, p) == []
  {
    if log != [] {
      var before, e := log[..|log| - 1], log[|log| - 1];
      assert log == before + [e];
      UnopenedHasNoDurations(before);
      forall p | !PathOpened(log, p) ensures Durations(log, p) == [] && RecentDurations(log, p) == [] {
        if Frames(before) != [] {
          ActiveOpened(before);
        }
      }
    }
  }

  lemma NothingSummarised()
    ensures Summarises(NO_TOTALS, [])
  {}

  lemma StepSummarises(v: TreeView, before: seq<Event>, e: Event, p: Path)
    requires v.frames == Frames(before) && (e.Close? ==> v.frames != [] && Names(v.frames) in v.nodes)
    requires p in v.nodes ==> Summarises(v.nodes[p].total, Durations(before, p))
    requires p in v.nodes ==> Summarises(v.nodes[p].interval, RecentDurations(before, p))
    requires p !in v.nodes ==> Durations(before, p) == [] && RecentDurations(before, p) == []
    requires p in Step(v, e).nodes
    ensures Summarises(Step(v, e).nodes[p].total, Durations(before + [e], p))
    ensures Summarises(Step(v, e).nodes[p].interval, RecentDurations(before + [e], p))
  {
    hide Summarises, Frames, Names, Durations, RecentDurations;
    NothingSummarised();
    AppendDurations(before, e, p);
    if e.Close? && Names(v.frames) == p {
      var d := Elapsed(e.now, v.frames[|v.frames| - 1].start);
      CountSummarises(v.nodes[p].total, Durations(before, p), d);
      CountSummarises(v.nodes[p].interval, RecentDurations(before, p), d);
    }
  }

  lemma AppendDurations(before: seq<Event>, e: Event, p: Path)
    ensures Durations(before + [e], p) == Durations(before, p) + ClosedBy(before, e, p)
    ensures RecentDurations(before + [e], p) ==
      if e.Report? then [] else RecentDurations(before, p) + ClosedBy(before, e, p)
    ensures ClosedBy(before, e, p) == [] ==>
      Durations(before + [e], p) == Durations(before, p) &&
      (!e.Report? ==> RecentDurations(before + [e], p) == RecentDurations(before, p))
  {
    assert (before + [e])[..|before|] == before;
  }

  function LastOf(ds: seq<uint64>): uint64 {
    if ds == [] then 0 else ds[|ds| - 1]
  }

  /** The last duration that a node keeps is that of the last scope closed with its
      path. */
  lemma {:induction false} LastDeltaIs(log: seq<Event>, p: Path)
    requires WellNested(log) && p in Run(log).nodes
    ensures Run(log).nodes[p].lastDelta == LastOf(Durations(log, p))
  {
    if log != [] {
      var before, e := log[..|log| - 1], log[|log| - 1];
      assert log == before + [e] && Run(log) == Step(Run(before), e);
      assert WellNested(before) && (e.Close? ==> Frames(before) != []);
      hide Run, Step, Durations, ClosedBy, WellNested;
      InTree(before, p);
      if p in Run(before).nodes { LastDeltaIs(before, p); }
      LastDeltaStep(Run(before), before, e, p);
      AppendDurations(before, e, p);
      assert Durations(before, p) + [] == Durations(before, p);
    }
  }

  lemma InTree(log: seq<Event>, p: Path)
    requires WellNested(log)
    ensures var v := Run(log);
      && v.frames == Frames(log) && (v.frames != [] ==> Names(v.frames) in v.nodes)
      && (p !in v.nodes ==> Durations(log, p) == [])
  {
    hide Run, Frames, Summarises, Durations, RecentDurations;
    TreeMatchesLog(log);
    UnopenedHasNoDurations(log);
    if Frames(log) != [] { ActiveOpened(log); }
  }

  lemma LastDeltaStep(v: TreeView, before: seq<Event>, e: Event, p: Path)
    requires v.frames == Frames(before) && (e.Close? ==> v.frames != [] && Names(v.frames) in v.nodes)
    requires p in Step(v, e).nodes
    ensures Step(v, e).nodes[p].lastDelta ==
      if ClosedBy(before, e, p) != [] then LastOf(ClosedBy(before, e, p))
      else if p in v.nodes then v.nodes[p].lastDelta else 0
  {
    hide Elapsed, Frames, Names;
  }

  // ----------------------------------------------- reports partition the totals

  function Merge(a: Totals, b: Totals): Totals {
    Totals(Plus(a.time, b.time), Plus(a.count, b.count),
           if a.max < b.max then b.max else a.max,
           if a.min > b.min then b.min else a.min)
  }

  /** Everything that the reports so far have shown for path p, merged. What a
      report shows is in PerfReport. */
  function Reported(log: seq<Event>, p: Path): Totals {
    if log == [] then NO_TOTALS else
      var before := log[..|log| - 1];
      if log[|log| - 1].Report? && p in Run(before).nodes
      then Merge(Reported(before, p), Run(before).nodes[p].interval)
      else Reported(before, p)
  }

  /** Main result: the interval figures shown by the successive reports, merged
      with the running interval, give the total: no closed scope is shown in two
      intervals and none is missed. This needs no well-nesting. */
  lemma {:induction false} ReportsPartitionTotals(log: seq<Event>, p: Path)
    ensures Reported(log, p).min <= INITIAL_MIN_VALUE
    ensures p !in Run(log).nodes ==> Reported(log, p) == NO_TOTALS
    ensures p in Run(log).nodes ==>
      Run(log).nodes[p].total == Merge(Reported(log, p), Run(log).nodes[p].interval)
  {
    if log != [] {
      var before, e := log[..|log| - 1], log[|log| - 1];
      ReportsPartitionTotals(before, p);
      var v := Run(before);
      var r := Reported(before, p);
      if p in v.nodes {
        var i := v.nodes[p].interval;
        if e.Close? && v.frames != [] && Names(v.frames) == p {
          MergeCount(r, i, Elapsed(e.now, v.frames[|v.frames| - 1].start));
        }
      }
    }
  }

  lemma MergeCount(r: Totals, i: Totals, d: uint64)
    ensures Count(Merge(r, i), d) == Merge(r, Count(i, d))
  {
  }

  // ------------------------------------------------- nested calls as a program

  /** A finished run of a thread as nested calls: a call with the calls made
      inside it, followed by the calls made after it. */
  datatype Calls = Done | Call(name: string, start: uint64, end: uint64, inner: Calls, next: Calls)

  function Flatten(c: Calls): seq<Event> {
    match c
    case Done => []
    case Call(name, start, end, inner, next) =>
      [Open(name, start)] + Flatten(inner) + [Close(end)] + Flatten(next)
  }

  /** Durations of the calls made along p, in order of completion. */
  function CallDurations(c: Calls, p: Path): seq<uint64> {
    match c
    case Done => []
    case Call(name, start, end, inner, next) =>
      (if p == [] || p[0] != name then []
       else if |p| == 1 then [Elapsed(end, start)]
       else CallDurations(inner, p[1..]))
      + CallDurations(next, p)
  }

  predicate CallsReach(c: Calls, p: Path) {
    c.Call? && (p == [] || CallsReach(c.next, p)
                || (p[0] == c.name && (|p| == 1 || CallsReach(c.inner, p[1..]))))
  }

  /** What the calls c, made inside scopes named base, add at path p. */
  function Contribution(base: Path, c: Calls, p: Path): seq<uint64> {
    if base <= p then CallDurations(c, p[|base|..]) else []
  }

  predicate Reaches(base: Path, c: Calls, p: Path) {
    (p == [] && c.Call?) || (base < p && CallsReach(c, p[|base|..]))
  }

  lemma ContributionOfCall(base: Path, c: Calls, p: Path)
    requires c.Call?
    ensures Contribution(base, c, p) ==
      Contribution(base + [c.name], c.inner, p)
      + (if p == base + [c.name] then [Elapsed(c.end, c.start)] else [])
      + Contribution(base, c.next, p)
    ensures Reaches(base, c, p) <==>
      p == [] || p == base + [c.name] || Reaches(base + [c.name], c.inner, p) || Reaches(base, c.next, p)
  {
    NoEmptyPath(c.inner);
    NoEmptyPath(c.next);
    if base <= p {
      var rest := p[|base|..];
      assert p == base + rest;
      if rest != [] && rest[0] == c.name {
        assert base + [c.name] <= p && p[|base + [c.name]|..] == rest[1..];
        assert p == base + [c.name] <==> |rest| == 1;
      }
      assert base + [c.name] <= p ==> rest != [] && rest[0] == c.name;
    }
  }

  lemma NamesOfMore(frames: seq<Frame>, f: Frame)
    ensures Names(frames + [f]) == Names(frames) + [f.name]
  {}

  lemma {:induction false} CallsKeepFrames(log: seq<Event>, c: Calls)
    requires WellNested(log)
    ensures WellNested(log + Flatten(c))
    ensures Frames(log + Flatten(c)) == Frames(log)
    decreases c
  {
    match c
    case Done =>
      assert log + Flatten(c) == log;
    case Call(name, start, end, inner, next) =>
      var log1 := log + [Open(name, start)];
      Append(log, Open(name, start), []);
      CallsKeepFrames(log1, inner);
      var log3 := log1 + Flatten(inner) + [Close(end)];
      Append(log1 + Flatten(inner), Close(end), []);
      CallsKeepFrames(log3, next);
      ReassociateFive(log, [Open(name, start)], Flatten(inner), [Close(end)], Flatten(next));
  }

  /** A call as the log sees it: opened, its inner calls made, closed. */
  lemma CallUnfolds(log: seq<Event>, c: Calls, p: Path) returns (log1: seq<Event>, log3: seq<Event>)
    requires WellNested(log) && c.Call?
    ensures log + Flatten(c) == log3 + Flatten(c.next)
    ensures WellNested(log1) && WellNested(log3)
    ensures Names(Frames(log1)) == Names(Frames(log)) + [c.name]
    ensures Frames(log3) == Frames(log)
    ensures Durations(log1, p) == Durations(log, p)
    ensures Durations(log3, p) == Durations(log1 + Flatten(c.inner), p)
      + if p == Names(Frames(log)) + [c.name] then [Elapsed(c.end, c.start)] else []
    ensures PathOpened(log1, p) <==> PathOpened(log, p) || p == [] || p == Names(Frames(log)) + [c.name]
    ensures PathOpened(log3, p) <==> PathOpened(log1 + Flatten(c.inner), p)
  {
    hide Names;
    var enter, leave := Open(c.name, c.start), Close(c.end);
    log1 := log + [enter];
    Append(log, enter, p);
    CallsKeepFrames(log1, c.inner);
    var log2 := log1 + Flatten(c.inner);
    Append(log2, leave, p);
    log3 := log2 + [leave];
    ReassociateFive(log, [enter], Flatten(c.inner), [leave], Flatten(c.next));
    NamesOfMore(Frames(log), Frame(c.name, c.start));
    assert Frames(log2) == Frames(log) + [Frame(c.name, c.start)];
    assert ClosedBy(log2, leave, p)
        == if p == Names(Frames(log)) + [c.name] then [Elapsed(c.end, c.start)] else [];
    assert Durations(log, p) + [] == Durations(log, p);
  }

  lemma {:induction false} CallsAddDurations(log: seq<Event>, c: Calls, p: Path)
    requires WellNested(log)
    ensures Durations(log + Flatten(c), p) == Durations(log, p) + Contribution(Names(Frames(log)), c, p)
    decreases c
  {
    if c.Done? {
      assert log + Flatten(c) == log;
    } else {
      var base := Names(Frames(log));
      var log1, log3 := CallUnfolds(log, c, p);
      CallsAddDurations(log1, c.inner, p);
      CallsAddDurations(log3, c.next, p);
      ContributionOfCall(base, c, p);
      ReassociateFour(Durations(log, p), Contribution(base + [c.name], c.inner, p),
                      if p == base + [c.name] then [Elapsed(c.end, c.start)] else [], Contribution(base, c.next, p));
    }
  }

  lemma {:induction false} CallsOpenPaths(log: seq<Event>, c: Calls, p: Path)
    requires WellNested(log)
    ensures PathOpened(log + Flatten(c), p) <==>
              PathOpened(log, p) || Reaches(Names(Frames(log)), c, p)
    decreases c
  {
    if c.Done? {
      assert log + Flatten(c) == log;
    } else {
      var log1, log3 := CallUnfolds(log, c, p);
      CallsOpenPaths(log1, c.inner, p);
      CallsOpenPaths(log3, c.next, p);
      ContributionOfCall(Names(Frames(log)), c, p);
    }
  }

  lemma {:induction false} NoEmptyPath(c: Calls)
    ensures CallDurations(c, []) == []
  {
    if c.Call? { NoEmptyPath(c.next); }
  }

  lemma Append(log: seq<Event>, e: Event, p: Path)
    requires WellNested(log) && (e.Close? ==> Frames(log) != [])
    ensures WellNested(log + [e])
    ensures Durations(log + [e], p) == Durations(log, p) + ClosedBy(log, e, p)
    ensures Frames(log + [e]) == FramesAfter(Frames(log), e)
    ensures PathOpened(log + [e], p) <==>
              PathOpened(log, p) || (e.Open? && (p == [] || p == Names(Frames(log)) + [e.name]))
  {
    assert (log + [e])[..|log|] == log;
  }

  /** Main result: whatever calls a thread made, in any nesting and recursion,
      the tree built by running their opens and closes through the stack has a
      node for exactly the call paths of the program, each with the summary of
      the calls made along that path. */
  lemma ProfileOfCalls(c: Calls)
    ensures var v := Run(Flatten(c));
      && v.frames == []
      && (forall p :: p in v.nodes <==> CallsReach(c, p))
      && (forall p :: p in v.nodes ==> Summarises(v.nodes[p].total, CallDurations(c, p)))
  {
    hide Summarises, Flatten, Run, CallsReach;
    var log := Flatten(c);
    assert [] + log == log;
    CallsKeepFrames([], c);
    TreeMatchesLog(log);
    forall p
      ensures PathOpened(log, p) <==> CallsReach(c, p)
      ensures Durations(log, p) == CallDurations(c, p)
    {
      CallsFromRoot(c, p);
    }
  }

  lemma CallsFromRoot(c: Calls, p: Path)
    ensures PathOpened(Flatten(c), p) <==> CallsReach(c, p)
    ensures Durations(Flatten(c), p) == CallDurations(c, p)
  {
    assert [] + Flatten(c) == Flatten(c);
    CallsAddDurations([], c, p);
    CallsOpenPaths([], c, p);
    assert Names([]) == [] && p[0..] == p;
  }

  // --------------------------------------------------- calls and their stamps

  /** The calls made along p, in order of completion. */
  function CallsAlong(c: Calls, p: Path): seq<(uint64, uint64)> {
    match c
    case Done => []
    case Call(name, start, end, inner, next) =>
      (if p == [] || p[0] != name then []
       else if |p| == 1 then [(start, end)]
       else CallsAlong(inner, p[1..]))
      + CallsAlong(next, p)
  }

  /** Every duration is that of its call: start and duration give the end. */
  lemma {:induction false} DurationsAreOfCalls(c: Calls, p: Path)
    ensures var calls, ds := CallsAlong(c, p), CallDurations(c, p);
      && |ds| == |calls|
      && forall i :: 0 <= i < |ds| ==>
           && Plus(calls[i].0, ds[i]) == calls[i].1
           && (calls[i].0 <= calls[i].1 ==> ds[i] == calls[i].1 - calls[i].0)
  {
    hide Elapsed, Plus;
    if c.Call? {
      ElapsedIs(c.end, c.start);
      DurationsAreOfCalls(c.next, p);
      if |p| > 1 { DurationsAreOfCalls(c.inner, p[1..]); }
    }
  }

  /** The calls follow one another between lo and hi, and each has its inner calls
      within it, as on a clock that does not step back. */
  predicate Timed(c: Calls, lo: uint64, hi: uint64) {
    match c
    case Done => lo <= hi
    case Call(_, start, end, inner, next) => lo <= start && Timed(inner, start, end) && Timed(next, end, hi)
  }

  /** The time spent in the calls, without their inner calls. */
  function Spent(c: Calls): nat {
    if c.Done? then 0 else Elapsed(c.end, c.start) + Spent(c.next)
  }

  /** On such a clock the calls take no longer than there is time; so what is spent in
      the inner calls of a call is at most the duration booked for it. */
  lemma {:induction false} InnerCallsTakeLess(c: Calls, lo: uint64, hi: uint64)
    requires Timed(c, lo, hi)
    ensures lo <= hi && Spent(c) <= hi - lo
    ensures c.Call? ==> Spent(c.inner) <= Elapsed(c.end, c.start)
  {
    if c.Call? {
      InnerCallsTakeLess(c.inner, c.start, c.end);
      InnerCallsTakeLess(c.next, c.end, hi);
      ElapsedIs(c.end, c.start);
    }
  }
}
