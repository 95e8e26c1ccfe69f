/** What the reports of a process have shown of a thread's closed scopes, over whole
    runs in which trees come and go. */
module PerfShown {
  import opened PerfLog
  import opened PerfReport
  import opened PerfThreads
  import opened Sequences

  // ------------------------------------------------------------ what is shown

  /** The interval figures that the event shows for thread t at path p, when there
      are any: a thread report shows the thread's tree, a process report every tree
      that it has not dropped. */
  predicate Shows(v: ProcessView, e: ProcessEvent, t: Tid, p: Path) {
    && t in v && p in v[t].nodes
    && ((e.ReportProcess? && !Inactive(v[t])) || (e.ReportThread? && e.tid == t))
  }

  /** Everything that the reports of the run have shown for t at p, merged. */
  function Shown(log: seq<ProcessEvent>, t: Tid, p: Path): Totals {
    if log == [] then NO_TOTALS else
      var before, e := log[..|log| - 1], log[|log| - 1];
      var v := RunProcess(before);
      if Shows(v, e, t, p) then Merge(Shown(before, t, p), v[t].nodes[p].interval) else Shown(before, t, p)
  }

  /** The running interval: what the next report would show. */
  function Running(v: ProcessView, t: Tid, p: Path): Totals {
    if t in v && p in v[t].nodes then v[t].nodes[p].interval else NO_TOTALS
  }

  /** The durations of all scopes that t has closed with path p, whatever became of
      its trees. */
  function Closed(log: seq<ProcessEvent>, t: Tid, p: Path): seq<uint64> {
    if log == [] then [] else
      var before, e := log[..|log| - 1], log[|log| - 1];
      Closed(before, t, p) + ClosedIn(Scopes(before, t), e, t, p)
  }

  function ClosedIn(scopes: seq<Frame>, e: ProcessEvent, t: Tid, p: Path): seq<uint64> {
    if e.CloseIn? && e.tid == t && scopes != [] && Names(scopes) == p
    then [Elapsed(e.now, scopes[|scopes| - 1].start)] else []
  }

  /** Whenever t's tree is thrown away, nothing was closed with path p since its
      last report. */
  predicate DropsShown(log: seq<ProcessEvent>, t: Tid, p: Path) {
    log == [] ||
    var before, e := log[..|log| - 1], log[|log| - 1];
    DropsShown(before, t, p) && (Drops(Own(before, t), e, t) ==> RecentDurations(Own(before, t), p) == [])
  }

  // ------------------------------------------- where each closed scope has gone

  /** The durations behind the figures that were shown, and those that went with a
      tree before any report. */
  datatype Fate = Fate(shown: seq<uint64>, lost: seq<uint64>)

  function FateOf(log: seq<ProcessEvent>, t: Tid, p: Path): Fate {
    if log == [] then Fate([], []) else
      FateAfter(FateOf(log[..|log| - 1], t, p), Own(log[..|log| - 1], t), log[|log| - 1], t, p)
  }

  function FateAfter(f: Fate, own: seq<Event>, e: ProcessEvent, t: Tid, p: Path): Fate {
    if Drops(own, e, t) then f.(lost := f.lost + RecentDurations(own, p))
    else if e.ReportProcess? || (e.ReportThread? && e.tid == t) then f.(shown := f.shown + RecentDurations(own, p))
    else f
  }

  lemma {:induction false} LostIff(log: seq<ProcessEvent>, t: Tid, p: Path)
    ensures FateOf(log, t, p).lost == [] <==> DropsShown(log, t, p)
  {
    if log != [] { LostIff(log[..|log| - 1], t, p); }
  }

  /** Each of the closed scopes was shown, will be shown by the next report, or is
      lost, and is only one of these. When none is lost they are in order. */
  ghost predicate Accounted(closed: seq<uint64>, f: Fate, recent: seq<uint64>) {
    && multiset(closed) == multiset(f.shown) + multiset(f.lost) + multiset(recent)
    && (f.lost == [] ==> closed == f.shown + recent)
  }

  lemma {:induction false} EachHasItsFate(log: seq<ProcessEvent>, t: Tid, p: Path)
    requires ScopesPaired(log) && KeepsOpenTrees(log)
    ensures Accounted(Closed(log, t, p), FateOf(log, t, p), RecentDurations(Own(log, t), p))
  {
    hide RecentDurations, Own, OwnStep, FateAfter, ClosedIn, Accounted;
    if log == [] {
      NothingClosed(log, t, p);
    } else {
      var before, e := log[..|log| - 1], log[|log| - 1];
      EachHasItsFate(before, t, p);
      OwnUnfolds(log, t);
      ThreadsIsolated(before, t);
      FateGrows(Closed(before, t, p), FateOf(before, t, p), Own(before, t), e, t, p);
    }
  }

  lemma NothingClosed(log: seq<ProcessEvent>, t: Tid, p: Path)
    requires log == []
    ensures Accounted(Closed(log, t, p), FateOf(log, t, p), RecentDurations(Own(log, t), p))
  {}

  lemma OwnUnfolds(log: seq<ProcessEvent>, t: Tid)
    requires log != []
    ensures Own(log, t) == OwnStep(Own(log[..|log| - 1], t), log[|log| - 1], t)
  {}

  lemma FateGrows(closed: seq<uint64>, f: Fate, own: seq<Event>, e: ProcessEvent, t: Tid, p: Path)
    requires Accounted(closed, f, RecentDurations(own, p))
    ensures Accounted(closed + ClosedIn(Frames(own), e, t, p), FateAfter(f, own, e, t, p),
                      RecentDurations(OwnStep(own, e, t), p))
  {
    hide RecentDurations, OwnStep, ClosedIn, Drops, Accounted;
    FateStep(own, e, t, p);
    var recent := RecentDurations(own, p);
    RecentSettled(closed, f, recent);
    MoreRecent(closed, f, recent, ClosedIn(Frames(own), e, t, p));
  }

  lemma RecentSettled(closed: seq<uint64>, f: Fate, recent: seq<uint64>)
    requires Accounted(closed, f, recent)
    ensures Accounted(closed + [], f.(lost := f.lost + recent), [])
    ensures Accounted(closed + [], f.(shown := f.shown + recent), [])
  {
    assert closed + [] == closed && f.shown + [] == f.shown && f.shown + recent + [] == f.shown + recent;
  }

  lemma MoreRecent(closed: seq<uint64>, f: Fate, recent: seq<uint64>, more: seq<uint64>)
    requires Accounted(closed, f, recent)
    ensures Accounted(closed + more, f, recent + more)
  {
    Reassociate(f.shown, recent, more);
  }

  lemma FateStep(own: seq<Event>, e: ProcessEvent, t: Tid, p: Path)
    ensures var recent, after := RecentDurations(own, p), RecentDurations(OwnStep(own, e, t), p);
      if Drops(own, e, t) || e.ReportProcess? || (e.ReportThread? && e.tid == t)
      then ClosedIn(Frames(own), e, t, p) == [] && after == []
      else after == recent + ClosedIn(Frames(own), e, t, p)
  {
    hide RecentDurations, Elapsed, Names, OpensSinceReport, Frames;
    NothingRecent(p);
    assert RecentDurations(own, p) + [] == RecentDurations(own, p);
    if e.ReportProcess? || e.tid == t {
      match e
      case OpenIn(_, name, now) => AppendDurations(own, Open(name, now), p);
      case CloseIn(_, now) => AppendDurations(own, Event.Close(now), p);
      case _ => AppendDurations(own, Report, p);
    }
  }

  lemma NothingRecent(p: Path)
    ensures RecentDurations([], p) == [] && Frames([]) == [] && OpensSinceReport([]) == 0
  {}

  // ------------------------------------------------------------ the figures

  lemma {:induction false} SumJoin(a: seq<uint64>, b: seq<uint64>)
    ensures Sum(a + b) == Sum(a) + Sum(b)
  {
    if b == [] {
      assert a + b == a;
    } else {
      assert (a + b)[..|a + b| - 1] == a + b[..|b| - 1];
      SumJoin(a, b[..|b| - 1]);
    }
  }

  lemma MergeSummarises(a: Totals, b: Totals, x: seq<uint64>, y: seq<uint64>)
    requires Summarises(a, x) && Summarises(b, y)
    ensures Summarises(Merge(a, b), x + y)
  {
    SumJoin(x, y);
    WrappedPlus(Sum(x), Sum(y));
    WrappedPlus(|x|, |y|);
    hide Wrapped, Plus, Sum;
    assert forall d :: d in x + y <==> d in x || d in y;
  }

  /** In every run the running interval summarises what was closed since the last
      report. */
  lemma RunningSummarises(log: seq<ProcessEvent>, t: Tid, p: Path)
    requires ScopesPaired(log) && KeepsOpenTrees(log)
    ensures Summarises(Running(RunProcess(log), t, p), RecentDurations(Own(log, t), p))
    ensures !(t in RunProcess(log) && p in RunProcess(log)[t].nodes) ==> RecentDurations(Own(log, t), p) == []
  {
    hide Summarises, Durations;
    var own := Own(log, t);
    ThreadsIsolated(log, t);
    TreeMatchesLog(own);
    UnopenedHasNoDurations(own);
    NothingSummarised();
  }

  /** What was shown summarises the scopes that the fates call shown. */
  lemma {:induction false} ShownSummarises(log: seq<ProcessEvent>, t: Tid, p: Path)
    requires ScopesPaired(log) && KeepsOpenTrees(log)
    ensures Summarises(Shown(log, t, p), FateOf(log, t, p).shown)
  {
    hide Summarises, RunProcess, Own, RecentDurations, Shows, FateAfter, Merge;
    if log == [] {
      NothingSummarised();
    } else {
      var before, e := log[..|log| - 1], log[|log| - 1];
      ShownSummarises(before, t, p);
      RunningSummarises(before, t, p);
      ShowsWhatIsRecent(before, e, t, p);
      var f, recent := FateOf(before, t, p), RecentDurations(Own(before, t), p);
      if Shows(RunProcess(before), e, t, p) {
        MergeSummarises(Shown(before, t, p), Running(RunProcess(before), t, p), f.shown, recent);
      }
    }
  }

  lemma ShowsWhatIsRecent(before: seq<ProcessEvent>, e: ProcessEvent, t: Tid, p: Path)
    requires ScopesPaired(before) && KeepsOpenTrees(before)
    ensures var v, f := RunProcess(before), FateOf(before, t, p);
      var after, recent := FateAfter(f, Own(before, t), e, t, p), RecentDurations(Own(before, t), p);
      if Shows(v, e, t, p)
      then Running(v, t, p) == v[t].nodes[p].interval && after.shown == f.shown + recent
      else after.shown == f.shown
  {
    hide RunProcess, Own, RecentDurations, Summarises, FateOf, KeepsOpenTrees;
    RunningSummarises(before, t, p);
    DropsTheInactive(before, e, t);
    assert FateOf(before, t, p).shown + [] == FateOf(before, t, p).shown;
  }

  /** A report drops t's tree, or finds none, exactly when it shows nothing of it. */
  lemma DropsTheInactive(before: seq<ProcessEvent>, e: ProcessEvent, t: Tid)
    requires ScopesPaired(before) && KeepsOpenTrees(before)
    ensures var v, own := RunProcess(before), Own(before, t);
      && (t in v <==> own != [])
      && (e.ReportProcess? ==> (Drops(own, e, t) <==> t !in v || Inactive(v[t])))
      && (e.ReportThread? ==> !Drops(own, e, t))
  {
    hide RunProcess, Own, Matches;
    var v, own := RunProcess(before), Own(before, t);
    ThreadsIsolated(before, t);
    TreeMatchesLog(own);
    if t in v { InactiveIffNoOpens(v[t], own); }
  }

  // ------------------------------------------------------------ main result

  /** Main result, whole runs: what all reports have shown of a thread at a path,
      merged with its running interval, is the summary of all scopes that the thread
      has closed along that path, if and only if no tree was thrown away with one
      that was not shown. (2^64 scopes lost at once would not move a count.) */
  lemma ShownExactlyOnceIff(log: seq<ProcessEvent>, t: Tid, p: Path)
    requires ScopesPaired(log) && KeepsOpenTrees(log)
    ensures var figures := Merge(Shown(log, t, p), Running(RunProcess(log), t, p));
      && (DropsShown(log, t, p) ==> Summarises(figures, Closed(log, t, p)))
      && (|FateOf(log, t, p).lost| < U64 ==>
           (Summarises(figures, Closed(log, t, p)) <==> DropsShown(log, t, p)))
  {
    hide Shown, Running, RunProcess, Own, RecentDurations, Closed, FateOf, DropsShown, Merge;
    var f, recent := FateOf(log, t, p), RecentDurations(Own(log, t), p);
    var figures := Merge(Shown(log, t, p), Running(RunProcess(log), t, p));
    LostIff(log, t, p);
    EachHasItsFate(log, t, p);
    RunningSummarises(log, t, p);
    ShownSummarises(log, t, p);
    MergeSummarises(Shown(log, t, p), Running(RunProcess(log), t, p), f.shown, recent);
    assert |Closed(log, t, p)| == |multiset(Closed(log, t, p))| == |f.shown + recent| + |f.lost|;
    if Summarises(figures, Closed(log, t, p)) {
      CountsApart(|f.shown + recent|, |f.lost|);
    }
  }

  lemma CountsApart(n: nat, k: nat)
    ensures Wrapped(n + k) == Wrapped(n) ==> k % U64 == 0
  {
    var q, r := (n + k) / U64, n / U64;
    assert n + k == q * U64 + (n + k) % U64 && n == r * U64 + n % U64;
    if Wrapped(n + k) == Wrapped(n) {
      assert k == (q - r) * U64;
      QuotientRemainder(q - r, 0);
    }
  }

  // -------------------------------------------------------- how it can fail

  /** A scope that is closed after a process report is shown by no report when the
      thread opens nothing more before the next: that one drops the tree first. */
  lemma ClosedScopeUnshown(t: Tid, name: string, start: uint64, end: uint64)
    ensures var log := UnshownRun(t, name, start, end);
      && ScopesPaired(log) && KeepsOpenTrees(log)
      && Closed(log, t, [name]) == [Elapsed(end, start)] && !DropsShown(log, t, [name])
      && t !in RunProcess(log) && Shown(log, t, [name]) == NO_TOTALS
  {
    hide *;
    var log := UnshownRun(t, name, start, end);
    UnshownHistory(t, name, start, end);
    LostIff(log, t, [name]);
    ThreadsIsolated(log, t);
    NotIn(RunProcess(log), Own(log, t), Scopes(log, t), t);
    ShownSummarises(log, t, [name]);
    NothingSummarised();
    SummaryUnique(Shown(log, t, [name]), NO_TOTALS, []);
  }

  lemma NotIn(v: ProcessView, own: seq<Event>, scopes: seq<Frame>, t: Tid)
    requires Isolated(v, own, scopes, t) && own == []
    ensures t !in v
  {}

  /** The run's log, and the thread's own events in it. */
  function UnshownRun(t: Tid, name: string, start: uint64, end: uint64): seq<ProcessEvent> {
    [OpenIn(t, name, start), ReportProcess, CloseIn(t, end), ReportProcess]
  }

  function UnshownOwn(name: string, start: uint64, end: uint64): seq<Event> {
    [Open(name, start), Report, Event.Close(end)]
  }

  lemma UnshownHistory(t: Tid, name: string, start: uint64, end: uint64)
    ensures var log := UnshownRun(t, name, start, end);
      && ScopesPaired(log) && KeepsOpenTrees(log) && Own(log, t) == []
      && Closed(log, t, [name]) == [Elapsed(end, start)]
      && FateOf(log, t, [name]) == Fate([], [Elapsed(end, start)])
  {
    hide RunProcess, Elapsed, Own, Scopes, RecentDurations, OpensSinceReport, Names;
    var log, own := UnshownRun(t, name, start, end), UnshownOwn(name, start, end);
    assert log[..4][..3] == log[..3] && log[..3][..2] == log[..2] && log[..2][..1] == log[..1];
    assert log[..1][..0] == log[..0] == [] && log[..4] == log && own[..3] == own;
    OwnFacts(name, start, end);
    OwnAlong(t, name, start, end);
    forall u: Tid ensures u != t ==> Scopes(log[..1], u) == [] == Scopes(log[..3], u) {
      if u != t { OthersAlong(t, u, name, start, end); }
    }
    assert KeepsOpenTrees(log[..1]);
    assert KeepsOpenTrees(log[..2]);
    assert KeepsOpenTrees(log[..3]);
    assert ScopesPaired(log[..1]);
    assert ScopesPaired(log[..2]);
    assert ScopesPaired(log[..3]);
    assert Closed(log[..1], t, [name]) == [] && FateOf(log[..1], t, [name]) == Fate([], []);
    assert Closed(log[..2], t, [name]) == [] && FateOf(log[..2], t, [name]) == Fate([], []);
    assert Closed(log[..3], t, [name]) == [Elapsed(end, start)] && FateOf(log[..3], t, [name]) == Fate([], []);
  }

  lemma OwnAlong(t: Tid, name: string, start: uint64, end: uint64)
    ensures var log, own := UnshownRun(t, name, start, end), UnshownOwn(name, start, end);
      && (forall n :: 0 <= n <= 3 ==> Own(log[..n], t) == own[..n]) && Own(log, t) == []
      && Scopes(log[..0], t) == [] && Scopes(log[..1], t) == Scopes(log[..2], t) == [Frame(name, start)]
      && Scopes(log[..3], t) == [] && Names([Frame(name, start)]) == [name]
  {
    hide OpensSinceReport;
    var log, own := UnshownRun(t, name, start, end), UnshownOwn(name, start, end);
    OwnFacts(name, start, end);
    assert log[..3][..2] == log[..2] && log[..2][..1] == log[..1] && log[..1][..0] == log[..0] == [];
    assert own[..0] == [] && own[..1] == [own[0]] && own[..2] == own[..1] + [Report] && own[..3] == own;
    assert own == own[..2] + [Event.Close(end)];
    assert Own(log[..0], t) == [];
    assert Own(log[..1], t) == own[..1];
    assert Own(log[..2], t) == own[..2];
    assert Own(log[..3], t) == own[..3];
  }

  lemma OwnFacts(name: string, start: uint64, end: uint64)
    ensures var own := UnshownOwn(name, start, end);
      && OpensSinceReport(own[..1]) % U64 == 1 && OpensSinceReport(own) % U64 == 0
      && RecentDurations(own[..1], [name]) == [] && RecentDurations(own, [name]) == [Elapsed(end, start)]
  {
    hide Elapsed;
    var own := UnshownOwn(name, start, end);
    assert own[..2][..1] == own[..1] && own[..1][..0] == [] && own[..3] == own;
    assert Names([Frame(name, start)]) == [name];
    assert Frames(own[..1]) == [Frame(name, start)];
    assert Frames(own[..2]) == [Frame(name, start)];
    assert OpensSinceReport(own[..1]) == 1 && OpensSinceReport(own[..2]) == 0;
    assert RecentDurations(own[..2], [name]) == [];
  }

  lemma OthersAlong(t: Tid, u: Tid, name: string, start: uint64, end: uint64)
    requires u != t
    ensures var log := UnshownRun(t, name, start, end);
      Scopes(log[..1], u) == [] == Scopes(log[..3], u)
  {
    var log := UnshownRun(t, name, start, end);
    assert log[..3][..2] == log[..2] && log[..2][..1] == log[..1] && log[..1][..0] == [];
    assert log[..3][2] == log[2] && log[..2][1] == log[1] && log[..1][0] == log[0];
    assert Scopes(log[..1], u) == [];
    assert Scopes(log[..2], u) == [];
  }

  // ------------------------------------------------------- the printed lines

  /** The lines of a report carry the figures that are then shown. */
  lemma LinesShow(lines: seq<Line>, log: seq<ProcessEvent>, e: ProcessEvent, t: Tid, p: Path) returns (i: nat)
    requires Shows(RunProcess(log), e, t, p) && IsReport(lines, RunProcess(log)[t].nodes)
    ensures i < |lines| && lines[i].Full? && lines[i].level == |p|
    ensures lines[i].name == if p == [] then "root_node" else p[|p| - 1]
    ensures Shown(log + [e], t, p) == Merge(Shown(log, t, p), lines[i].interval)
  {
    hide RunProcess, AllInOrder, Prints, Merge;
    var nodes := RunProcess(log)[t].nodes;
    var shown :| AllInOrder(shown, nodes) && Prints(lines, shown, nodes, 0, [], false);
    i := LineFor(lines, shown, nodes, p);
    assert (log + [e])[..|log|] == log;
  }
}
