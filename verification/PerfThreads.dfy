/** Many threads under the one global lock: each constructor and destructor of a
    scope, and each report, is one atomic step on the map from threads to trees. */
module PerfThreads {
  import opened PerfLog

  type Tid = nat

  datatype ProcessEvent =
    | OpenIn(tid: Tid, name: string, now: uint64)
    | CloseIn(tid: Tid, now: uint64)
    | ReportProcess
    | ReportThread(tid: Tid)
    | CloseThread(tid: Tid)

  type ProcessView = map<Tid, TreeView>

  /** Closing a scope of a thread without a tree is undefined in the program;
      it leaves the view alone here. */
  function ProcessStep(v: ProcessView, e: ProcessEvent): ProcessView {
    match e
    case OpenIn(t, name, now) => v[t := Step(if t in v then v[t] else EMPTY_TREE, Open(name, now))]
    case CloseIn(t, now) => if t in v then v[t := Step(v[t], Close(now))] else v
    case ReportProcess => map t | t in v && !Inactive(v[t]) :: Step(v[t], Report)
    case ReportThread(t) => if t in v then v[t := Step(v[t], Report)] else v
    case CloseThread(t) => v - {t}
  }

  function RunProcess(log: seq<ProcessEvent>): ProcessView {
    if log == [] then map[] else ProcessStep(RunProcess(log[..|log| - 1]), log[|log| - 1])
  }

  /** The thread's own events since its tree was last thrown away. */
  function Own(log: seq<ProcessEvent>, t: Tid): seq<Event> {
    if log == [] then [] else OwnStep(Own(log[..|log| - 1], t), log[|log| - 1], t)
  }

  function OwnStep(own: seq<Event>, e: ProcessEvent, t: Tid): seq<Event> {
    match e
    case OpenIn(u, name, now) => if u == t then own + [Open(name, now)] else own
    case CloseIn(u, now) => if u == t && own != [] then own + [Close(now)] else own
    case ReportProcess => if OpensSinceReport(own) % U64 == 0 then [] else own + [Report]
    case ReportThread(u) => if u == t && own != [] then own + [Report] else own
    case CloseThread(u) => if u == t then [] else own
  }

  /** The scopes the thread really has open: scope objects live on its stack, and
      what happens to its tree does not change them. */
  function Scopes(log: seq<ProcessEvent>, t: Tid): seq<Frame> {
    if log == [] then [] else ScopesAfter(Scopes(log[..|log| - 1], t), log[|log| - 1], t)
  }

  function ScopesAfter(scopes: seq<Frame>, e: ProcessEvent, t: Tid): seq<Frame> {
    match e
    case OpenIn(u, name, now) => if u == t then scopes + [Frame(name, now)] else scopes
    case CloseIn(u, _) => if u == t && scopes != [] then scopes[..|scopes| - 1] else scopes
    case _ => scopes
  }

  /** A scope object is destroyed only while it exists. */
  predicate ScopesPaired(log: seq<ProcessEvent>) {
    log == [] ||
    var before, e := log[..|log| - 1], log[|log| - 1];
    ScopesPaired(before) && (e.CloseIn? ==> Scopes(before, e.tid) != [])
  }

  predicate Drops(own: seq<Event>, e: ProcessEvent, t: Tid) {
    (e.ReportProcess? && OpensSinceReport(own) % U64 == 0) || (e.CloseThread? && e.tid == t)
  }

  /** No tree is thrown away under an open scope. */
  ghost predicate KeepsOpenTrees(log: seq<ProcessEvent>) {
    log == [] ||
    var before, e := log[..|log| - 1], log[|log| - 1];
    KeepsOpenTrees(before) && forall t: Tid :: Drops(Own(before, t), e, t) ==> Scopes(before, t) == []
  }

  /** Thread t's tree in v is the one its own events build, and its active path
      is the chain of scopes the thread really has open. */
  ghost predicate Isolated(v: ProcessView, own: seq<Event>, scopes: seq<Frame>, t: Tid) {
    && WellNested(own)
    && (t in v <==> own != [])
    && (t in v ==> v[t] == Run(own))
    && Frames(own) == scopes
  }

  /** Main result: in any interleaving, each thread's tree is the one built from
      that thread's own events alone. */
  lemma {:induction false} ThreadsIsolated(log: seq<ProcessEvent>, t: Tid)
    requires ScopesPaired(log) && KeepsOpenTrees(log)
    ensures Isolated(RunProcess(log), Own(log, t), Scopes(log, t), t)
  {
    if log != [] {
      var before, e := log[..|log| - 1], log[|log| - 1];
      ThreadsIsolated(before, t);
      assert Drops(Own(before, t), e, t) ==> Scopes(before, t) == [];
      StepIsolated(RunProcess(before), Own(before, t), e, t);
    }
  }

  lemma StepIsolated(v: ProcessView, own: seq<Event>, e: ProcessEvent, t: Tid)
    requires Isolated(v, own, Frames(own), t)
    requires e.CloseIn? && e.tid == t ==> Frames(own) != []
    requires Drops(own, e, t) ==> Frames(own) == []
    ensures var own' := OwnStep(own, e, t);
      && Isolated(ProcessStep(v, e), own', Frames(own'), t)
      && Frames(own') == ScopesAfter(Frames(own), e, t)
  {
    if e.ReportProcess? {
      TreeMatchesLog(own);
      InactiveIffNoOpens(Run(own), own);
      Extend(own, Report);
    } else if e.tid == t && !e.CloseThread? {
      Extend(own, if e.OpenIn? then Open(e.name, e.now) else if e.CloseIn? then Close(e.now) else Report);
    }
  }

  lemma Extend(own: seq<Event>, x: Event)
    requires WellNested(own) && (x.Close? ==> Frames(own) != [])
    ensures WellNested(own + [x])
    ensures Run(own + [x]) == Step(Run(own), x)
    ensures Frames(own + [x]) == FramesAfter(Frames(own), x)
  {
    Append(own, x, []);
    assert (own + [x])[..|own|] == own;
  }

  /** Every open scope of every thread still has its tree, with that scope on
      the tree's active path. */
  ghost predicate OpenScopesHaveTrees(log: seq<ProcessEvent>) {
    var v := RunProcess(log);
    forall t: Tid :: Scopes(log, t) != [] ==> t in v && v[t].frames == Scopes(log, t)
  }

  /** The exact condition: the open scopes keep their trees at every point of a
      run if and only if no tree is thrown away under an open scope. */
  lemma {:induction false} OpenScopesSafeIff(log: seq<ProcessEvent>)
    requires ScopesPaired(log)
    ensures KeepsOpenTrees(log) <==> forall n :: 0 <= n <= |log| ==> OpenScopesHaveTrees(log[..n])
  {
    assert log[..|log|] == log;
    if KeepsOpenTrees(log) {
      KeptIsSafe(log);
    }
    if log != [] {
      var before, e := log[..|log| - 1], log[|log| - 1];
      forall n | 0 <= n <= |before| ensures before[..n] == log[..n] {}
      OpenScopesSafeIff(before);
      if KeepsOpenTrees(before) && !KeepsOpenTrees(log) {
        var t: Tid :| Drops(Own(before, t), e, t) && Scopes(before, t) != [];
        ThreadsIsolated(before, t);
        TreeMatchesLog(Own(before, t));
        InactiveIffNoOpens(Run(Own(before, t)), Own(before, t));
        assert t !in RunProcess(log) && Scopes(log, t) != [];
        assert !OpenScopesHaveTrees(log[..|log|]);
      }
    }
  }

  lemma {:induction false} KeptIsSafe(log: seq<ProcessEvent>)
    requires ScopesPaired(log) && KeepsOpenTrees(log)
    ensures forall n :: 0 <= n <= |log| ==> OpenScopesHaveTrees(log[..n])
  {
    forall t: Tid | Scopes(log, t) != [] ensures t in RunProcess(log) && RunProcess(log)[t].frames == Scopes(log, t) {
      ThreadsIsolated(log, t);
      TreeMatchesLog(Own(log, t));
    }
    assert log[..|log|] == log;
    if log != [] {
      var before := log[..|log| - 1];
      forall n | 0 <= n <= |before| ensures before[..n] == log[..n] {}
      KeptIsSafe(before);
    }
  }

  /** A scope over two process reports. */
  function LongRun(t: Tid, name: string, now: uint64): (log: seq<ProcessEvent>)
    ensures |log| == 3
  {
    [OpenIn(t, name, now), ReportProcess, ReportProcess]
  }

  /** The condition can fail: a scope that stays open over two process reports
      without a new one beside it loses its tree at the second. */
  lemma LongScopeLosesTree(t: Tid, name: string, now: uint64)
    ensures var log := LongRun(t, name, now);
      ScopesPaired(log) && !KeepsOpenTrees(log) && Scopes(log, t) != [] && t !in RunProcess(log)
  {
    hide *;
    var log := LongRun(t, name, now);
    var before := log[..2];
    LongHistory(t, name, now);
    ThreadsIsolated(before, t);
    DropsInactive(RunProcess(before), Own(before, t), Scopes(before, t), t);
    LastReportDrops(t, name, now);
  }

  lemma DropsInactive(v: ProcessView, own: seq<Event>, scopes: seq<Frame>, t: Tid)
    requires Isolated(v, own, scopes, t) && OpensSinceReport(own) % U64 == 0
    ensures t !in ProcessStep(v, ReportProcess)
  {
    hide Run, Matches;
    TreeMatchesLog(own);
    if t in v { InactiveIffNoOpens(v[t], own); }
  }

  lemma LastReportDrops(t: Tid, name: string, now: uint64)
    ensures var log := LongRun(t, name, now);
      RunProcess(log) == ProcessStep(RunProcess(log[..2]), ReportProcess)
  {
    hide ProcessStep;
    var log := LongRun(t, name, now);
    assert log[..|log| - 1] == log[..2];
  }

  lemma LongHistory(t: Tid, name: string, now: uint64)
    ensures var log := LongRun(t, name, now);
      && ScopesPaired(log) && ScopesPaired(log[..2]) && KeepsOpenTrees(log[..2]) && !KeepsOpenTrees(log)
      && OpensSinceReport(Own(log[..2], t)) % U64 == 0 && Scopes(log, t) != []
  {
    hide RunProcess;
    var log, own := LongRun(t, name, now), [Open(name, now)];
    var log1, log2 := log[..1], log[..2];
    assert log[..|log| - 1] == log2 && log2[..1] == log1 && log1[..0] == [];
    assert own[..0] == [] && (own + [Report])[..1] == own;
    assert OpensSinceReport(own) == 1 && 1 % U64 == 1;
    assert OpensSinceReport(own + [Report]) == 0 && 0 % U64 == 0;
    assert Own(log1, t) == own by { assert Own(log1[..0], t) == []; }
    assert Own(log2, t) == own + [Report];
    assert Scopes(log1, t) == [Frame(name, now)] by { assert Scopes(log1[..0], t) == []; }
    assert Scopes(log2, t) == Scopes(log1, t);
    assert Drops(Own(log2, t), ReportProcess, t);
    forall u: Tid ensures u != t ==> Scopes(log1, u) == [] { assert Scopes(log1[..0], u) == []; }
    assert ScopesPaired(log1[..0]) && KeepsOpenTrees(log1[..0]);
    assert ScopesPaired(log1);
    assert ScopesPaired(log2);
    assert KeepsOpenTrees(log1);
  }
}
