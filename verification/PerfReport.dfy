/** What a report of a tree prints: one line for each node, a node before its
    children, and the children of a node in the order of their names. */
module PerfReport {
  import opened PerfLog

  // --------------------------------------------------------------- the order

  /** The order of names in the map of children: by the first character that
      differs, a prefix first. */
  predicate Before(a: string, b: string) {
    b != "" && (a == "" || a[0] < b[0] || (a[0] == b[0] && Before(a[1..], b[1..])))
  }

  lemma {:induction false} BeforeIsOrder(a: string, b: string)
    ensures !(Before(a, b) && Before(b, a)) && !Before(a, a)
    ensures a == b || Before(a, b) || Before(b, a)
  {
    if a != "" { BeforeIsOrder(a[1..], if b == "" then "" else b[1..]); }
    if a != "" && b != "" && a[0] == b[0] && a[1..] == b[1..] {
      assert a == [a[0]] + a[1..] && b == [b[0]] + b[1..];
    }
  }

  /** The names agree up to place i, and there a ends or has the smaller character. */
  predicate DifferAt(a: string, b: string, i: nat) {
    i <= |a| && i < |b| && a[..i] == b[..i] && (i == |a| || a[i] < b[i])
  }

  lemma {:induction false} BeforeDiffers(a: string, b: string) returns (i: nat)
    requires Before(a, b)
    ensures DifferAt(a, b, i)
  {
    i := 0;
    if a != "" && a[0] == b[0] {
      var j := BeforeDiffers(a[1..], b[1..]);
      i := j + 1;
      assert a == [a[0]] + a[1..] && b == [b[0]] + b[1..];
      assert a[..i] == [a[0]] + a[1..][..j] && b[..i] == [b[0]] + b[1..][..j];
    }
  }

  lemma {:induction false} DifferBefore(a: string, b: string, i: nat)
    requires DifferAt(a, b, i)
    ensures Before(a, b)
    decreases i
  {
    if i > 0 {
      assert a[..i][0] == a[0] && b[..i][0] == b[0];
      assert a[1..][..i - 1] == a[..i][1..] && b[1..][..i - 1] == b[..i][1..];
      DifferBefore(a[1..], b[1..], i - 1);
    }
  }

  /** The order of names is by the first place where they differ. */
  lemma BeforeIff(a: string, b: string)
    ensures Before(a, b) <==> exists i: nat :: DifferAt(a, b, i)
  {
    if Before(a, b) {
      var i := BeforeDiffers(a, b);
    } else if i: nat :| DifferAt(a, b, i) {
      DifferBefore(a, b, i);
    }
  }

  lemma {:induction false} BeforeTransitive(a: string, b: string, c: string)
    requires Before(a, b) && Before(b, c)
    ensures Before(a, c)
  {
    if a != "" && a[0] == b[0] == c[0] { BeforeTransitive(a[1..], b[1..], c[1..]); }
  }

  lemma {:induction false} FirstName(names: set<string>) returns (first: string)
    requires names != {}
    ensures first in names && forall k <- names :: k == first || Before(first, k)
    decreases |names|
  {
    first :| first in names;
    var rest := names - {first};
    assert forall k <- names :: k == first || k in rest;
    if rest != {} {
      var other := FirstName(rest);
      BeforeIsOrder(first, other);
      if Before(other, first) {
        first := other;
      } else {
        forall k | k in names ensures k == first || Before(first, k) {
          if k != first && k != other { BeforeTransitive(first, other, k); }
        }
      }
    }
  }

  /** The same order for paths: a path comes before the paths below it, and what is
      below one child before what is below a later one. */
  predicate PathBefore(a: Path, b: Path) {
    b != [] && (a == [] || Before(a[0], b[0]) || (a[0] == b[0] && PathBefore(a[1..], b[1..])))
  }

  lemma {:induction false} PathBeforeStrict(a: Path, b: Path)
    ensures !(PathBefore(a, b) && PathBefore(b, a))
  {
    if a != [] && b != [] {
      BeforeIsOrder(a[0], b[0]);
      PathBeforeStrict(a[1..], b[1..]);
    }
  }

  lemma {:induction false} AboveIsBefore(p: Path, q: Path)
    requires p < q
    ensures PathBefore(p, q)
  {
    if p != [] { AboveIsBefore(p[1..], q[1..]); }
  }

  lemma {:induction false} EarlierBranch(p: Path, q: Path, r: Path)
    requires p < q && p < r && Before(q[|p|], r[|p|])
    ensures PathBefore(q, r)
  {
    if p != [] { EarlierBranch(p[1..], q[1..], r[1..]); }
  }

  predicate InOrder(shown: seq<Path>) {
    forall i, j :: 0 <= i < j < |shown| ==> PathBefore(shown[i], shown[j])
  }

  lemma InOrderJoin(a: seq<Path>, b: seq<Path>)
    requires InOrder(a) && InOrder(b) && forall q <- a, r <- b :: PathBefore(q, r)
    ensures InOrder(a + b)
  {
    forall i, j | 0 <= i < j < |a + b| ensures PathBefore((a + b)[i], (a + b)[j]) {
      if i < |a| <= j { assert (a + b)[i] in a && (a + b)[j] in b; }
    }
  }

  lemma {:induction false} OrderUnique(a: seq<Path>, b: seq<Path>)
    requires InOrder(a) && InOrder(b) && forall q :: q in a <==> q in b
    ensures a == b
  {
    assert (a != [] ==> a[0] in a) && (b != [] ==> b[0] in b);
    if a != [] && b != [] {
      assert a[0] in b && b[0] in a;
      var i :| 0 <= i < |a| && a[i] == b[0];
      var j :| 0 <= j < |b| && b[j] == a[0];
      PathBeforeStrict(a[0], b[0]);
      assert a[0] == b[0];
      forall q ensures q in a[1..] <==> q in b[1..] {
        NotAgain(a);
        NotAgain(b);
        assert q in a <==> q == a[0] || q in a[1..];
        assert q in b <==> q == b[0] || q in b[1..];
      }
      OrderUnique(a[1..], b[1..]);
      assert a == [a[0]] + a[1..] && b == [b[0]] + b[1..];
    }
  }

  lemma NotAgain(a: seq<Path>)
    requires a != [] && InOrder(a)
    ensures a[0] !in a[1..]
  {
    PathBeforeStrict(a[0], a[0]);
  }

  // --------------------------------------------------------------- the lines

  /** A full line shows both summaries, a line of a delta report the last duration. */
  datatype Line =
    | Full(level: nat, name: string, total: Totals, interval: Totals)
    | Delta(level: nat, name: string, last: uint64)

  function LineOf(level: nat, name: string, s: TimingStats, onlyDelta: bool): Line {
    if onlyDelta then Delta(level, name, s.lastDelta) else Full(level, name, s.total, s.interval)
  }

  function NameOf(p: Path): string {
    if p == [] then "root_node" else p[|p| - 1]
  }

  /** The lines show the nodes at these paths, which are at or below p; p itself is
      at the given level. */
  predicate Prints(lines: seq<Line>, shown: seq<Path>, nodes: map<Path, TimingStats>,
                   level: nat, p: Path, onlyDelta: bool) {
    |lines| == |shown| && forall i :: 0 <= i < |shown| ==>
      && shown[i] in nodes && p <= shown[i]
      && lines[i] == LineOf(level + |shown[i]| - |p|, NameOf(shown[i]), nodes[shown[i]], onlyDelta)
  }

  /** The paths of all nodes, in the order of a report. */
  ghost predicate AllInOrder(shown: seq<Path>, nodes: map<Path, TimingStats>) {
    InOrder(shown) && forall q :: q in shown <==> q in nodes
  }

  /** The full report of a tree. */
  ghost predicate IsReport(lines: seq<Line>, nodes: map<Path, TimingStats>) {
    exists shown :: AllInOrder(shown, nodes) && Prints(lines, shown, nodes, 0, [], false)
  }

  lemma AllInOrderUnique(s: seq<Path>, t: seq<Path>, nodes: map<Path, TimingStats>)
    requires AllInOrder(s, nodes) && AllInOrder(t, nodes)
    ensures s == t
  {
    OrderUnique(s, t);
  }

  lemma PrintsUnique(a: seq<Line>, b: seq<Line>, shown: seq<Path>, nodes: map<Path, TimingStats>)
    requires Prints(a, shown, nodes, 0, [], false) && Prints(b, shown, nodes, 0, [], false)
    ensures a == b
  {
    hide NameOf;
  }

  /** A tree has one report. */
  lemma ReportUnique(a: seq<Line>, b: seq<Line>, nodes: map<Path, TimingStats>)
    requires IsReport(a, nodes) && IsReport(b, nodes)
    ensures a == b
  {
    hide AllInOrder, Prints;
    var s :| AllInOrder(s, nodes) && Prints(a, s, nodes, 0, [], false);
    var t :| AllInOrder(t, nodes) && Prints(b, t, nodes, 0, [], false);
    AllInOrderUnique(s, t, nodes);
    PrintsUnique(a, b, s, nodes);
  }

  lemma LineFor(lines: seq<Line>, shown: seq<Path>, nodes: map<Path, TimingStats>, p: Path) returns (i: nat)
    requires AllInOrder(shown, nodes) && Prints(lines, shown, nodes, 0, [], false) && p in nodes
    ensures i < |lines| && lines[i] == Full(|p|, NameOf(p), nodes[p].total, nodes[p].interval)
  {
    hide InOrder, NameOf;
    assert p in shown;
    i :| 0 <= i < |shown| && shown[i] == p;
  }

  /** In the life of one tree a report shows, for every path, the interval figures that
      the report after it must not show again: those that Reported merges. What is
      shown over whole runs, in which trees are dropped, is in PerfShown. */
  lemma ReportShows(lines: seq<Line>, log: seq<Event>, p: Path) returns (i: nat)
    requires IsReport(lines, Run(log).nodes) && p in Run(log).nodes
    ensures i < |lines| && lines[i] == Full(|p|, NameOf(p), Run(log).nodes[p].total, Run(log).nodes[p].interval)
    ensures lines[i].name == if p == [] then "root_node" else p[|p| - 1]
    ensures Reported(log + [Report], p) == Merge(Reported(log, p), lines[i].interval)
  {
    hide Run, AllInOrder, Prints, Merge;
    var nodes := Run(log).nodes;
    var shown :| AllInOrder(shown, nodes) && Prints(lines, shown, nodes, 0, [], false);
    i := LineFor(lines, shown, nodes, p);
    assert (log + [Report])[..|log|] == log;
  }
}
