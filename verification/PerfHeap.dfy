/** The profiler's objects: nodes linked through maps of children, one tree with
    a stack of active nodes per thread, and the process's map of trees. Every
    operation is proved to take the step that PerfLog and PerfThreads give it. */
module PerfHeap {
  import opened PerfLog
  import opened PerfReport
  import opened PerfThreads

  type Pid = int

  function Child(p: Path, k: string): Path {
    p + [k]
  }

  function Parent(p: Path): Path
    requires p != []
  {
    p[..|p| - 1]
  }

  /** The links kids form one finite tree over the paths of T: a node for every
      path in T, a single path to every node, no links but the tree's own. */
  ghost predicate TreeShaped(T: map<Path, PerfNode>, kids: map<Path, map<string, PerfNode>>) {
    && [] in T && kids.Keys == T.Keys
    && (forall p, q :: p in T && q in T && T[p] == T[q] ==> p == q)
    && (forall p {:trigger Parent(p)} :: p in T && p != [] ==> Parent(p) in T)
    && (forall p, k {:trigger Child(p, k)} :: p in T ==> (k in kids[p] <==> Child(p, k) in T))
    && (forall p, k {:trigger Child(p, k)} :: p in T && k in kids[p] ==> kids[p][k] == T[Child(p, k)])
  }

  /** The same of the nodes in T as they are linked now. */
  ghost predicate IsTree(T: map<Path, PerfNode>)
    reads T.Values`childNodes, T.Values`nodeInTree
  {
    && [] in T
    && (forall p, q :: p in T && q in T && T[p] == T[q] ==> p == q)
    && (forall p {:trigger Parent(p)} :: p in T && p != [] ==> Parent(p) in T)
    && (forall p, k {:trigger Child(p, k)} :: p in T ==> (k in T[p].childNodes <==> Child(p, k) in T))
    && (forall p, k {:trigger Child(p, k)} :: p in T && k in T[p].childNodes ==>
          T[p].childNodes[k] == T[Child(p, k)])
    && (forall p :: p in T ==> T[p].nodeInTree == null)
  }

  /** Every node has the name under which its parent holds it. */
  ghost predicate Named(T: map<Path, PerfNode>) {
    forall p :: p in T ==> T[p].elementName == NameOf(p)
  }

  lemma NamedGrows(T: map<Path, PerfNode>, p: Path, k: string, child: PerfNode)
    requires Named(T) && (Child(p, k) in T ==> child == T[Child(p, k)])
    requires Child(p, k) !in T ==> child.elementName == k
    ensures Named(T[Child(p, k) := child])
  {}

  lemma ChildInTree(T: map<Path, PerfNode>, p: Path, k: string)
    requires IsTree(T) && p in T && k in T[p].childNodes
    ensures Child(p, k) in T && T[p].childNodes[k] == T[Child(p, k)] && T[p].nodeInTree == null
    ensures |Child(p, k)| == |p| + 1
  {}

  ghost function StatsOf(T: map<Path, PerfNode>): map<Path, TimingStats>
    reads T.Values`stats
  {
    map p | p in T :: T[p].stats
  }

  /** A full report at p. */
  ghost function ResetAt(m: map<Path, TimingStats>, p: Path, onlyDelta: bool): map<Path, TimingStats> {
    map q | q in m :: if p <= q && !onlyDelta then ResetInterval(m[q]) else m[q]
  }

  /** The part of it that concerns the children named in done. */
  ghost function ResetUnder(m: map<Path, TimingStats>, p: Path, done: set<string>, onlyDelta: bool):
      map<Path, TimingStats>
  {
    map q | q in m :: if p < q && q[|p|] in done && !onlyDelta then ResetInterval(m[q]) else m[q]
  }

  lemma ResetMore(m: map<Path, TimingStats>, p: Path, done: set<string>, k: string, onlyDelta: bool)
    requires k !in done
    ensures ResetAt(ResetUnder(m, p, done, onlyDelta), Child(p, k), onlyDelta) ==
      ResetUnder(m, p, done + {k}, onlyDelta)
  {
    hide Child;
    var r := ResetUnder(m, p, done, onlyDelta);
    forall q | q in m ensures ResetAt(r, Child(p, k), onlyDelta)[q] == ResetUnder(m, p, done + {k}, onlyDelta)[q] {
      BelowChild(p, k, q);
    }
  }

  lemma ResetAllBelow(T: map<Path, PerfNode>, m: map<Path, TimingStats>, p: Path, onlyDelta: bool)
    requires IsTree(T) && p in T && m.Keys == T.Keys
    ensures var r := ResetUnder(m, p, T[p].childNodes.Keys, onlyDelta);
      ResetAt(m, p, onlyDelta) == (if onlyDelta then r else r[p := ResetInterval(m[p])]) && r[p] == m[p]
  {
    hide IsTree;
    forall q | q in T && p < q ensures q[|p|] in T[p].childNodes { NonRootBelowChild(T, p, q); }
    forall q | q in T && p <= q ensures q == p || p < q { PrefixCases(p, q); }
  }

  /** The paths at and below p, in the order of a report. */
  ghost predicate AllBelow(shown: seq<Path>, paths: set<Path>, p: Path) {
    InOrder(shown) && forall q :: q in shown <==> q in paths && p <= q
  }

  lemma FirstShown(shown: seq<Path>, paths: set<Path>, p: Path)
    requires AllBelow(shown, paths, p) && p in paths
    ensures shown != [] && shown[0] == p
  {
    hide PathBefore;
    assert p in shown;
    var i :| 0 <= i < |shown| && shown[i] == p;
    if i > 0 {
      assert shown[0] in shown && p <= shown[0];
      PathBeforeStrict(shown[0], p);
      if p < shown[0] { AboveIsBefore(p, shown[0]); }
    }
  }

  lemma IncrementKeeps(s: TimingStats, delta: uint64)
    ensures Increment(s, delta).lastDelta == delta
  {}

  /** A full report at the root is the report of the tree. */
  lemma RootShown(lines: seq<Line>, shown: seq<Path>, v: TreeView)
    requires AllBelow(shown, v.nodes.Keys, []) && Prints(lines, shown, v.nodes, 0, [], false)
    ensures IsReport(lines, v.nodes)
    ensures Step(v, Report) == v.(nodes := ResetAt(v.nodes, [], false), atReport := v.activity)
  {
    hide InOrder, Prints, ResetInterval;
    assert AllInOrder(shown, v.nodes);
  }

  /** p, and the paths below its children named in done. */
  ghost predicate ShownSoFar(shown: seq<Path>, paths: set<Path>, p: Path, done: set<string>) {
    InOrder(shown) && forall q :: q in shown <==> q in paths && (q == p || (p < q && q[|p|] in done))
  }

  lemma ShownMore(shown: seq<Path>, paths: set<Path>, p: Path, done: set<string>, k: string, below: seq<Path>)
    requires ShownSoFar(shown, paths, p, done) && AllBelow(below, paths, Child(p, k))
    requires forall d <- done :: Before(d, k)
    ensures ShownSoFar(shown + below, paths, p, done + {k})
  {
    hide InOrder, Child;
    forall q ensures Child(p, k) <= q <==> p < q && q[|p|] == k { BelowChild(p, k, q); }
    forall q, r | q in shown && r in below ensures PathBefore(q, r) {
      BelowChild(p, k, r);
      if q == p { AboveIsBefore(p, r); } else { EarlierBranch(p, q, r); }
    }
    InOrderJoin(shown, below);
  }

  lemma AllShown(shown: seq<Path>, T: map<Path, PerfNode>, p: Path)
    requires IsTree(T) && p in T && ShownSoFar(shown, T.Keys, p, T[p].childNodes.Keys)
    ensures AllBelow(shown, T.Keys, p)
  {
    hide IsTree, InOrder;
    forall q | q in T && p < q ensures q[|p|] in T[p].childNodes { NonRootBelowChild(T, p, q); }
    forall q | q in T && p <= q ensures q == p || p < q { PrefixCases(p, q); }
  }

  lemma FirstLine(T: map<Path, PerfNode>, p: Path, was: map<Path, TimingStats>, level: nat, onlyDelta: bool)
    requires Named(T) && p in T && was.Keys == T.Keys
    ensures Prints([LineOf(level, T[p].elementName, was[p], onlyDelta)], [p], was, level, p, onlyDelta)
    ensures ShownSoFar([p], T.Keys, p, {}) && ResetUnder(was, p, {}, onlyDelta) == was
  {}

  /** The lines of one more child, whose figures no earlier child has touched. */
  lemma PrintsMore(lines: seq<Line>, shown: seq<Path>, more: seq<Line>, below: seq<Path>,
                   was: map<Path, TimingStats>, level: nat, p: Path, done: set<string>, k: string, onlyDelta: bool)
    requires Prints(lines, shown, was, level, p, onlyDelta) && k !in done
    requires Prints(more, below, ResetUnder(was, p, done, onlyDelta), level + 1, Child(p, k), onlyDelta)
    ensures Prints(lines + more, shown + below, was, level, p, onlyDelta)
  {
    hide LineOf, NameOf;
    forall q ensures Child(p, k) <= q <==> p < q && q[|p|] == k { BelowChild(p, k, q); }
    forall i | 0 <= i < |below|
      ensures below[i] in was && p <= below[i]
      ensures more[i] == LineOf(level + |below[i]| - |p|, NameOf(below[i]), was[below[i]], onlyDelta)
    {
      assert Child(p, k) <= below[i];
    }
  }

  lemma SubtreeHas(T: map<Path, PerfNode>, p: Path)
    requires p in T
    ensures T[p] in Subtree(T, p)
  {}

  lemma SubtreeWithin(T: map<Path, PerfNode>, p: Path)
    ensures Subtree(T, p) <= T.Values && StatsOf(T).Keys == T.Keys
  {}

  lemma SubtreeShrinks(T: map<Path, PerfNode>, p: Path, k: string)
    ensures Subtree(T, Child(p, k)) <= Subtree(T, p)
  {}

  lemma OnlyStatsAt(T: map<Path, PerfNode>, p: Path, before: map<Path, TimingStats>)
    requires IsTree(T) && p in T && before.Keys == T.Keys
    requires forall q :: q in T && T[q] != T[p] ==> T[q].stats == before[q]
    ensures StatsOf(T) == before[p := T[p].stats]
  {}

  /** The nodes at p and below it. */
  ghost function Subtree(T: map<Path, PerfNode>, p: Path): set<PerfNode> {
    set q | q in T && p <= q :: T[q]
  }

  /** The nodes below those children of p that are named in ks. */
  ghost function ChildSubtrees(T: map<Path, PerfNode>, p: Path, ks: set<string>): set<PerfNode> {
    set q | q in T && p < q && q[|p|] in ks :: T[q]
  }

  ghost function PathsBelow(T: map<Path, PerfNode>, p: Path): set<Path> {
    set q | q in T && p <= q
  }

  lemma PathsBelowShrink(T: map<Path, PerfNode>, p: Path, k: string)
    requires p in T
    ensures PathsBelow(T, Child(p, k)) < PathsBelow(T, p)
  {
    assert p in PathsBelow(T, p) && p !in PathsBelow(T, Child(p, k));
  }

  lemma BelowChild(p: Path, k: string, q: Path)
    ensures Child(p, k) <= q <==> p < q && q[|p|] == k
  {
    if p < q && q[|p|] == k { assert q[..|p| + 1] == Child(p, k); }
  }

  lemma PrefixCases(p: Path, q: Path)
    requires p <= q
    ensures q == p || p < q
  {}

  lemma ChildSubtree(T: map<Path, PerfNode>, p: Path, k: string)
    ensures Subtree(T, Child(p, k)) == ChildSubtrees(T, p, {k})
  {
    forall q | q in T ensures Child(p, k) <= q <==> p < q && q[|p|] == k {
      BelowChild(p, k, q);
    }
  }

  lemma {:induction false} NonRootBelowChild(T: map<Path, PerfNode>, p: Path, q: Path)
    requires IsTree(T) && p in T && q in T && p < q
    ensures q[|p|] in T[p].childNodes
    decreases |q|
  {
    var front := Parent(q);
    if front == p {
      assert q == Child(p, q[|p|]);
    } else {
      NonRootBelowChild(T, p, front);
    }
  }

  lemma SubtreeIsChildrenAndSelf(T: map<Path, PerfNode>, p: Path)
    requires IsTree(T) && p in T
    ensures Subtree(T, p) == ChildSubtrees(T, p, T[p].childNodes.Keys) + {T[p]}
    ensures T[p] !in ChildSubtrees(T, p, T[p].childNodes.Keys)
  {
    forall q | q in T && p < q ensures q[|p|] in T[p].childNodes {
      NonRootBelowChild(T, p, q);
    }
    forall q | q in T && p <= q ensures q == p || p < q { PrefixCases(p, q); }
  }

  lemma ChildSubtreesGrow(T: map<Path, PerfNode>, p: Path, done: set<string>, k: string)
    requires IsTree(T) && k !in done
    ensures multiset(ChildSubtrees(T, p, done + {k}))
         == multiset(ChildSubtrees(T, p, done)) + multiset(Subtree(T, Child(p, k)))
  {
    ChildSubtree(T, p, k);
    assert ChildSubtrees(T, p, done + {k}) == ChildSubtrees(T, p, done) + ChildSubtrees(T, p, {k});
    DisjointSum(ChildSubtrees(T, p, done), ChildSubtrees(T, p, {k}));
  }

  lemma NoChildSubtrees(T: map<Path, PerfNode>, p: Path)
    ensures ChildSubtrees(T, p, {}) == {}
  {}

  /** One more child and all below it have been freed. */
  lemma FreedGrows(T: map<Path, PerfNode>, p: Path, kids: set<string>, keys: set<string>, k: string,
                   freed: seq<PerfNode>, below: seq<PerfNode>)
    requires IsTree(T) && k in keys && keys <= kids
    requires multiset(freed) == multiset(ChildSubtrees(T, p, kids - keys))
    requires multiset(below) == multiset(Subtree(T, Child(p, k)))
    ensures multiset(freed + below) == multiset(ChildSubtrees(T, p, kids - (keys - {k})))
  {
    hide IsTree, ChildSubtrees, Subtree;
    ChildSubtreesGrow(T, p, kids - keys, k);
    assert kids - (keys - {k}) == kids - keys + {k};
  }

  lemma AllFreed(T: map<Path, PerfNode>, p: Path, freed: seq<PerfNode>)
    requires IsTree(T) && p in T
    requires multiset(freed) == multiset(ChildSubtrees(T, p, T[p].childNodes.Keys))
    ensures multiset(freed + [T[p]]) == multiset(Subtree(T, p))
  {
    hide IsTree, ChildSubtrees, Subtree;
    SubtreeIsChildrenAndSelf(T, p);
    DisjointSum(ChildSubtrees(T, p, T[p].childNodes.Keys), {T[p]});
  }

  lemma DisjointSum<X>(a: set<X>, b: set<X>)
    requires a !! b
    ensures multiset(a + b) == multiset(a) + multiset(b)
  {}

  ghost function PathOf(scopes: seq<PerfNode>): (p: Path)
    ensures |p| == |scopes|
    ensures forall i :: 0 <= i < |p| ==> p[i] == scopes[i].elementName
  {
    seq(|scopes|, i requires 0 <= i < |scopes| => scopes[i].elementName)
  }

  ghost function FramesOf(scopes: seq<PerfNode>): (fs: seq<Frame>)
    ensures |fs| == |scopes|
    ensures forall i :: 0 <= i < |fs| ==> fs[i] == Frame(scopes[i].elementName, scopes[i].startTime)
    ensures Names(fs) == PathOf(scopes)
  {
    var fs := seq(|scopes|, i requires 0 <= i < |scopes| => Frame(scopes[i].elementName, scopes[i].startTime));
    assert Names(fs) == PathOf(scopes);
    fs
  }

  lemma OpenedPath(scopes: seq<PerfNode>, s: PerfNode)
    ensures PathOf(scopes + [s]) == Child(PathOf(scopes), s.elementName)
    ensures FramesOf(scopes + [s]) == FramesOf(scopes) + [Frame(s.elementName, s.startTime)]
  {}

  /** The stack is the path's chain of nodes, from the root to its end. */
  ghost predicate IsChain(T: map<Path, PerfNode>, p: Path, stack: seq<PerfNode>)
    ensures IsChain(T, p, stack) ==> |stack| == |p| + 1
  {
    |stack| == |p| + 1 && forall i :: 0 <= i < |stack| ==> p[..i] in T && stack[i] == T[p[..i]]
  }

  lemma ChainTop(T: map<Path, PerfNode>, p: Path, stack: seq<PerfNode>)
    requires IsChain(T, p, stack)
    ensures p in T && stack[|stack| - 1] == T[p] && [] in T
  {
    assert p[..|p|] == p && p[..0] == [];
  }

  lemma ChainGrows(T: map<Path, PerfNode>, p: Path, stack: seq<PerfNode>, k: string, child: PerfNode)
    requires IsChain(T, p, stack) && (Child(p, k) in T ==> T[Child(p, k)] == child)
    ensures IsChain(T[Child(p, k) := child], Child(p, k), stack + [child])
  {
    var q := Child(p, k);
    forall i | 0 <= i <= |q| ensures q[..i] in T[q := child] && (stack + [child])[i] == T[q := child][q[..i]] {
      if i <= |p| { assert q[..i] == p[..i]; } else { assert q[..i] == q; }
    }
  }

  lemma ChainShrinks(T: map<Path, PerfNode>, p: Path, stack: seq<PerfNode>)
    requires IsChain(T, p, stack) && p != []
    ensures IsChain(T, Parent(p), stack[..|stack| - 1])
  {
    forall i | 0 <= i < |p| ensures Parent(p)[..i] == p[..i] {}
  }

  /** Each open scope points at its node; scope objects are no nodes of the
      tree and have no children. */
  ghost predicate Linked(scopes: seq<PerfNode>, stack: seq<PerfNode>, T: map<Path, PerfNode>, t: PerfTree)
    requires scopes == [] || |stack| == |scopes| + 1
    reads scopes`nodeInTree, scopes`tree, scopes`childNodes
  {
    && (forall i :: 0 <= i < |scopes| ==>
         && scopes[i] !in T.Values
         && scopes[i].nodeInTree == stack[i + 1] && scopes[i].tree == t
         && scopes[i].childNodes == map[])
    && (forall i, j :: 0 <= i < j < |scopes| ==> scopes[i] != scopes[j])
  }

  lemma LinkedGrows(scopes: seq<PerfNode>, stack: seq<PerfNode>, was: map<Path, PerfNode>, T: map<Path, PerfNode>,
                    scope: PerfNode, t: PerfTree)
    requires |stack| == |scopes| + 1 && Linked(scopes, stack, was, t)
    requires scope.nodeInTree != null && scope.tree == t && scope.childNodes == map[] && scope !in scopes
    requires forall s <- scopes + [scope] :: s !in T.Values
    ensures Linked(scopes + [scope], stack + [scope.nodeInTree], T, t)
  {
    assert forall i :: 0 <= i < |scopes| ==> scopes[i] in scopes + [scope];
  }

  lemma LinkedShrinks(scopes: seq<PerfNode>, stack: seq<PerfNode>, T: map<Path, PerfNode>, t: PerfTree)
    requires scopes != [] && |stack| == |scopes| + 1 && Linked(scopes, stack, T, t)
    ensures scopes[|scopes| - 1].nodeInTree == stack[|stack| - 1]
    ensures Linked(scopes[..|scopes| - 1], stack[..|stack| - 1], T, t)
  {}

  lemma ChildParent(p: Path, k: string, q: Path, j: string)
    ensures Child(p, k) != [] && Parent(Child(p, k)) == p
    ensures Child(p, k) == Child(q, j) <==> p == q && k == j
  {
    if Child(p, k) == Child(q, j) {
      assert Child(p, k)[|p|] == k && Child(q, j)[|q|] == j;
      assert Parent(Child(p, k)) == p && Parent(Child(q, j)) == q;
    }
  }

  /** Linking a child under the name k at path a keeps the tree a tree, whether
      the child is new or was there already. */
  lemma LinkKeepsTree(T: map<Path, PerfNode>, kids: map<Path, map<string, PerfNode>>,
                      a: Path, k: string, child: PerfNode)
    requires TreeShaped(T, kids) && a in T
    requires T[a].childNodes == kids[a][k := child]
    requires forall q :: q in T && q != a ==> T[q].childNodes == kids[q]
    requires forall q :: q in T ==> T[q].nodeInTree == null
    requires Child(a, k) in T ==> child == T[Child(a, k)]
    requires Child(a, k) !in T ==> child !in T.Values && child.childNodes == map[] && child.nodeInTree == null
    ensures IsTree(T[Child(a, k) := child])
  {
    var p := Child(a, k);
    if p in T {
      assert T[p := child] == T && kids[a][k := child] == kids[a];
    } else {
      forall q, j {:trigger Child(q, j)}
        ensures Child(q, j) != [] && Parent(Child(q, j)) == q
        ensures Child(q, j) == p <==> q == a && j == k
      {
        ChildParent(q, j, a, k);
      }
    }
  }

  class PerfNode {
    const elementName: string
    const startTime: uint64
    var stats: TimingStats
    var nodeInTree: PerfNode?
    var tree: PerfTree?
    var threshold: int
    var childNodes: map<string, PerfNode>

    constructor Root(now: uint64)
      ensures elementName == "root_node" && startTime == now && stats == NO_STATS
      ensures nodeInTree == null && tree == null && childNodes == map[]
    {
      elementName, startTime := "root_node", now;
      nodeInTree, tree, threshold := null, null, -1;
      stats, childNodes := NO_STATS, map[];
    }

    constructor Copy(other: PerfNode)
      ensures elementName == other.elementName && startTime == other.startTime && stats == NO_STATS
      ensures nodeInTree == null && tree == null && childNodes == other.childNodes
    {
      elementName, startTime, childNodes := other.elementName, other.startTime, other.childNodes;
      nodeInTree, tree, threshold := null, null, -1;
      stats := NO_STATS;
    }

    /** The scope object: opens name on the calling thread of the calling process. */
    constructor Scope(processes: ProcessMap, pid: Pid, name: string, tid: Tid, now: uint64)
      requires processes.Valid()
      modifies processes, processes.ReprOf(pid)
      ensures processes.Valid() && fresh(processes.ReprOf(pid) - old(processes.ReprOf(pid)))
      ensures pid in processes.all && processes.all == old(processes.all)[pid := processes.all[pid]]
      ensures pid in old(processes.all) ==> processes.all[pid] == old(processes.all[pid])
      ensures processes.ViewOf(pid) == ProcessStep(old(processes.ViewOf(pid)), ProcessEvent.OpenIn(tid, name, now))
      ensures processes.ScopesOf(pid, tid) == old(processes.ScopesOf(pid, tid)) + [this]
      ensures forall u :: u in old(processes.ViewOf(pid)) && u != tid ==>
        processes.ScopesOf(pid, u) == old(processes.ScopesOf(pid, u))
      ensures forall q :: q != pid ==>
        processes.ViewOf(q) == old(processes.ViewOf(q)) && processes.ReprOf(q) == old(processes.ReprOf(q))
    {
      elementName, startTime := name, now;
      nodeInTree, tree, threshold := null, null, -1;
      stats, childNodes := NO_STATS, map[];
      new;
      hide PerfProcess.Valid, PerfProcess.View, ProcessStep, ProcessMap.Valid, ProcessMap.ViewOf, ProcessMap.ScopesOf;
      processes.OpenIn(pid, tid, this, now);
    }

    /** Finds or creates the child that carries the scope's name. */
    method AddChild(scope: PerfNode, ghost T: map<Path, PerfNode>, ghost a: Path) returns (child: PerfNode)
      requires IsTree(T) && a in T && T[a] == this && scope !in T.Values && scope.childNodes == map[]
      modifies this`childNodes, scope`nodeInTree
      ensures child == scope.nodeInTree
      ensures childNodes == old(childNodes)[scope.elementName := child]
      ensures scope.elementName in old(childNodes) ==> child == old(childNodes)[scope.elementName]
      ensures scope.elementName !in old(childNodes) ==>
        fresh(child) && child.stats == NO_STATS
      ensures Child(a, scope.elementName) in T <==> scope.elementName in old(childNodes)
      ensures Child(a, scope.elementName) in T ==> child == T[Child(a, scope.elementName)]
      ensures IsTree(T[Child(a, scope.elementName) := child])
      ensures scope.elementName !in old(childNodes) ==> child.elementName == scope.elementName
    {
      ghost var kids := map q | q in T :: T[q].childNodes;
      if scope.elementName !in childNodes {
        var copyNode := new PerfNode.Copy(scope);
        childNodes := childNodes[scope.elementName := copyNode];
        scope.nodeInTree := copyNode;
      } else {
        scope.nodeInTree := childNodes[scope.elementName];
      }
      child := scope.nodeInTree;
      LinkKeepsTree(T, kids, a, scope.elementName, child);
    }

    method IncrementData(delta: uint64)
      modifies this`stats
      ensures stats == Increment(old(stats), delta)
    {
      stats := stats.(lastDelta := delta);
      stats := stats.(total := stats.total.(time := Plus(stats.total.time, delta)));
      stats := stats.(total := stats.total.(count := Plus(stats.total.count, 1)));
      if stats.total.min > delta {
        stats := stats.(total := stats.total.(min := delta));
      }
      if stats.total.max < delta {
        stats := stats.(total := stats.total.(max := delta));
      }
      stats := stats.(interval := stats.interval.(time := Plus(stats.interval.time, delta)));
      stats := stats.(interval := stats.interval.(count := Plus(stats.interval.count, 1)));
      if stats.interval.min > delta {
        stats := stats.(interval := stats.interval.(min := delta));
      }
      if stats.interval.max < delta {
        stats := stats.(interval := stats.interval.(max := delta));
      }
    }

    method ClearInterval()
      modifies this`stats
      ensures stats == ResetInterval(old(stats))
    {
      stats := stats.(interval := Totals(0, 0, 0, INITIAL_MIN_VALUE));
    }

    /** Reports this node and everything below it: its own line, and then the lines
        of its children by name. A full report starts a new interval at each of
        these nodes behind its lines; one that shows only the last elapsed time
        changes nothing. The recursion follows a finite tree, so it ends. */
    method ReportData(level: nat, showOnlyDelta: bool, ghost T: map<Path, PerfNode>, ghost p: Path)
        returns (lines: seq<Line>, ghost shown: seq<Path>)
      requires IsTree(T) && Named(T) && p in T && T[p] == this
      modifies (if showOnlyDelta then {} else Subtree(T, p))`stats
      ensures StatsOf(T) == ResetAt(old(StatsOf(T)), p, showOnlyDelta)
      ensures AllBelow(shown, T.Keys, p) && Prints(lines, shown, old(StatsOf(T)), level, p, showOnlyDelta)
      decreases PathsBelow(T, p)
    {
      hide IsTree, Named, Subtree, ResetUnder, ResetAt, Prints, ShownSoFar, AllBelow, PathsBelow, Before, Child;
      ghost var was := StatsOf(T);
      SubtreeHas(T, p);
      lines, shown := [LineOf(level, elementName, stats, showOnlyDelta)], [p];
      FirstLine(T, p, was, level, showOnlyDelta);
      var keys := childNodes.Keys;
      assert childNodes.Keys - keys == {};
      while keys != {}
        invariant keys <= childNodes.Keys
        invariant StatsOf(T) == ResetUnder(was, p, childNodes.Keys - keys, showOnlyDelta)
        invariant ShownSoFar(shown, T.Keys, p, childNodes.Keys - keys)
        invariant Prints(lines, shown, was, level, p, showOnlyDelta)
        invariant forall d, k :: d in childNodes.Keys - keys && k in keys ==> Before(d, k)
        decreases keys
      {
        ghost var done := childNodes.Keys - keys;
        ghost var first := FirstName(keys);
        var key :| key in keys && forall k <- keys :: k == key || Before(key, k);
        PathsBelowShrink(T, p, key);
        ChildInTree(T, p, key);
        SubtreeShrinks(T, p, key);
        var more, below := childNodes[key].ReportData(level + 1, showOnlyDelta, T, Child(p, key));
        ResetMore(was, p, done, key, showOnlyDelta);
        PrintsMore(lines, shown, more, below, was, level, p, done, key, showOnlyDelta);
        ShownMore(shown, T.Keys, p, done, key, below);
        lines, shown := lines + more, shown + below;
        keys := keys - {key};
        assert childNodes.Keys - keys == done + {key};
      }
      assert childNodes.Keys - keys == childNodes.Keys;
      AllShown(shown, T, p);
      ResetAllBelow(T, was, p, showOnlyDelta);
      if !showOnlyDelta {
        ghost var before := StatsOf(T);
        ClearInterval();
        OnlyStatsAt(T, p, before);
      }
    }

    /** Deletes this node and, through it, everything below; freed lists the
        deletions. Each node below is deleted exactly once. */
    method Delete(ghost T: map<Path, PerfNode>, ghost p: Path) returns (freed: seq<PerfNode>)
      requires IsTree(T) && p in T && T[p] == this
      ensures multiset(freed) == multiset(Subtree(T, p))
      decreases PathsBelow(T, p)
    {
      hide *;
      freed := [];
      var keys := childNodes.Keys;
      NoChildSubtrees(T, p);
      assert childNodes.Keys - keys == {};
      while keys != {}
        invariant keys <= childNodes.Keys
        invariant multiset(freed) == multiset(ChildSubtrees(T, p, childNodes.Keys - keys))
        decreases keys
      {
        var key :| key in keys;
        PathsBelowShrink(T, p, key);
        ChildInTree(T, p, key);
        var below := childNodes[key].Delete(T, Child(p, key));
        FreedGrows(T, p, childNodes.Keys, keys, key, freed, below);
        freed := freed + below;
        keys := keys - {key};
      }
      assert childNodes.Keys - keys == childNodes.Keys;
      AllFreed(T, p, freed);
      freed := freed + [this];
    }

    /** The scope object's destructor: books the elapsed time and closes the
        scope. Scope objects are destroyed in the reverse of their order of
        construction, so this is the last one its thread has open. */
    method Close(now: uint64) returns (warning: seq<Line>)
      requires tree != null && tree.Valid() && tree.scopes != [] && tree.scopes[|tree.scopes| - 1] == this
      modifies tree.repr
      ensures tree == old(tree) && tree.Valid() && tree.repr == old(tree.repr)
      ensures tree.View() == Step(old(tree.View()), Event.Close(now))
      ensures tree.scopes == old(tree.scopes)[..|old(tree.scopes)| - 1]
      ensures tree.activeNode == old(tree.activeNode)[..|old(tree.activeNode)| - 1] && tree.activeNode != []
      ensures Warns(warning, Elapsed(now, startTime), tree.View().nodes, old(PathOf(tree.scopes)))
      ensures if threshold > 0 && Elapsed(now, startTime) > threshold
        then warning != [] && warning[0] == Delta(0, elementName, Elapsed(now, startTime)) else warning == []
    {
      hide IsTree, Named, IsChain, Linked, AllBelow, Prints, Increment, Warns;
      warning := [];
      ghost var p, stats := PathOf(tree.scopes), StatsOf(tree.nodes);
      ghost var front := tree.scopes[..|tree.scopes| - 1];
      assert tree.scopes == front + [this];
      LinkedShrinks(tree.scopes, tree.activeNode, tree.nodes, tree);
      ChainTop(tree.nodes, p, tree.activeNode);
      if nodeInTree != null {
        var delta := Elapsed(now, startTime);
        nodeInTree.IncrementData(delta);
        OnlyStatsAt(tree.nodes, p, stats);
        tree.CloseScope(this, nodeInTree);
        warning := WarnIfOver(delta, tree.nodes, p);
        OpenedPath(front, this);
        IncrementKeeps(stats[p], delta);
        WarningStarts(warning, delta, StatsOf(tree.nodes), PathOf(front), elementName);
      }
    }

    /** What is shown of a scope that took so long: if it is over the threshold, the
        last durations of its node at p and of the nodes below. */
    ghost predicate Warns(lines: seq<Line>, delta: uint64, nodes: map<Path, TimingStats>, p: Path)
      reads this`threshold
    {
      if threshold > 0 && delta > threshold
      then exists shown :: AllBelow(shown, nodes.Keys, p) && Prints(lines, shown, nodes, 0, p, true)
      else lines == []
    }

    /** The warning begins with the scope itself. */
    lemma WarningStarts(lines: seq<Line>, delta: uint64, nodes: map<Path, TimingStats>, a: Path, name: string)
      requires Child(a, name) in nodes && nodes[Child(a, name)].lastDelta == delta
      requires Warns(lines, delta, nodes, Child(a, name))
      ensures if threshold > 0 && delta > threshold then lines != [] && lines[0] == Delta(0, name, delta)
        else lines == []
    {
      if threshold > 0 && delta > threshold {
        var p := Child(a, name);
        var shown :| AllBelow(shown, nodes.Keys, p) && Prints(lines, shown, nodes, 0, p, true);
        FirstShown(shown, nodes.Keys, p);
      }
    }

    /** The destructor's warning. */
    method WarnIfOver(delta: uint64, ghost T: map<Path, PerfNode>, ghost p: Path) returns (lines: seq<Line>)
      requires IsTree(T) && Named(T) && p in T && T[p] == nodeInTree
      ensures Warns(lines, delta, StatsOf(T), p)
    {
      hide IsTree, Named, AllBelow, Prints, Subtree, ResetAt, StatsOf;
      lines := [];
      if threshold > 0 && delta > threshold {
        SubtreeWithin(T, p);
        ghost var shown;
        lines, shown := nodeInTree.ReportData(0, true, T, p);
      }
    }
  }

  class PerfTree {
    var rootNode: PerfNode?
    var activeNode: seq<PerfNode>
    var activityCount: uint64
    var countAtLastReport: uint64
    ghost var nodes: map<Path, PerfNode>
    ghost var scopes: seq<PerfNode>
    ghost var repr: set<object>

    ghost predicate Valid()
      reads this, repr
      ensures Valid() ==> this in repr
    {
      && this in repr && nodes.Values <= repr && (forall s <- scopes :: s in repr)
      && (activeNode == [] ==> rootNode == null && nodes == map[] && scopes == [])
      // the active stack leads from the root to the innermost open scope's node
      && (activeNode != [] ==>
           IsTree(nodes) && Named(nodes) && rootNode == nodes[[]] && IsChain(nodes, PathOf(scopes), activeNode))
      && Linked(scopes, activeNode, nodes, this)
    }

    ghost function View(): TreeView
      requires Valid()
      reads this, repr
    {
      TreeView(StatsOf(nodes), FramesOf(scopes), activityCount, countAtLastReport)
    }

    constructor ()
      ensures Valid() && activeNode == [] && scopes == [] && View() == EMPTY_TREE && fresh(repr)
    {
      rootNode, activeNode, activityCount, countAtLastReport := null, [], 0, 0;
      nodes, scopes, repr := map[], [], {this};
    }

    /** The new-tree branch of AddNode: the root goes to the bottom of the stack. */
    method PlantRoot(now: uint64)
      requires Valid() && activeNode == []
      modifies this
      ensures Valid() && activeNode != [] && scopes == [] && fresh(repr - old(repr))
      ensures View() == old(View()).(nodes := map[[] := NO_STATS])
    {
      rootNode := new PerfNode.Root(now);
      activeNode := activeNode + [rootNode];
      nodes := map[[] := rootNode];
      repr := repr + {rootNode};
      assert StatsOf(nodes) == map[[] := NO_STATS];
    }

    /** The end of AddNode: the scope's node becomes the active one. */
    method Push(scope: PerfNode, ghost T: map<Path, PerfNode>)
      requires activeNode != [] && rootNode != null && scope.nodeInTree != null && scope !in scopes
      requires IsTree(T) && Named(T) && rootNode == T[[]]
      requires IsChain(T, PathOf(scopes + [scope]), activeNode + [scope.nodeInTree])
      requires T.Values <= repr + {scope.nodeInTree} && scope !in T.Values && scope.childNodes == map[]
      requires this in repr && scope !in repr && (forall s <- scopes :: s in repr)
      requires |activeNode| == |scopes| + 1 && Linked(scopes, activeNode, nodes, this)
      requires forall s <- scopes :: s !in T.Values
      modifies this`activeNode, this`activityCount, this`nodes, this`scopes, this`repr, scope`tree
      ensures Valid() && scopes == old(scopes) + [scope] && repr == old(repr) + {scope, scope.nodeInTree}
      ensures activeNode != [] && scope.tree == this && nodes == T
      ensures activityCount == Plus(old(activityCount), 1)
      ensures StatsOf(T) == old(StatsOf(T))
    {
      hide IsTree, Named, IsChain, Linked, PathOf, StatsOf, Plus, Child;
      ghost var stack := activeNode;
      activeNode := activeNode + [scope.nodeInTree];
      activityCount := Plus(activityCount, 1);
      scope.tree := this;
      LinkedGrows(scopes, stack, nodes, T, scope, this);
      nodes, scopes, repr := T, scopes + [scope], repr + {scope, scope.nodeInTree};
    }

    method AddNode(scope: PerfNode, now: uint64)
      requires Valid() && scope !in repr && scope.childNodes == map[]
      modifies repr, scope`nodeInTree, scope`tree
      ensures Valid() && scopes == old(scopes) + [scope] && fresh(repr - old(repr) - {scope})
      ensures activeNode != [] && scope.nodeInTree != null && scope.tree == this
      ensures View() == Step(old(View()), Open(scope.elementName, scope.startTime))
    {
      hide IsTree, Named, IsChain, Linked;
      if |activeNode| == 0 {
        PlantRoot(now);
      }
      AddUnder(scope);
    }

    /** The end of AddNode: the scope's node is found or made under the active one. */
    method AddUnder(scope: PerfNode)
      requires Valid() && activeNode != [] && scope !in repr && scope.childNodes == map[]
      modifies repr, scope`nodeInTree, scope`tree
      ensures Valid() && scopes == old(scopes) + [scope] && fresh(repr - old(repr) - {scope})
      ensures activeNode != [] && scope.nodeInTree != null && scope.tree == this
      ensures View() == Step(old(View()), Open(scope.elementName, scope.startTime))
    {
      hide IsTree, Named;
      var top := activeNode[|activeNode| - 1];
      ghost var a, stats := PathOf(scopes), StatsOf(nodes);
      ChainTop(nodes, a, activeNode);
      var treeNode := top.AddChild(scope, nodes, a);
      OpenedPath(scopes, scope);
      ChainGrows(nodes, a, activeNode, scope.elementName, treeNode);
      NamedGrows(nodes, a, scope.elementName, treeNode);
      ghost var T := nodes[Child(a, scope.elementName) := treeNode];
      assert StatsOf(T) ==
        if Child(a, scope.elementName) in stats then stats else stats[Child(a, scope.elementName) := NO_STATS];
      Push(scope, T);
    }

    /** Pops the active node, if it is the one given. */
    method CloseActiveNode(treeNode: PerfNode)
      requires activeNode != []
      modifies this`activeNode
      ensures activeNode == if treeNode == old(activeNode)[|old(activeNode)| - 1]
                            then old(activeNode)[..|old(activeNode)| - 1] else old(activeNode)
    {
      var top := activeNode[|activeNode| - 1];
      if treeNode == top {
        activeNode := activeNode[..|activeNode| - 1];
      }
    }

    /** Closing the innermost open scope always finds its node active. */
    method CloseScope(ghost scope: PerfNode, treeNode: PerfNode)
      requires Valid() && scopes != [] && scopes[|scopes| - 1] == scope && treeNode == scope.nodeInTree
      modifies this`activeNode, this`scopes
      ensures Valid() && activeNode == old(activeNode)[..|old(activeNode)| - 1]
      ensures scopes == old(scopes)[..|old(scopes)| - 1]
    {
      hide IsTree, Named, IsChain, PathOf, Child, Parent, Linked;
      ghost var front := scopes[..|scopes| - 1];
      assert scopes == front + [scope];
      OpenedPath(front, scope);
      ChildParent(PathOf(front), scope.elementName, [], "");
      ChainShrinks(nodes, PathOf(scopes), activeNode);
      LinkedShrinks(scopes, activeNode, nodes, this);
      CloseActiveNode(treeNode);
      scopes := front;
    }

    method ReportData() returns (lines: seq<Line>)
      requires Valid() && activeNode != []
      modifies repr
      ensures Valid() && View() == Step(old(View()), Report) && IsReport(lines, old(View()).nodes)
      ensures repr == old(repr) && scopes == old(scopes) && activeNode == old(activeNode)
    {
      hide IsTree, Named, IsChain, Linked, Prints, AllBelow, IsReport, ResetAt, PathOf, FramesOf, Step,
        Subtree, StatsOf;
      ghost var v, shown := View(), [];
      ChainTop(nodes, PathOf(scopes), activeNode);
      SubtreeWithin(nodes, []);
      lines, shown := rootNode.ReportData(0, false, nodes, []);
      countAtLastReport := activityCount;
      RootShown(lines, shown, v);
    }

    predicate IsInactive()
      reads this`activityCount, this`countAtLastReport
    {
      activityCount == countAtLastReport
    }

    /** The destructor: every node of the tree is deleted exactly once. */
    method Delete() returns (freed: seq<PerfNode>)
      requires Valid() && activeNode != []
      ensures multiset(freed) == multiset(nodes.Values)
    {
      freed := rootNode.Delete(nodes, []);
      assert Subtree(nodes, []) == nodes.Values;
    }
  }

  /** The view once all threads but those in rest have been reported. */
  ghost function ReportAllBut(v: ProcessView, rest: set<Tid>): ProcessView {
    map t | t in v :: if t in rest then v[t] else Step(v[t], Report)
  }

  /** A report for each thread of v but those in rest. */
  ghost predicate AreReports(lines: map<Tid, seq<Line>>, v: ProcessView, rest: set<Tid>) {
    lines.Keys == v.Keys - rest && forall t :: t in lines ==> IsReport(lines[t], v[t].nodes)
  }

  lemma ReportOneMore(lines: map<Tid, seq<Line>>, v: ProcessView, rest: set<Tid>, tid: Tid, report: seq<Line>)
    requires tid in rest && rest <= v.Keys && AreReports(lines, v, rest)
    ensures ReportAllBut(v, rest).Keys == v.Keys && ReportAllBut(v, rest)[tid] == v[tid]
    ensures ReportAllBut(v, rest)[tid := Step(v[tid], Report)] == ReportAllBut(v, rest - {tid})
    ensures IsReport(report, v[tid].nodes) ==> AreReports(lines[tid := report], v, rest - {tid})
  {
    hide Step, IsReport;
  }

  /** The active threads of v, and those in rest. */
  ghost function ActiveOr(v: ProcessView, rest: set<Tid>): ProcessView {
    map t | t in v && (t in rest || !Inactive(v[t])) :: v[t]
  }

  lemma ActiveOrShrinks(v: ProcessView, rest: set<Tid>, t: Tid)
    requires t in v && t in rest
    ensures ActiveOr(v, rest - {t}) == if Inactive(v[t]) then ActiveOr(v, rest) - {t} else ActiveOr(v, rest)
  {}

  /** The trees are in order and share no objects with each other or the owner. */
  ghost predicate Apart(trees: map<Tid, PerfTree>, repr: set<object>, owner: PerfProcess)
    reads trees.Values, repr - {owner}
  {
    && (forall t :: t in trees ==> trees[t].repr <= repr && owner !in trees[t].repr && trees[t].Valid())
    && (forall t, u :: t in trees && u in trees && t != u ==> trees[t].repr !! trees[u].repr)
  }

  lemma StayApart(trees: map<Tid, PerfTree>, repr: set<object>, owner: PerfProcess, tid: Tid, t: PerfTree)
    requires Apart(trees, repr, owner) && tid !in trees && t.Valid() && t.repr !! repr && owner in repr
    ensures Apart(trees[tid := t], repr + t.repr, owner)
  {
    hide PerfTree.Valid;
    assert t in t.repr;
  }

  class PerfProcess {
    var mapThreads: map<Tid, PerfTree>
    ghost var repr: set<object>

    ghost predicate Separate()
      reads this, repr
      ensures Separate() ==> this in repr
    {
      this in repr && mapThreads.Values <= repr && Apart(mapThreads, repr, this)
    }

    /** In addition every tree has its root at the bottom of the stack: the root
        is never popped. */
    ghost predicate Valid()
      reads this, repr
      ensures Valid() ==> this in repr
    {
      Separate() && forall t :: t in mapThreads ==> mapThreads[t].activeNode != []
    }

    ghost function View(): ProcessView
      requires Separate()
      reads this, repr
    {
      map t | t in mapThreads :: mapThreads[t].View()
    }

    constructor ()
      ensures Valid() && View() == map[] && mapThreads == map[] && fresh(repr)
    {
      mapThreads, repr := map[], {this};
    }

    lemma ViewSteps(before: ProcessView, tid: Tid, v: TreeView)
      requires Separate() && tid in mapThreads && mapThreads[tid].View() == v
      requires mapThreads.Keys == before.Keys + {tid}
      requires forall u :: u in mapThreads && u != tid ==> mapThreads[u].View() == before[u]
      ensures View() == before[tid := v]
    {
      hide PerfTree.Valid, PerfTree.View;
    }

    lemma InRepr(tid: Tid)
      requires Valid() && tid in mapThreads
      ensures mapThreads[tid] in repr && mapThreads[tid].repr <= repr && tid in View()
    {}

    lemma KnownTree(tid: Tid)
      requires Valid() && tid in mapThreads
      ensures mapThreads[tid].Valid() && mapThreads[tid].repr <= repr
      ensures tid in View() && View()[tid := View()[tid]] == View()
      ensures mapThreads[tid := mapThreads[tid]] == mapThreads
    {
      hide PerfTree.Valid, PerfTree.View;
    }

    lemma InactiveInView(tid: Tid)
      requires Valid() && tid in mapThreads
      ensures tid in View() && (mapThreads[tid].IsInactive() <==> Inactive(View()[tid]))
    {}

    lemma OpenScopeLinked(tid: Tid, scope: PerfNode)
      requires Valid() && tid in mapThreads
      requires mapThreads[tid].scopes != [] && mapThreads[tid].scopes[|mapThreads[tid].scopes| - 1] == scope
      ensures scope.tree == mapThreads[tid]
    {
      assert mapThreads[tid].Valid();
    }

    lemma ViewDrops(before: ProcessView, tid: Tid)
      requires Separate() && mapThreads.Keys == before.Keys - {tid}
      requires forall u :: u in mapThreads ==> mapThreads[u].View() == before[u]
      ensures View() == before - {tid}
    {
      hide PerfTree.Valid, PerfTree.View;
    }

    /** The thread's tree, found or made. */
    method TreeFor(tid: Tid) returns (t: PerfTree)
      requires Valid()
      modifies this`mapThreads, this`repr
      ensures Separate() && fresh(repr - old(repr)) && old(repr) <= repr
      ensures mapThreads == old(mapThreads)[tid := t] && t.Valid() && t.repr <= repr
      ensures tid in old(mapThreads) ==> t == old(mapThreads[tid])
      ensures View() == old(View())[tid := if tid in old(View()) then old(View())[tid] else EMPTY_TREE]
      ensures t.scopes == if tid in old(mapThreads) then old(mapThreads[tid].scopes) else []
    {
      hide PerfTree.Valid, PerfTree.View, Separate, View;
      var found := GetTree(tid);
      if found == null {
        t := MakeTree(tid);
      } else {
        t := found;
        KnownTree(tid);
      }
    }

    method MakeTree(tid: Tid) returns (t: PerfTree)
      requires Valid() && tid !in mapThreads
      modifies this`mapThreads, this`repr
      ensures Separate() && fresh(repr - old(repr)) && old(repr) <= repr
      ensures mapThreads == old(mapThreads)[tid := t] && t.Valid() && t.repr <= repr && t.scopes == []
      ensures tid !in old(View()) && View() == old(View())[tid := EMPTY_TREE]
    {
      hide PerfTree.Valid, PerfTree.View;
      ghost var v, was := View(), mapThreads;
      t := NewTree(tid);
      StayApart(was, repr, this, tid, t);
      repr := repr + t.repr;
      ViewSteps(v, tid, EMPTY_TREE);
    }

    method OpenIn(tid: Tid, scope: PerfNode, now: uint64)
      requires Separate() && tid in mapThreads && scope !in repr && scope.childNodes == map[]
      requires forall u :: u in mapThreads && u != tid ==> mapThreads[u].activeNode != []
      modifies repr, scope`nodeInTree, scope`tree
      ensures Valid() && fresh(repr - old(repr) - {scope}) && mapThreads == old(mapThreads)
      ensures mapThreads[tid].View() == Step(old(mapThreads[tid].View()), Open(scope.elementName, scope.startTime))
      ensures forall u :: u in mapThreads && u != tid ==> mapThreads[u].View() == old(mapThreads[u].View())
      ensures mapThreads[tid].scopes == old(mapThreads[tid].scopes) + [scope]
      ensures forall u :: u in mapThreads && u != tid ==> mapThreads[u].scopes == old(mapThreads[u].scopes)
    {
      hide PerfTree.Valid, PerfTree.View, Step;
      var t := mapThreads[tid];
      ghost var r := t.repr;
      forall u | u in mapThreads && u != tid ensures mapThreads[u].repr !! r {}
      t.AddNode(scope, now);
      forall u | u in mapThreads && u != tid
        ensures mapThreads[u].Valid() && mapThreads[u].repr !! t.repr
        ensures mapThreads[u] in repr && mapThreads[u].repr <= repr && this !in mapThreads[u].repr
      {
        assert mapThreads[u].repr !! r;
      }
      repr := repr + t.repr;
    }

    method OpenStep(tid: Tid, scope: PerfNode, now: uint64)
      requires Separate() && tid in mapThreads && scope !in repr && scope.childNodes == map[]
      requires forall u :: u in mapThreads && u != tid ==> mapThreads[u].activeNode != []
      modifies repr, scope`nodeInTree, scope`tree
      ensures Valid() && fresh(repr - old(repr) - {scope}) && mapThreads == old(mapThreads)
      ensures View() == old(View())[tid := Step(old(View())[tid], Open(scope.elementName, scope.startTime))]
      ensures mapThreads[tid].scopes == old(mapThreads[tid].scopes) + [scope]
      ensures forall u :: u in mapThreads && u != tid ==> mapThreads[u].scopes == old(mapThreads[u].scopes)
    {
      hide PerfTree.Valid, PerfTree.View, Step, Separate;
      ghost var v := View();
      OpenIn(tid, scope, now);
      ViewSteps(v, tid, Step(v[tid], Open(scope.elementName, scope.startTime)));
    }

    /** The rest of a scope's constructor: its node goes into the thread's tree. */
    method OpenOn(tid: Tid, scope: PerfNode, now: uint64)
      requires Valid() && scope !in repr && scope.childNodes == map[]
      modifies repr, scope`nodeInTree, scope`tree
      ensures Valid() && fresh(repr - old(repr) - {scope})
      ensures View() == ProcessStep(old(View()), ProcessEvent.OpenIn(tid, scope.elementName, scope.startTime))
      ensures tid in mapThreads && mapThreads == old(mapThreads)[tid := mapThreads[tid]]
      ensures mapThreads[tid].scopes ==
              (if tid in old(mapThreads) then old(mapThreads[tid].scopes) else []) + [scope]
      ensures forall u :: u in old(mapThreads) && u != tid ==> mapThreads[u].scopes == old(mapThreads[u].scopes)
    {
      hide PerfTree.Valid, PerfTree.View, Step, Separate, View;
      ghost var v := View();
      var t := TreeFor(tid);
      assert scope !in repr && View()[tid] == if tid in v then v[tid] else EMPTY_TREE;
      OpenStep(tid, scope, now);
      assert View() == v[tid := View()[tid]];
    }

    method GetTree(tid: Tid) returns (t: PerfTree?)
      ensures t == if tid in mapThreads then mapThreads[tid] else null
    {
      t := null;
      if tid in mapThreads {
        t := mapThreads[tid];
      }
    }

    method NewTree(tid: Tid) returns (t: PerfTree?)
      modifies this`mapThreads
      ensures tid in old(mapThreads) ==> t == null && mapThreads == old(mapThreads)
      ensures tid !in old(mapThreads) ==>
        && t != null && fresh(t) && mapThreads == old(mapThreads)[tid := t]
        && t.Valid() && t.activeNode == [] && t.scopes == [] && t.View() == EMPTY_TREE && fresh(t.repr)
    {
      t := null;
      if tid !in mapThreads {
        t := new PerfTree();
        mapThreads := mapThreads[tid := t];
      }
    }

    /** A scope object of the thread goes out of scope. */
    method CloseIn(tid: Tid, scope: PerfNode, now: uint64)
      requires Valid() && tid in mapThreads
      requires mapThreads[tid].scopes != [] && mapThreads[tid].scopes[|mapThreads[tid].scopes| - 1] == scope
      modifies mapThreads[tid].repr
      ensures Valid() && repr == old(repr) && mapThreads == old(mapThreads)
      ensures View() == ProcessStep(old(View()), ProcessEvent.CloseIn(tid, now))
      ensures mapThreads[tid].scopes == old(mapThreads[tid].scopes)[..|old(mapThreads[tid].scopes)| - 1]
      ensures forall u :: u in mapThreads && u != tid ==> mapThreads[u].scopes == old(mapThreads[u].scopes)
    {
      hide PerfTree.Valid, PerfTree.View, Step;
      OpenScopeLinked(tid, scope);
      var t := mapThreads[tid];
      ghost var v, r := View(), t.repr;
      forall u | u in mapThreads && u != tid ensures mapThreads[u].repr !! r {}
      var _ := scope.Close(now);
      assert t.scopes == old(mapThreads[tid].scopes)[..|old(mapThreads[tid].scopes)| - 1];
      forall u | u in mapThreads && u != tid
        ensures mapThreads[u].Valid() && mapThreads[u].View() == v[u]
      {
        assert mapThreads[u].repr !! r;
      }
      ViewSteps(v, tid, Step(v[tid], Event.Close(now)));
    }

    method ReportTree(tid: Tid) returns (lines: seq<Line>)
      requires Valid() && tid in mapThreads
      modifies mapThreads[tid].repr
      ensures Valid() && repr == old(repr) && mapThreads == old(mapThreads)
      ensures View() == old(View())[tid := Step(old(View())[tid], Report)]
      ensures IsReport(lines, old(View())[tid].nodes)
    {
      hide PerfTree.Valid, PerfTree.View, Step, IsReport;
      var t := mapThreads[tid];
      ghost var v, r := View(), t.repr;
      forall u | u in mapThreads && u != tid ensures mapThreads[u].repr !! r {}
      lines := t.ReportData();
      forall u | u in mapThreads && u != tid
        ensures mapThreads[u].Valid() && mapThreads[u].View() == v[u]
      {
        assert mapThreads[u].repr !! r;
      }
      ViewSteps(v, tid, Step(v[tid], Report));
    }

    /** GstPerf_ReportThread. */
    method ReportThread(tid: Tid) returns (lines: seq<Line>)
      requires Valid()
      modifies repr
      ensures Valid() && repr == old(repr) && mapThreads == old(mapThreads)
      ensures View() == ProcessStep(old(View()), ProcessEvent.ReportThread(tid))
      ensures if tid in old(View()) then IsReport(lines, old(View())[tid].nodes) else lines == []
    {
      hide PerfTree.Valid, PerfTree.View, Step, IsReport;
      lines := [];
      var t := GetTree(tid);
      if t != null {
        lines := ReportTree(tid);
      }
    }

    /** Reports every thread's tree. */
    method ReportData() returns (lines: map<Tid, seq<Line>>)
      requires Valid()
      modifies repr
      ensures Valid() && repr == old(repr) && mapThreads == old(mapThreads)
      ensures View() == ReportAllBut(old(View()), {})
      ensures AreReports(lines, old(View()), {})
    {
      hide PerfTree.Valid, PerfTree.View, Step, Separate, IsReport;
      ghost var v := View();
      var rest := mapThreads.Keys;
      lines := map[];
      assert View() == ReportAllBut(v, rest) && AreReports(lines, v, rest);
      hide ReportAllBut, AreReports, View;
      while rest != {}
        invariant rest <= v.Keys == mapThreads.Keys
        invariant Valid() && repr == old(repr) && mapThreads == old(mapThreads)
        invariant View() == ReportAllBut(v, rest)
        invariant AreReports(lines, v, rest)
      {
        var tid :| tid in rest;
        assert mapThreads[tid] in repr && mapThreads[tid].repr <= repr by { InRepr(tid); }
        var report := ReportTree(tid);
        ReportOneMore(lines, v, rest, tid, report);
        lines := lines[tid := report];
        rest := rest - {tid};
      }
    }

    /** Throws away the trees in which no scope was opened since their last report. */
    method CloseInactiveThreads() returns (closed: bool)
      requires Valid()
      modifies this`mapThreads
      ensures Valid()
      ensures View() == ActiveOr(old(View()), {})
      ensures closed <==> exists t :: t in old(View()) && Inactive(old(View())[t])
    {
      hide PerfTree.Valid, PerfTree.View, Separate;
      closed := false;
      ghost var v := View();
      var rest := mapThreads.Keys;
      assert View() == ActiveOr(v, rest);
      while rest != {}
        invariant rest <= mapThreads.Keys && rest <= v.Keys && Valid()
        invariant View() == ActiveOr(v, rest)
        invariant closed <==> exists t :: t in v && t !in rest && Inactive(v[t])
      {
        var tid :| tid in rest;
        InactiveInView(tid);
        ActiveOrShrinks(v, rest, tid);
        if mapThreads[tid].IsInactive() {
          Drop(tid);
          closed := true;
        }
        rest := rest - {tid};
      }
    }

    /** Deletes a thread's tree and forgets it. */
    method Drop(tid: Tid)
      requires Valid() && tid in mapThreads
      modifies this`mapThreads
      ensures Valid() && mapThreads == old(mapThreads) - {tid} && View() == old(View()) - {tid}
    {
      hide PerfTree.Valid, PerfTree.View;
      ghost var v := View();
      var _ := mapThreads[tid].Delete();
      mapThreads := mapThreads - {tid};
      ViewDrops(v, tid);
    }

    /** GstPerf_ReportProcess: the threads it still finds active are reported. */
    method ReportProcess() returns (lines: map<Tid, seq<Line>>)
      requires Valid()
      modifies this, repr
      ensures Valid() && View() == ProcessStep(old(View()), ProcessEvent.ReportProcess)
      ensures AreReports(lines, ActiveOr(old(View()), {}), {})
    {
      hide PerfTree.Valid, Separate, View, Step, AreReports;
      ghost var v := View();
      assert ReportAllBut(ActiveOr(v, {}), {}) == ProcessStep(v, ProcessEvent.ReportProcess);
      var _ := CloseInactiveThreads();
      lines := ReportData();
    }

    /** GstPerf_CloseThread. */
    method RemoveTree(tid: Tid) returns (removed: bool)
      requires Valid()
      modifies this`mapThreads
      ensures Valid() && View() == ProcessStep(old(View()), CloseThread(tid))
      ensures removed <==> tid in old(mapThreads)
    {
      hide PerfTree.Valid, PerfTree.View, Separate;
      removed := false;
      if tid in mapThreads {
        Drop(tid);
        removed := true;
      }
    }
  }

  /** The profiler's map of processes. */
  class ProcessMap {
    var all: map<Pid, PerfProcess>

    constructor ()
      ensures all == map[]
    {
      all := map[];
    }

    ghost function ReprOf(pid: Pid): set<object>
      reads this, if pid in all then {all[pid]} else {}
    {
      if pid in all then all[pid].repr else {}
    }

    ghost predicate ValidFor(pid: Pid)
      reads this, if pid in all then {all[pid]} else {}, ReprOf(pid)
    {
      pid in all ==> all[pid].Valid() && this !in all[pid].repr
    }

    /** The processes are in order and share no objects. */
    ghost predicate Valid()
      reads this, all.Values, set q, o | q in all && o in all[q].repr :: o
    {
      && (forall q :: q in all ==> all[q].Valid() && this !in all[q].repr)
      && (forall q, r :: q in all && r in all && q != r ==> all[q].repr !! all[r].repr)
    }

    /** The view of a process, which has no trees when it is not in the map. */
    ghost function ViewOf(pid: Pid): ProcessView
      requires ValidFor(pid)
      reads this, if pid in all then {all[pid]} else {}, ReprOf(pid)
    {
      if pid in all then all[pid].View() else map[]
    }

    ghost function ScopesOf(pid: Pid, tid: Tid): seq<PerfNode>
      requires ValidFor(pid)
      reads this, if pid in all then {all[pid]} else {}, ReprOf(pid)
    {
      if pid in all && tid in all[pid].mapThreads then all[pid].mapThreads[tid].scopes else []
    }

    /** The process, found or made. */
    method GetProcess(pid: Pid) returns (p: PerfProcess)
      requires Valid()
      modifies this`all
      ensures Valid() && all == old(all)[pid := p] && p.Valid()
      ensures pid in old(all) ==> p == old(all)[pid]
      ensures pid !in old(all) ==> fresh(p) && fresh(p.repr) && p.View() == map[] && p.mapThreads == map[]
    {
      hide PerfProcess.Valid, PerfProcess.View;
      if pid in all {
        p := all[pid];
      } else {
        p := new PerfProcess();
        all := all[pid := p];
      }
    }

    /** The rest of a scope's construction. */
    method OpenIn(pid: Pid, tid: Tid, scope: PerfNode, now: uint64)
      requires Valid() && scope.childNodes == map[] && forall q :: q in all ==> scope !in all[q].repr
      modifies this, ReprOf(pid), scope`nodeInTree, scope`tree
      ensures Valid() && fresh(ReprOf(pid) - old(ReprOf(pid)) - {scope})
      ensures pid in all && all == old(all)[pid := all[pid]] && (pid in old(all) ==> all[pid] == old(all)[pid])
      ensures ViewOf(pid) == ProcessStep(old(ViewOf(pid)), ProcessEvent.OpenIn(tid, scope.elementName, scope.startTime))
      ensures ScopesOf(pid, tid) == old(ScopesOf(pid, tid)) + [scope]
      ensures forall u :: u in old(ViewOf(pid)) && u != tid ==> ScopesOf(pid, u) == old(ScopesOf(pid, u))
      ensures forall q :: q != pid ==> ViewOf(q) == old(ViewOf(q)) && ReprOf(q) == old(ReprOf(q))
    {
      hide PerfProcess.Valid, PerfProcess.View, ProcessStep;
      var process := GetProcess(pid);
      assert scope !in process.repr;
      assert forall q :: q in all && q != pid ==> all[q].repr !! process.repr && scope !in all[q].repr;
      process.OpenOn(tid, scope, now);
    }
  }
}
