/** The import-boundary checker of architecture_check.py. */
module ImportBoundary {
  import opened Wrappers
  import opened StringOrder

  /** A package path; Python compares strings by code points. */
  type Node = string
  type Graph = map<Node, set<Node>>
  type Path = seq<Node>

  function Successors(graph: Graph, v: Node): set<Node> {
    if v in graph then graph[v] else {}
  }

  ghost predicate IsPath(graph: Graph, start: Node, end: Node, p: Path) {
    && p != [] && p[0] == start && p[|p| - 1] == end
    && forall i | 0 <= i < |p| - 1 :: p[i + 1] in Successors(graph, p[i])
  }

  ghost predicate Reaches(graph: Graph, start: Node, end: Node) {
    exists p :: IsPath(graph, start, end, p)
  }

  // ---------- shorter first, then lexicographic ----------

  predicate LexLess(p: Path, q: Path) {
    p != [] && q != [] && (Less(p[0], q[0]) || (p[0] == q[0] && LexLess(p[1..], q[1..])))
  }

  predicate Before(p: Path, q: Path) { |p| < |q| || (|p| == |q| && LexLess(p, q)) }

  predicate AtMost(p: Path, q: Path) { p == q || Before(p, q) }

  lemma {:induction false} LexOrder(p: Path, q: Path)
    requires |p| == |q|
    ensures LexLess(p, q) || p == q || LexLess(q, p)
    ensures !(LexLess(p, q) && LexLess(q, p)) && !(p == q && LexLess(p, q))
  {
    if p != [] {
      LessOrder(p[0], q[0]);
      LexOrder(p[1..], q[1..]);
      assert p == [p[0]] + p[1..] && q == [q[0]] + q[1..];
    }
  }

  lemma {:induction false} LexTransitive(p: Path, q: Path, r: Path)
    requires LexLess(p, q) && LexLess(q, r)
    ensures LexLess(p, r)
  {
    LessOrder(p[0], p[0]);
    if p[0] == q[0] == r[0] {
      LexTransitive(p[1..], q[1..], r[1..]);
    } else if Less(p[0], q[0]) && Less(q[0], r[0]) {
      LessTransitive(p[0], q[0], r[0]);
    }
  }

  lemma BeforeTransitive(p: Path, q: Path, r: Path)
    requires AtMost(p, q) && AtMost(q, r)
    ensures AtMost(p, r) && (Before(p, q) || Before(q, r) ==> Before(p, r))
  {
    if |p| == |q| == |r| && p != q && q != r {
      LexTransitive(p, q, r);
    }
  }

  lemma {:induction false} LexExtend(p: Path, q: Path, x: Path, y: Path)
    requires |p| == |q| && LexLess(p, q)
    ensures LexLess(p + x, q + y)
  {
    LessOrder(p[0], p[0]);
    if p[0] == q[0] {
      LexExtend(p[1..], q[1..], x, y);
      assert (p + x)[1..] == p[1..] + x && (q + y)[1..] == q[1..] + y;
    }
  }

  lemma {:induction false} LexSamePrefix(p: Path, a: Node, b: Node)
    requires Less(a, b)
    ensures LexLess(p + [a], p + [b])
  {
    if p != [] {
      LexSamePrefix(p[1..], a, b);
      assert (p + [a])[1..] == p[1..] + [a] && (p + [b])[1..] == p[1..] + [b];
    }
  }

  /** One step from an earlier path comes before one step from a later path. */
  lemma StepBefore(p: Path, a: Node, q: Path, b: Node)
    requires Before(p, q) || (p == q && Less(a, b))
    ensures Before(p + [a], q + [b])
  {
    LexOrder(p, p);
    if p == q {
      LexSamePrefix(p, a, b);
    } else if |p| == |q| {
      LexExtend(p, q, [a], [b]);
    }
  }

  /** A path whose proper prefix comes no earlier than `p` comes no earlier than one step from `p`. */
  lemma PrefixDecides(p: Path, q: Path, k: nat)
    requires 0 < k < |q| && AtMost(p, q[..k])
    ensures AtMost(p + [q[|q| - 1]], q)
  {
    if k == |q| - 1 && |p| == k {
      assert q == q[..k] + [q[k]];
      if p != q[..k] {
        StepBefore(p, q[k], q[..k], q[k]);
      }
    }
  }

  // ---------- the search ----------

  /** A path to its end that comes before every other one: a shortest, and the least of the shortest. */
  ghost predicate Best(graph: Graph, start: Node, end: Node, p: Path) {
    IsPath(graph, start, end, p) && forall q | IsPath(graph, start, end, q) :: AtMost(p, q)
  }

  /** The path kept for a visited node. */
  function Kept(paths: map<Node, Path>, start: Node, v: Node): Path
    requires v == start || v in paths
  {
    if v == start then [start] else paths[v]
  }

  ghost predicate Queued(queue: seq<Path>, v: Node) {
    exists i | 0 <= i < |queue| :: queue[i] != [] && queue[i][|queue[i]| - 1] == v
  }

  predicate Visited(paths: map<Node, Path>, start: Node, v: Node) { v == start || v in paths }

  ghost predicate AllBest(graph: Graph, start: Node, paths: map<Node, Path>) {
    forall v | Visited(paths, start, v) :: Best(graph, start, v, Kept(paths, start, v))
  }

  /** A visited node is finished or waits in the queue. */
  ghost predicate Covered(queue: seq<Path>, paths: map<Node, Path>, start: Node, done: set<Node>) {
    && (forall v | v in done :: Visited(paths, start, v))
    && (forall v | Visited(paths, start, v) :: v in done || Queued(queue, v))
  }

  ghost predicate AllKept(queue: seq<Path>, paths: map<Node, Path>, start: Node) {
    forall i | 0 <= i < |queue| :: KeptEnd(queue[i], paths, start)
  }

  predicate InOrder(queue: seq<Path>) {
    forall i, j | 0 <= i < j < |queue| :: Before(queue[i], queue[j])
  }

  ghost predicate DoneFirst(queue: seq<Path>, paths: map<Node, Path>, start: Node, done: set<Node>) {
    forall v, i | v in done && Visited(paths, start, v) && 0 <= i < |queue| :: Before(Kept(paths, start, v), queue[i])
  }

  /** What the search keeps: best paths, the queue in order, and the finished nodes before the queue. */
  ghost predicate Searching(graph: Graph, start: Node, queue: seq<Path>, paths: map<Node, Path>, done: set<Node>) {
    && start !in paths
    && AllBest(graph, start, paths)
    && Covered(queue, paths, start, done)
    && AllKept(queue, paths, start)
    && InOrder(queue)
    && DoneFirst(queue, paths, start, done)
  }

  ghost predicate KeptEnd(p: Path, paths: map<Node, Path>, start: Node) {
    p != [] && var v := p[|p| - 1]; (v == start || v in paths) && p == Kept(paths, start, v)
  }

  lemma OneNodePath(graph: Graph, start: Node)
    ensures Best(graph, start, start, [start])
  {
    assert IsPath(graph, start, start, [start]);
    forall q | IsPath(graph, start, start, q) ensures AtMost([start], q) {
      if |q| == 1 {
        assert q == [start];
      }
    }
  }

  /** A path that leaves the visited nodes does so from a queued node or from the one being processed. */
  lemma LeavesFrom(graph: Graph, start: Node, target: Node, q: Path, visited: set<Node>) returns (k: nat)
    requires IsPath(graph, start, target, q) && start in visited && target !in visited
    ensures 0 < k < |q| && q[k - 1] in visited && q[k] !in visited && q[k] in Successors(graph, q[k - 1])
    ensures IsPath(graph, start, q[k - 1], q[..k])
  {
    k := 1;
    while q[k] in visited
      invariant 0 < k < |q| && q[k - 1] in visited
      decreases |q| - k
    {
      k := k + 1;
    }
    assert q[k - 1 + 1] in Successors(graph, q[k - 1]);
  }

  /** One step from the path being processed is the best path to a node not visited before. */
  lemma StepIsBest(graph: Graph, start: Node, current: Path, target: Node, visited: set<Node>, done: set<Node>,
                   paths: map<Node, Path>)
    requires start in visited && target !in visited && visited == paths.Keys + {start}
    requires forall v | v in visited :: Best(graph, start, v, Kept(paths, start, v))
    requires KeptEnd(current, paths, start) && target in Successors(graph, current[|current| - 1])
    requires forall v | v in visited && v !in done :: AtMost(current, Kept(paths, start, v))
    requires forall v | v in done :: Successors(graph, v) <= visited
    ensures Best(graph, start, target, current + [target])
  {
    var p := current + [target];
    assert IsPath(graph, start, target, p);
    forall q | IsPath(graph, start, target, q) ensures AtMost(p, q) {
      var k := LeavesFrom(graph, start, target, q, visited);
      var v := q[k - 1];
      assert q[k - 1 + 1] in Successors(graph, q[k - 1]);
      assert v !in done;
      BeforeTransitive(current, Kept(paths, start, v), q[..k]);
      PrefixDecides(current, q, k);
    }
  }

  ghost predicate Closed(graph: Graph, v: Node, paths: map<Node, Path>, start: Node) {
    forall w | w in Successors(graph, v) :: w == start || w in paths
  }

  ghost predicate AllClosed(graph: Graph, done: set<Node>, paths: map<Node, Path>, start: Node) {
    forall v | v in done :: Closed(graph, v, paths, start)
  }

  /** Every queued path but the start's is one step from a finished node's path. */
  ghost predicate ParentsDone(queue: seq<Path>, paths: map<Node, Path>, start: Node, done: set<Node>) {
    forall i | 0 <= i < |queue| :: queue[i] == [start] || ParentDone(queue[i], paths, start, done)
  }

  ghost predicate ParentDone(p: Path, paths: map<Node, Path>, start: Node, done: set<Node>) {
    |p| >= 2 && KeptEnd(p[..|p| - 1], paths, start) && p[|p| - 2] in done
  }

  /** Every queued path comes before one step from `current` to a target not yet handled. */
  ghost predicate QueueBefore(queue: seq<Path>, current: Path, ts: seq<Node>, i: nat) {
    forall k, j | 0 <= k < |queue| && i <= j < |ts| :: Before(queue[k], current + [ts[j]])
  }

  lemma QueueStartsBefore(graph: Graph, start: Node, queue: seq<Path>, paths: map<Node, Path>, done: set<Node>,
                          ts: seq<Node>)
    requires queue != [] && Searching(graph, start, queue, paths, done) && ParentsDone(queue, paths, start, done)
    ensures QueueBefore(queue[1..], queue[0], ts, 0)
  {
    hide IsPath, LexLess, Best, Less, Queued;
    forall k, j | 0 <= k < |queue[1..]| && 0 <= j < |ts| ensures Before(queue[1..][k], queue[0] + [ts[j]]) {
      var p := queue[k + 1];
      if p != [start] {
        var parent := p[..|p| - 1];
        assert p == parent + [p[|p| - 1]];
        assert ParentDone(p, paths, start, done);
        StepBefore(parent, p[|p| - 1], queue[0], ts[j]);
      }
    }
  }

  lemma UnfinishedNotEarlier(start: Node, queue: seq<Path>, paths: map<Node, Path>, done: set<Node>, v: Node)
    requires queue != [] && Covered(queue, paths, start, done) && AllKept(queue, paths, start) && InOrder(queue)
    requires Visited(paths, start, v) && v !in done
    ensures AtMost(queue[0], Kept(paths, start, v))
  {
    hide LexLess, Less;
    var i :| 0 <= i < |queue| && queue[i] != [] && queue[i][|queue[i]| - 1] == v;
    assert KeptEnd(queue[i], paths, start);
  }

  lemma CoveredVisit(queue: seq<Path>, paths: map<Node, Path>, start: Node, done: set<Node>, p: Path)
    requires Covered(queue, paths, start, done) && p != []
    ensures Covered(queue + [p], paths[p[|p| - 1] := p], start, done)
  {
    var paths', more := paths[p[|p| - 1] := p], queue + [p];
    forall v | Visited(paths', start, v) ensures v in done || Queued(more, v) {
      if v == p[|p| - 1] {
        assert more[|queue|] == p;
      } else if v !in done {
        assert Visited(paths, start, v);
        var i :| 0 <= i < |queue| && queue[i] != [] && queue[i][|queue[i]| - 1] == v;
        assert more[i] == queue[i];
      }
    }
  }

  lemma KeptVisit(queue: seq<Path>, paths: map<Node, Path>, start: Node, p: Path)
    requires AllKept(queue, paths, start) && p != [] && p[|p| - 1] != start && p[|p| - 1] !in paths
    ensures AllKept(queue + [p], paths[p[|p| - 1] := p], start)
  {
    forall i | 0 <= i < |queue + [p]| ensures KeptEnd((queue + [p])[i], paths[p[|p| - 1] := p], start) {
      if i < |queue| {
        assert KeptEnd(queue[i], paths, start);
      }
    }
  }

  lemma DoneVisit(queue: seq<Path>, paths: map<Node, Path>, start: Node, done: set<Node>, p: Path)
    requires queue != [] && DoneFirst(queue, paths, start, done) && Before(queue[0], p)
    requires p != [] && p[|p| - 1] != start && p[|p| - 1] !in paths && forall v | v in done :: Visited(paths, start, v)
    ensures DoneFirst(queue + [p], paths[p[|p| - 1] := p], start, done)
  {
    hide Before;
    var paths' := paths[p[|p| - 1] := p];
    forall v, i | v in done && Visited(paths', start, v) && 0 <= i < |queue + [p]|
      ensures Before(Kept(paths', start, v), (queue + [p])[i])
    {
      if i == |queue| {
        BeforeTransitive(Kept(paths, start, v), queue[0], p);
      }
    }
  }

  lemma BestVisit(graph: Graph, start: Node, queue: seq<Path>, paths: map<Node, Path>, done: set<Node>, target: Node)
    requires queue != [] && Searching(graph, start, queue, paths, done) && AllClosed(graph, done, paths, start)
    requires queue[0] != [] && target in Successors(graph, queue[0][|queue[0]| - 1]) && !Visited(paths, start, target)
    ensures AllBest(graph, start, paths[target := queue[0] + [target]])
  {
    hide IsPath, Before, Best, Covered, InOrder, DoneFirst;
    var p := queue[0] + [target];
    forall v | v in paths.Keys + {start} && v !in done ensures AtMost(queue[0], Kept(paths, start, v)) {
      UnfinishedNotEarlier(start, queue, paths, done, v);
    }
    StepIsBest(graph, start, queue[0], target, paths.Keys + {start}, done, paths);
    var paths' := paths[target := p];
    forall v | Visited(paths', start, v) ensures Best(graph, start, v, Kept(paths', start, v)) {
      assert v != target ==> Visited(paths, start, v);
    }
  }

  /** Visiting a new target keeps the search in order. */
  lemma VisitTarget(graph: Graph, start: Node, queue: seq<Path>, paths: map<Node, Path>, done: set<Node>, target: Node)
    requires queue != [] && Searching(graph, start, queue, paths, done) && AllClosed(graph, done, paths, start)
    requires queue[0] != [] && target in Successors(graph, queue[0][|queue[0]| - 1]) && !Visited(paths, start, target)
    requires forall k | 0 <= k < |queue| :: Before(queue[k], queue[0] + [target])
    ensures var p := queue[0] + [target]; Searching(graph, start, queue + [p], paths[target := p], done)
  {
    hide Before, AllBest, Covered, AllKept, DoneFirst;
    var p := queue[0] + [target];
    assert p[|p| - 1] == target;
    BestVisit(graph, start, queue, paths, done, target);
    CoveredVisit(queue, paths, start, done, p);
    KeptVisit(queue, paths, start, p);
    assert forall v | v in done :: Visited(paths, start, v) by { DoneAreVisited(queue, paths, start, done); }
    DoneVisit(queue, paths, start, done, p);
  }

  lemma DoneAreVisited(queue: seq<Path>, paths: map<Node, Path>, start: Node, done: set<Node>)
    requires Covered(queue, paths, start, done)
    ensures forall v | v in done :: Visited(paths, start, v)
  {
  }

  lemma CoveredFinish(queue: seq<Path>, paths: map<Node, Path>, start: Node, done: set<Node>, v: Node)
    requires queue != [] && Covered(queue, paths, start, done)
    requires queue[0] != [] && queue[0][|queue[0]| - 1] == v && Visited(paths, start, v)
    ensures Covered(queue[1..], paths, start, done + {v})
  {
    var rest := queue[1..];
    forall u | Visited(paths, start, u) ensures u in done + {v} || Queued(rest, u) {
      if u !in done {
        var i :| 0 <= i < |queue| && queue[i] != [] && queue[i][|queue[i]| - 1] == u;
        assert i > 0 ==> rest[i - 1] == queue[i];
      }
    }
  }

  lemma DoneFinish(queue: seq<Path>, paths: map<Node, Path>, start: Node, done: set<Node>, v: Node)
    requires queue != [] && InOrder(queue) && DoneFirst(queue, paths, start, done)
    requires Visited(paths, start, v) && queue[0] == Kept(paths, start, v)
    ensures DoneFirst(queue[1..], paths, start, done + {v})
  {
    hide Before, Kept;
  }

  /** Once every successor of the first queued node is visited, the node is finished. */
  lemma FinishNode(graph: Graph, start: Node, queue: seq<Path>, paths: map<Node, Path>, done: set<Node>)
    requires queue != [] && Searching(graph, start, queue, paths, done)
    ensures queue[0] != [] && Searching(graph, start, queue[1..], paths, done + {queue[0][|queue[0]| - 1]})
  {
    hide Before, AllBest, Covered, DoneFirst;
    var v := queue[0][|queue[0]| - 1];
    assert KeptEnd(queue[0], paths, start);
    CoveredFinish(queue, paths, start, done, v);
    DoneFinish(queue, paths, start, done, v);
  }

  // ---------- _shortest_paths ----------

  function Nodes(graph: Graph): set<Node> {
    graph.Keys + (set v, w | v in graph && w in graph[v] :: w)
  }

  /** The visited nodes are the reachable ones when every one of them is finished. */
  lemma AllReached(graph: Graph, start: Node, paths: map<Node, Path>, done: set<Node>, target: Node)
    requires Searching(graph, start, [], paths, done) && AllClosed(graph, done, paths, start)
    ensures Reaches(graph, start, target) <==> Visited(paths, start, target)
  {
    hide Before, LexLess;
    if Visited(paths, start, target) {
      assert Best(graph, start, target, Kept(paths, start, target));
    }
    var visited := paths.Keys + {start};
    forall v | v in visited ensures Successors(graph, v) <= visited {
      assert Visited(paths, start, v);
      assert Closed(graph, v, paths, start);
    }
    if Reaches(graph, start, target) && !Visited(paths, start, target) {
      var q :| IsPath(graph, start, target, q);
      var k := LeavesFrom(graph, start, target, q, visited);
    }
  }

  /** A path for exactly the nodes other than the start that it reaches: the least of the shortest ones. */
  method ShortestPaths(graph: Graph, start: Node) returns (paths: map<Node, Path>)
    ensures forall t :: t in paths <==> t != start && Reaches(graph, start, t)
    ensures forall t | t in paths :: Best(graph, start, t, paths[t])
  {
    var queue: seq<Path> := [[start]];
    var visited := {start};
    paths := map[];
    ghost var done: set<Node> := {};
    ghost var nodes := Nodes(graph) + {start};
    OneNodePath(graph, start);
    assert Queued(queue, start);
    while queue != []
      invariant visited == paths.Keys + {start} && visited <= nodes
      invariant Searching(graph, start, queue, paths, done)
      invariant AllClosed(graph, done, paths, start)
      invariant ParentsDone(queue, paths, start, done)
      decreases nodes - visited, |queue|
    {
      assert KeptEnd(queue[0], paths, start);
      queue, visited, paths, done := Expand(graph, start, queue, visited, paths, done);
    }
    forall t ensures t in paths <==> t != start && Reaches(graph, start, t) {
      AllReached(graph, start, paths, done, t);
    }
    forall t | t in paths ensures Best(graph, start, t, paths[t]) {
      assert Visited(paths, start, t);
    }
  }

  lemma ParentsInTail(queue: seq<Path>, paths: map<Node, Path>, start: Node, done: set<Node>, v: Node)
    requires queue != [] && ParentsDone(queue, paths, start, done)
    ensures ParentsDone(queue[1..], paths, start, done + {v})
  {
    forall i | 0 <= i < |queue[1..]| && queue[1..][i] != [start]
      ensures ParentDone(queue[1..][i], paths, start, done + {v})
    {
      assert ParentDone(queue[i + 1], paths, start, done);
    }
  }

  lemma ParentsVisit(queue: seq<Path>, paths: map<Node, Path>, start: Node, done: set<Node>, current: Path,
                     target: Node)
    requires ParentsDone(queue, paths, start, done) && !Visited(paths, start, target)
    requires KeptEnd(current, paths, start) && current[|current| - 1] in done
    ensures var p := current + [target]; ParentsDone(queue + [p], paths[target := p], start, done)
  {
    var p := current + [target];
    var more, paths' := queue + [p], paths[target := p];
    forall i | 0 <= i < |more| && more[i] != [start] ensures ParentDone(more[i], paths', start, done) {
      if i < |queue| {
        assert ParentDone(queue[i], paths, start, done);
      } else {
        assert p[..|p| - 1] == current;
      }
    }
  }

  lemma ClosedVisit(graph: Graph, done: set<Node>, paths: map<Node, Path>, start: Node, target: Node, p: Path)
    requires AllClosed(graph, done, paths, start)
    ensures AllClosed(graph, done, paths[target := p], start)
  {
    forall v | v in done ensures Closed(graph, v, paths[target := p], start) {
      assert Closed(graph, v, paths, start);
    }
  }

  lemma OrderVisit(queue: seq<Path>, current: Path, targets: seq<Node>, index: nat)
    requires QueueBefore(queue, current, targets, index) && index < |targets| && Increasing(targets)
    ensures QueueBefore(queue + [current + [targets[index]]], current, targets, index + 1)
    ensures forall k | 0 <= k < |[current] + queue| :: Before(([current] + queue)[k], current + [targets[index]])
  {
    hide LexLess, Less;
    forall j | index < j < |targets| ensures Before(current + [targets[index]], current + [targets[j]]) {
      StepBefore(current, targets[index], current, targets[j]);
    }
    forall k | 0 <= k < |[current] + queue| ensures Before(([current] + queue)[k], current + [targets[index]]) {
      if k > 0 {
        assert ([current] + queue)[k] == queue[k - 1];
      }
    }
  }

  /** A turn of the inner loop at a target that was not visited. */
  lemma TurnVisits(graph: Graph, start: Node, path: Path, queue: seq<Path>, paths: map<Node, Path>, done: set<Node>,
                   targets: seq<Node>, index: nat)
    requires path != [] && Searching(graph, start, [path] + queue, paths, done) && AllClosed(graph, done, paths, start)
    requires ParentsDone(queue, paths, start, done + {path[|path| - 1]})
    requires QueueBefore(queue, path, targets, index) && index < |targets| && Increasing(targets)
    requires targets[index] in Successors(graph, path[|path| - 1]) && !Visited(paths, start, targets[index])
    ensures var p := path + [targets[index]]; var paths' := paths[targets[index] := p];
            && Searching(graph, start, [path] + (queue + [p]), paths', done) && AllClosed(graph, done, paths', start)
            && ParentsDone(queue + [p], paths', start, done + {path[|path| - 1]})
            && QueueBefore(queue + [p], path, targets, index + 1)
    ensures targets[index] in Nodes(graph)
  {
    hide Before, AllBest, Covered, InOrder, DoneFirst, AllClosed, ParentsDone, QueueBefore;
    var target, all := targets[index], [path] + queue;
    assert KeptEnd(all[0], paths, start);
    OrderVisit(queue, path, targets, index);
    VisitTarget(graph, start, all, paths, done, target);
    assert [path] + (queue + [path + [target]]) == all + [path + [target]];
    ClosedVisit(graph, done, paths, start, target, path + [target]);
    ParentsVisit(queue, paths, start, done + {path[|path| - 1]}, path, target);
  }

  lemma NodeClosed(graph: Graph, start: Node, v: Node, targets: seq<Node>, paths: map<Node, Path>, done: set<Node>)
    requires Enumerates(targets, Successors(graph, v)) && AllClosed(graph, done, paths, start)
    requires forall j | 0 <= j < |targets| :: Visited(paths, start, targets[j])
    ensures AllClosed(graph, done + {v}, paths, start)
  {
    forall w | w in Successors(graph, v) ensures w == start || w in paths {
      assert w in targets;
    }
    assert Closed(graph, v, paths, start);
  }

  /** Takes a path off the queue and visits the successors of its end, in order. */
  method Expand(graph: Graph, start: Node, queue: seq<Path>, visited: set<Node>, paths: map<Node, Path>,
                ghost done: set<Node>)
    returns (queue': seq<Path>, visited': set<Node>, paths': map<Node, Path>, ghost done': set<Node>)
    requires queue != [] && queue[0] != []
    requires visited == paths.Keys + {start} && visited <= Nodes(graph) + {start}
    requires Searching(graph, start, queue, paths, done) && AllClosed(graph, done, paths, start)
    requires ParentsDone(queue, paths, start, done)
    ensures visited' == paths'.Keys + {start} && visited' <= Nodes(graph) + {start}
    ensures Searching(graph, start, queue', paths', done') && AllClosed(graph, done', paths', start)
    ensures ParentsDone(queue', paths', start, done')
    ensures visited < visited' || (visited == visited' && |queue'| < |queue|)
  {
    hide Before, AllBest, Covered, AllKept, InOrder, DoneFirst, AllClosed, ParentsDone;
    var path := queue[0];
    queue', visited', paths', done' := queue[1..], visited, paths, done;
    var targets := Sorted(Successors(graph, path[|path| - 1]));
    QueueStartsBefore(graph, start, queue, paths, done, targets);
    assert queue == [path] + queue';
    ParentsInTail(queue, paths, start, done, path[|path| - 1]);
    var index := 0;
    while index < |targets|
      invariant 0 <= index <= |targets|
      invariant visited' == paths'.Keys + {start} && visited <= visited' <= Nodes(graph) + {start}
      invariant visited == visited' ==> queue' == queue[1..]
      invariant Searching(graph, start, [path] + queue', paths', done) && AllClosed(graph, done, paths', start)
      invariant ParentsDone(queue', paths', start, done + {path[|path| - 1]})
      invariant QueueBefore(queue', path, targets, index)
      invariant forall j | 0 <= j < index :: Visited(paths', start, targets[j])
    {
      var target := targets[index];
      if target !in visited' {
        var candidate := path + [target];
        TurnVisits(graph, start, path, queue', paths', done, targets, index);
        visited' := visited' + {target};
        paths' := paths'[target := candidate];
        queue' := queue' + [candidate];
      }
      index := index + 1;
    }
    FinishNode(graph, start, [path] + queue', paths', done);
    assert ([path] + queue')[1..] == queue';
    done' := done + {path[|path| - 1]};
    NodeClosed(graph, start, path[|path| - 1], targets, paths', done);
  }

  // ---------- _boundary_violations ----------

  datatype ImportSite = ImportSite(source: Node, target: Node, file: string, line: int)

  datatype Rule = Rule(name: string, sourceMatches: Node -> bool, targetMatches: Node -> bool)

  /** `rule` is the position of the violated rule. */
  datatype Violation = Violation(rule: nat, source: Node, target: Node, path: Path, edges: seq<ImportSite>)

  /** Some site imports `target` from `source`. */
  ghost predicate Imports(sites: seq<ImportSite>, source: Node, target: Node) {
    exists i | 0 <= i < |sites| :: sites[i].source == source && sites[i].target == target
  }

  /** The graph has exactly the recorded imports as its edges. */
  ghost predicate GraphOf(graph: Graph, sites: seq<ImportSite>) {
    && (forall v, w :: w in Successors(graph, v) <==> Imports(sites, v, w))
  }

  /** The first site recorded for an edge. */
  ghost predicate FirstSite(site: ImportSite, sites: seq<ImportSite>, source: Node, target: Node) {
    exists i | 0 <= i < |sites| ::
      && sites[i] == site && site.source == source && site.target == target
      && forall j | 0 <= j < i :: !(sites[j].source == source && sites[j].target == target)
  }

  method BuildGraph(sites: seq<ImportSite>) returns (graph: Graph, siteByEdge: map<(Node, Node), ImportSite>)
    ensures GraphOf(graph, sites)
    ensures forall v, w | Imports(sites, v, w) :: (v, w) in siteByEdge && FirstSite(siteByEdge[(v, w)], sites, v, w)
  {
    graph, siteByEdge := map[], map[];
    var index := 0;
    assert sites[..0] == [];
    while index < |sites|
      invariant 0 <= index <= |sites|
      invariant GraphOf(graph, sites[..index])
      invariant forall v, w :: Imports(sites[..index], v, w) <==> (v, w) in siteByEdge
      invariant forall e | e in siteByEdge :: FirstSite(siteByEdge[e], sites[..index], e.0, e.1)
    {
      var site := sites[index];
      var edge := (site.source, site.target);
      NextSite(sites, index);
      AddEdge(graph, site.source, site.target);
      graph := graph[site.source := Successors(graph, site.source) + {site.target}];
      if edge !in siteByEdge {
        siteByEdge := siteByEdge[edge := site];
        NewFirstSite(sites, index);
      }
      index := index + 1;
    }
    assert sites[..|sites|] == sites;
  }

  lemma AddEdge(graph: Graph, source: Node, target: Node)
    ensures var graph' := graph[source := Successors(graph, source) + {target}];
            forall v, w :: w in Successors(graph', v) <==> w in Successors(graph, v) || (v == source && w == target)
  {
  }

  lemma NextSite(sites: seq<ImportSite>, index: nat)
    requires index < |sites|
    ensures forall v, w :: Imports(sites[..index + 1], v, w) <==>
              Imports(sites[..index], v, w) || (sites[index].source == v && sites[index].target == w)
    ensures forall s, v, w | FirstSite(s, sites[..index], v, w) :: FirstSite(s, sites[..index + 1], v, w)
  {
    var before, after := sites[..index], sites[..index + 1];
    assert forall i | 0 <= i < index :: after[i] == before[i];
    assert after[index] == sites[index];
    forall v, w
      ensures Imports(after, v, w) <==>
                Imports(before, v, w) || (sites[index].source == v && sites[index].target == w)
    {
      if Imports(before, v, w) {
        var i :| 0 <= i < |before| && before[i].source == v && before[i].target == w;
        assert after[i] == before[i];
      }
    }
    forall s, v, w | FirstSite(s, before, v, w) ensures FirstSite(s, after, v, w) {
      var i :| 0 <= i < |before| && before[i] == s && s.source == v && s.target == w
               && forall j | 0 <= j < i :: !(before[j].source == v && before[j].target == w);
      assert after[i] == s;
    }
  }

  lemma NewFirstSite(sites: seq<ImportSite>, index: nat)
    requires index < |sites| && !Imports(sites[..index], sites[index].source, sites[index].target)
    ensures FirstSite(sites[index], sites[..index + 1], sites[index].source, sites[index].target)
  {
    var after := sites[..index + 1];
    assert after[index] == sites[index];
    assert forall j | 0 <= j < index :: after[j] == sites[..index][j];
  }

  /** Following recorded imports. */
  ghost predicate Chain(sites: seq<ImportSite>, source: Node, target: Node, p: Path) {
    && p != [] && p[0] == source && p[|p| - 1] == target
    && forall i | 0 <= i < |p| - 1 :: Imports(sites, p[i], p[i + 1])
  }

  ghost predicate Violates(rules: seq<Rule>, sites: seq<ImportSite>, r: nat, source: Node, target: Node) {
    && r < |rules| && rules[r].sourceMatches(source) && rules[r].targetMatches(target)
    && source != target && exists p :: Chain(sites, source, target, p)
  }

  /** The reported path is the least of the shortest chains, and each step has the first site recorded for it. */
  ghost predicate Witnessed(v: Violation, sites: seq<ImportSite>) {
    && Chain(sites, v.source, v.target, v.path)
    && (forall q | Chain(sites, v.source, v.target, q) :: AtMost(v.path, q))
    && |v.edges| == |v.path| - 1
    && forall i | 0 <= i < |v.edges| :: FirstSite(v.edges[i], sites, v.path[i], v.path[i + 1])
  }

  ghost predicate Reports(vs: seq<Violation>, r: nat, source: Node, target: Node) {
    exists i | 0 <= i < |vs| :: vs[i].rule == r && vs[i].source == source && vs[i].target == target
  }

  lemma ChainIsPath(graph: Graph, sites: seq<ImportSite>, source: Node, target: Node, p: Path)
    requires GraphOf(graph, sites)
    ensures Chain(sites, source, target, p) <==> IsPath(graph, source, target, p)
  {
  }

  /** zip(path, path[1:]) looked up in the recorded sites. */
  method PathSites(path: Path, siteByEdge: map<(Node, Node), ImportSite>) returns (edges: seq<ImportSite>)
    requires path != [] && forall i | 0 <= i < |path| - 1 :: (path[i], path[i + 1]) in siteByEdge
    ensures |edges| == |path| - 1 && forall i | 0 <= i < |edges| :: edges[i] == siteByEdge[(path[i], path[i + 1])]
  {
    edges := [];
    var index := 0;
    while index < |path| - 1
      invariant 0 <= index <= |path| - 1 && |edges| == index
      invariant forall i | 0 <= i < index :: edges[i] == siteByEdge[(path[i], path[i + 1])]
    {
      edges := edges + [siteByEdge[(path[index], path[index + 1])]];
      index := index + 1;
    }
  }

  /** A rule, a source and a target come before another triple in the order of the three loops. */
  predicate Earlier(a: Violation, b: Violation) {
    || a.rule < b.rule
    || (a.rule == b.rule && (Less(a.source, b.source) || (a.source == b.source && Less(a.target, b.target))))
  }

  /** The three loops report a rule, a source and a target once, exactly when they violate. */
  method CollectViolations(sites: seq<ImportSite>, rules: seq<Rule>) returns (violations: seq<Violation>)
    ensures forall r: nat, s, t :: Reports(violations, r, s, t) <==> Violates(rules, sites, r, s, t)
    ensures forall v | v in violations :: Witnessed(v, sites)
    ensures forall i, j | 0 <= i < j < |violations| :: Earlier(violations[i], violations[j])
  {
    hide Witnessed, Less;
    var graph, siteByEdge := BuildGraph(sites);
    var nodes := Sorted(Nodes(graph));
    violations := [];
    NoReports();
    var r := 0;
    while r < |rules|
      invariant 0 <= r <= |rules|
      invariant forall r': nat, s, t :: Reports(violations, r', s, t) <==> r' < r && Violates(rules, sites, r', s, t)
      invariant forall v | v in violations :: Witnessed(v, sites) && v.rule < r
      invariant forall i, j | 0 <= i < j < |violations| :: Earlier(violations[i], violations[j])
    {
      var found := RuleViolations(sites, rules, r, graph, siteByEdge, nodes);
      ReportsAppend(violations, found);
      violations := violations + found;
      r := r + 1;
    }
  }

  // ---------- the last sort ----------

  function NameOf(rules: seq<Rule>, v: Violation): string { if v.rule < |rules| then rules[v.rule].name else "" }

  /** Python's order on lists. */
  predicate ListLess(p: Path, q: Path) {
    q != [] && (p == [] || Less(p[0], q[0]) || (p[0] == q[0] && ListLess(p[1..], q[1..])))
  }

  /** The key of the sort: rule name, source, target and path. */
  predicate KeyLess(rules: seq<Rule>, a: Violation, b: Violation) {
    || Less(NameOf(rules, a), NameOf(rules, b))
    || (NameOf(rules, a) == NameOf(rules, b)
        && (|| Less(a.source, b.source)
            || (a.source == b.source
                && (Less(a.target, b.target) || (a.target == b.target && ListLess(a.path, b.path))))))
  }

  /** By rule name, source and target, and then by the position of the rule. */
  predicate Listed(rules: seq<Rule>, a: Violation, b: Violation) {
    || Less(NameOf(rules, a), NameOf(rules, b))
    || (NameOf(rules, a) == NameOf(rules, b)
        && (|| Less(a.source, b.source)
            || (a.source == b.source && (Less(a.target, b.target) || (a.target == b.target && a.rule < b.rule)))))
  }

  /** The listing is one order: of two reports of different rules, sources or targets exactly one comes first. */
  lemma ListedOrder(rules: seq<Rule>, a: Violation, b: Violation)
    ensures !(Listed(rules, a, b) && Listed(rules, b, a))
    ensures (a.rule, a.source, a.target) != (b.rule, b.source, b.target) ==> Listed(rules, a, b) || Listed(rules, b, a)
  {
    hide Less, NameOf;
    LessOrder(NameOf(rules, a), NameOf(rules, b));
    LessOrder(a.source, b.source);
    LessOrder(a.target, b.target);
  }

  predicate AllListed(rules: seq<Rule>, vs: seq<Violation>) {
    forall i, j | 0 <= i < j < |vs| :: Listed(rules, vs[i], vs[j])
  }

  /** A stable sort: the next violation goes behind all that its key does not precede. */
  function Place(rules: seq<Rule>, vs: seq<Violation>, v: Violation): seq<Violation> {
    if vs == [] || !KeyLess(rules, v, vs[|vs| - 1]) then vs + [v]
    else Place(rules, vs[..|vs| - 1], v) + [vs[|vs| - 1]]
  }

  function SortedByKey(rules: seq<Rule>, vs: seq<Violation>): seq<Violation> {
    if vs == [] then [] else Place(rules, SortedByKey(rules, vs[..|vs| - 1]), vs[|vs| - 1])
  }

  lemma {:induction false} NotListLess(p: Path)
    ensures !ListLess(p, p)
  {
    if p != [] {
      LessOrder(p[0], p[0]);
      NotListLess(p[1..]);
    }
  }

  lemma ListedTransitive(rules: seq<Rule>, a: Violation, b: Violation, c: Violation)
    requires Listed(rules, a, b) && Listed(rules, b, c)
    ensures Listed(rules, a, c)
  {
    hide Less, NameOf;
    if Less(NameOf(rules, a), NameOf(rules, b)) && Less(NameOf(rules, b), NameOf(rules, c)) {
      LessTransitive(NameOf(rules, a), NameOf(rules, b), NameOf(rules, c));
    } else if Less(a.source, b.source) && Less(b.source, c.source) {
      LessTransitive(a.source, b.source, c.source);
    } else if Less(a.target, b.target) && Less(b.target, c.target) {
      LessTransitive(a.target, b.target, c.target);
    }
  }

  /** Of two violations the key decides, or the position of the rule, as the paths are then the same. */
  lemma KeyOrPosition(rules: seq<Rule>, sites: seq<ImportSite>, v: Violation, w: Violation)
    requires Witnessed(v, sites) && Witnessed(w, sites)
    ensures KeyLess(rules, v, w) ==> Listed(rules, v, w)
    ensures !KeyLess(rules, v, w) && Earlier(w, v) ==> Listed(rules, w, v)
  {
    hide Less, NameOf, ListLess, Chain, LexLess, FirstSite;
    LessOrder(NameOf(rules, v), NameOf(rules, w));
    LessOrder(v.source, w.source);
    LessOrder(v.target, w.target);
    if v.source == w.source && v.target == w.target {
      if |v.path| == |w.path| { LexOrder(v.path, w.path); }
      assert v.path == w.path;
      NotListLess(v.path);
    }
  }

  lemma ListedAppend(rules: seq<Rule>, vs: seq<Violation>, v: Violation)
    requires AllListed(rules, vs) && forall w | w in vs :: Listed(rules, w, v)
    ensures AllListed(rules, vs + [v])
  {
    hide Listed;
  }

  lemma BeforeLast(rules: seq<Rule>, vs: seq<Violation>, w: Violation)
    requires vs != [] && AllListed(rules, vs) && w in vs[..|vs| - 1]
    ensures Listed(rules, w, vs[|vs| - 1])
  {
    hide Listed;
  }

  lemma MembersOf(a: seq<Violation>, b: seq<Violation>, v: Violation)
    requires multiset(a) == multiset(b) + multiset{v}
    ensures forall w | w in a :: w in b || w == v
  {
    forall w | w in a ensures w in b || w == v {
      assert w in multiset(a);
    }
  }

  lemma {:induction false} PlaceKeeps(rules: seq<Rule>, sites: seq<ImportSite>, vs: seq<Violation>, v: Violation)
    requires AllListed(rules, vs) && forall w | w in vs :: Earlier(w, v) && Witnessed(w, sites)
    requires Witnessed(v, sites)
    ensures AllListed(rules, Place(rules, vs, v))
    ensures multiset(Place(rules, vs, v)) == multiset(vs) + multiset{v}
  {
    hide Listed, KeyLess, Witnessed, Earlier;
    if vs == [] { return; }
    var init, last := vs[..|vs| - 1], vs[|vs| - 1];
    assert vs == init + [last] && last in vs;
    KeyOrPosition(rules, sites, v, last);
    forall w | w in init ensures Listed(rules, w, last) { BeforeLast(rules, vs, w); }
    if KeyLess(rules, v, last) {
      PlaceKeeps(rules, sites, init, v);
      MembersOf(Place(rules, init, v), init, v);
      ListedAppend(rules, Place(rules, init, v), last);
    } else {
      forall w | w in vs ensures Listed(rules, w, v) {
        if w in init { ListedTransitive(rules, w, last, v); }
      }
      ListedAppend(rules, vs, v);
    }
  }

  lemma {:induction false} SortKeeps(rules: seq<Rule>, sites: seq<ImportSite>, vs: seq<Violation>)
    requires forall v | v in vs :: Witnessed(v, sites)
    requires forall i, j | 0 <= i < j < |vs| :: Earlier(vs[i], vs[j])
    ensures AllListed(rules, SortedByKey(rules, vs)) && multiset(SortedByKey(rules, vs)) == multiset(vs)
  {
    hide Listed, Witnessed, Earlier, Place;
    if vs != [] {
      var init, last := vs[..|vs| - 1], vs[|vs| - 1];
      assert vs == init + [last] && last in vs;
      SortKeeps(rules, sites, init);
      forall w | w in SortedByKey(rules, init) ensures Earlier(w, last) && Witnessed(w, sites) {
        assert w in multiset(init);
        assert w in init;
      }
      PlaceKeeps(rules, sites, SortedByKey(rules, init), last);
    }
  }

  /**
   Reports a rule, a source and a target once, exactly when the rule matches them, they differ, and recorded
   imports lead from the source to the target; listed by rule name, source and target.
   */
  method BoundaryViolations(sites: seq<ImportSite>, rules: seq<Rule>) returns (violations: seq<Violation>)
    ensures forall r: nat, s, t :: Reports(violations, r, s, t) <==> Violates(rules, sites, r, s, t)
    ensures forall v | v in violations :: Witnessed(v, sites)
    ensures AllListed(rules, violations)
  {
    hide Witnessed, Violates, Earlier, Listed;
    var collected := CollectViolations(sites, rules);
    violations := SortedByKey(rules, collected);
    SortKeeps(rules, sites, collected);
    SameReports(collected, violations);
  }

  lemma SameReports(a: seq<Violation>, b: seq<Violation>)
    requires multiset(a) == multiset(b)
    ensures forall v :: v in a <==> v in b
    ensures forall r: nat, s, t :: Reports(a, r, s, t) <==> Reports(b, r, s, t)
  {
    forall v ensures v in a <==> v in b {
      assert v in a <==> v in multiset(a);
      assert v in b <==> v in multiset(b);
    }
    forall r: nat, s, t ensures Reports(a, r, s, t) <==> Reports(b, r, s, t) {
      if Reports(a, r, s, t) {
        var i :| 0 <= i < |a| && a[i].rule == r && a[i].source == s && a[i].target == t;
        assert a[i] in b;
      }
      if Reports(b, r, s, t) {
        var i :| 0 <= i < |b| && b[i].rule == r && b[i].source == s && b[i].target == t;
        assert b[i] in a;
      }
    }
  }

  /**
   Two packages that import each other, under a rule that matches both as source and target: each reaches
   itself over the other, and this is not reported, though each is reported to reach the other.
   */
  lemma CycleUnreported(rules: seq<Rule>, r: nat, a: Node, b: Node, file: string)
    requires r < |rules| && a != b
    requires rules[r].sourceMatches(a) && rules[r].targetMatches(a)
    requires rules[r].sourceMatches(b) && rules[r].targetMatches(b)
    ensures var sites := [ImportSite(a, b, file, 1), ImportSite(b, a, file, 1)];
            && Chain(sites, a, a, [a, b, a]) && !Violates(rules, sites, r, a, a)
            && Chain(sites, b, b, [b, a, b]) && !Violates(rules, sites, r, b, b)
            && Violates(rules, sites, r, a, b) && Violates(rules, sites, r, b, a)
  {
    var sites := [ImportSite(a, b, file, 1), ImportSite(b, a, file, 1)];
    assert sites[0].source == a && sites[1].source == b;
    assert Chain(sites, a, b, [a, b]) && Chain(sites, b, a, [b, a]);
  }

  lemma ReportsAppend(a: seq<Violation>, b: seq<Violation>)
    ensures forall r: nat, s, t :: Reports(a + b, r, s, t) <==> Reports(a, r, s, t) || Reports(b, r, s, t)
  {
    var c := a + b;
    forall r: nat, s, t ensures Reports(c, r, s, t) <==> Reports(a, r, s, t) || Reports(b, r, s, t) {
      if Reports(a, r, s, t) {
        var i :| 0 <= i < |a| && a[i].rule == r && a[i].source == s && a[i].target == t;
        assert c[i] == a[i];
      }
      if Reports(b, r, s, t) {
        var i :| 0 <= i < |b| && b[i].rule == r && b[i].source == s && b[i].target == t;
        assert c[|a| + i] == b[i];
      }
    }
  }

  lemma ReportsOne(v: Violation)
    ensures forall r: nat, s, t :: Reports([v], r, s, t) <==> r == v.rule && s == v.source && t == v.target
  {
    assert [v][0] == v;
  }

  lemma NoReports()
    ensures forall r: nat, s, t :: !Reports([], r, s, t)
  {
  }

  lemma ReportsPush(a: seq<Violation>, v: Violation)
    ensures forall r: nat, s, t :: Reports(a + [v], r, s, t) <==>
              Reports(a, r, s, t) || (r == v.rule && s == v.source && t == v.target)
  {
    hide Reports;
    ReportsAppend(a, [v]);
    ReportsOne(v);
  }

  method RuleViolations(sites: seq<ImportSite>, rules: seq<Rule>, r: nat, graph: Graph,
                        siteByEdge: map<(Node, Node), ImportSite>, nodes: seq<Node>) returns (found: seq<Violation>)
    requires r < |rules| && GraphOf(graph, sites) && Increasing(nodes) && Enumerates(nodes, Nodes(graph))
    requires forall v, w | Imports(sites, v, w) :: (v, w) in siteByEdge && FirstSite(siteByEdge[(v, w)], sites, v, w)
    ensures forall r': nat, s, t :: Reports(found, r', s, t) <==> r' == r && Violates(rules, sites, r, s, t)
    ensures forall v | v in found :: Witnessed(v, sites) && v.rule == r
    ensures forall i, j | 0 <= i < j < |found| :: Earlier(found[i], found[j])
  {
    hide Witnessed, Violates, GraphOf, Less;
    found := [];
    var index := 0;
    while index < |nodes|
      invariant 0 <= index <= |nodes|
      invariant forall r': nat, s, t :: Reports(found, r', s, t) <==>
                  r' == r && s in nodes[..index] && Violates(rules, sites, r, s, t)
      invariant forall v | v in found :: Witnessed(v, sites) && v.rule == r && v.source in nodes[..index]
      invariant forall i, j | 0 <= i < j < |found| :: Earlier(found[i], found[j])
    {
      var source := nodes[index];
      var more := SourceViolations(sites, rules, r, source, graph, siteByEdge);
      ReportsAppend(found, more);
      found := found + more;
      index := index + 1;
    }
    forall s, t | Violates(rules, sites, r, s, t) ensures s in nodes[..|nodes|] {
      ViolatorIsNode(rules, sites, r, s, t, graph);
    }
  }

  lemma ViolatorIsNode(rules: seq<Rule>, sites: seq<ImportSite>, r: nat, source: Node, target: Node, graph: Graph)
    requires Violates(rules, sites, r, source, target) && GraphOf(graph, sites)
    ensures source in Nodes(graph)
  {
    var p :| Chain(sites, source, target, p);
    assert Imports(sites, p[0], p[0 + 1]);
    assert p[1] in Successors(graph, source);
  }

  /** The targets that one source reaches, in order, where the rule matches both. */
  method SourceViolations(sites: seq<ImportSite>, rules: seq<Rule>, r: nat, source: Node, graph: Graph,
                          siteByEdge: map<(Node, Node), ImportSite>) returns (found: seq<Violation>)
    requires r < |rules| && GraphOf(graph, sites)
    requires forall v, w | Imports(sites, v, w) :: (v, w) in siteByEdge && FirstSite(siteByEdge[(v, w)], sites, v, w)
    ensures forall r': nat, s, t :: Reports(found, r', s, t) <==>
              r' == r && s == source && Violates(rules, sites, r, s, t)
    ensures forall v | v in found :: Witnessed(v, sites) && v.rule == r && v.source == source
    ensures forall i, j | 0 <= i < j < |found| :: Less(found[i].target, found[j].target)
  {
    hide Less, Witnessed, GraphOf, FirstSite, Reports, Best, Chain, First;
    found := [];
    NoReports();
    if !rules[r].sourceMatches(source) { return; }
    var paths := ShortestPaths(graph, source);
    found := TargetViolations(sites, rules[r], r, source, graph, siteByEdge, paths, Sorted(paths.Keys));
    forall t ensures t in paths <==> source != t && exists p :: Chain(sites, source, t, p) {
      ReachesByChain(graph, sites, source, t);
    }
  }

  method TargetViolations(sites: seq<ImportSite>, rule: Rule, r: nat, source: Node, graph: Graph,
                          siteByEdge: map<(Node, Node), ImportSite>, paths: map<Node, Path>, targets: seq<Node>)
    returns (found: seq<Violation>)
    requires GraphOf(graph, sites) && Increasing(targets) && Enumerates(targets, paths.Keys)
    requires forall v, w | Imports(sites, v, w) :: (v, w) in siteByEdge && FirstSite(siteByEdge[(v, w)], sites, v, w)
    requires forall t | t in paths :: Best(graph, source, t, paths[t])
    ensures forall r': nat, s, t :: Reports(found, r', s, t) <==>
              r' == r && s == source && t in paths && rule.targetMatches(t)
    ensures forall v | v in found :: Witnessed(v, sites) && v.rule == r && v.source == source
    ensures forall i, j | 0 <= i < j < |found| :: Less(found[i].target, found[j].target)
  {
    hide Less, Witnessed, GraphOf, FirstSite, Reports, Best, Imports;
    found := [];
    NoReports();
    var index := 0;
    while index < |targets|
      invariant 0 <= index <= |targets|
      invariant forall r': nat, s, t :: Reports(found, r', s, t) <==>
                  r' == r && s == source && t in targets[..index] && rule.targetMatches(t)
      invariant forall v | v in found ::
                  Witnessed(v, sites) && v.rule == r && v.source == source && v.target in targets[..index]
      invariant forall i, j | 0 <= i < j < |found| :: Less(found[i].target, found[j].target)
    {
      var target := targets[index];
      assert targets[..index + 1] == targets[..index] + [target];
      if rule.targetMatches(target) {
        var v := MakeViolation(sites, r, source, target, paths[target], graph, siteByEdge);
        ReportsPush(found, v);
        found := found + [v];
      }
      index := index + 1;
    }
    assert targets[..|targets|] == targets;
  }

  lemma ReachesByChain(graph: Graph, sites: seq<ImportSite>, source: Node, target: Node)
    requires GraphOf(graph, sites)
    ensures Reaches(graph, source, target) <==> exists p :: Chain(sites, source, target, p)
  {
    hide GraphOf, Chain, IsPath;
    if Reaches(graph, source, target) {
      var p :| IsPath(graph, source, target, p);
      ChainIsPath(graph, sites, source, target, p);
    }
    if exists p :: Chain(sites, source, target, p) {
      var p :| Chain(sites, source, target, p);
      ChainIsPath(graph, sites, source, target, p);
    }
  }

  method MakeViolation(sites: seq<ImportSite>, r: nat, source: Node, target: Node, path: Path, graph: Graph,
                       siteByEdge: map<(Node, Node), ImportSite>) returns (v: Violation)
    requires GraphOf(graph, sites) && Best(graph, source, target, path)
    requires forall v, w | Imports(sites, v, w) :: (v, w) in siteByEdge && FirstSite(siteByEdge[(v, w)], sites, v, w)
    ensures Witnessed(v, sites) && v.rule == r && v.source == source && v.target == target
  {
    hide GraphOf, FirstSite, AtMost;
    ChainIsPath(graph, sites, source, target, path);
    var edges := PathSites(path, siteByEdge);
    forall q | Chain(sites, source, target, q) ensures AtMost(path, q) {
      ChainIsPath(graph, sites, source, target, q);
    }
    v := Violation(r, source, target, path, edges);
  }
}
