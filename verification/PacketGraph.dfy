/** Kahn's algorithm of packet_contract.py, with a ready list kept in declaration order. */
module PacketGraph {
  import opened Wrappers

  /** Ids are distinct, so a node is its position in the declaration; `deps[v]` are v's dependencies. */
  type Graph = seq<seq<nat>>

  predicate NoRepeats(s: seq<nat>) { forall i, j | 0 <= i < j < |s| :: s[i] != s[j] }

  /** Dependencies name declared nodes, each once. */
  predicate Declared(deps: Graph) {
    forall v | 0 <= v < |deps| :: NoRepeats(deps[v]) && forall i | 0 <= i < |deps[v]| :: deps[v][i] < |deps|
  }

  // ---------- cycles ----------

  /** Each node of the walk depends on the next one. */
  predicate Walk(deps: Graph, p: seq<nat>) {
    && p != [] && (forall i | 0 <= i < |p| :: p[i] < |deps|)
    && forall i | 0 <= i < |p| - 1 :: p[i + 1] in deps[p[i]]
  }

  /** A walk that comes back to a node it has passed. */
  predicate Loops(deps: Graph, p: seq<nat>) {
    Walk(deps, p) && exists i, j | 0 <= i < j < |p| :: p[i] == p[j]
  }

  /** The node is on a cycle or downstream of one: following its dependencies can come around. */
  ghost predicate Blocked(deps: Graph, v: nat) {
    exists p :: Loops(deps, p) && p[0] == v
  }

  ghost predicate Cyclic(deps: Graph) { exists p :: Loops(deps, p) }

  // ---------- topological orders ----------

  /** Every node once, each after its dependencies. */
  ghost predicate Topological(deps: Graph, order: seq<nat>) {
    && NoRepeats(order) && (forall v | 0 <= v < |deps| :: v in order)
    && forall i | 0 <= i < |order| :: order[i] < |deps| && Met(deps, order[i], order[..i])
  }

  /** All dependencies of `v` are among `before`. */
  predicate Met(deps: Graph, v: nat, before: seq<nat>)
    requires v < |deps|
  {
    forall i | 0 <= i < |deps[v]| :: deps[v][i] in before
  }

  predicate Available(deps: Graph, v: nat, before: seq<nat>) {
    v < |deps| && v !in before && Met(deps, v, before)
  }

  /** Each node is the first declared one that was available. */
  ghost predicate Greedy(deps: Graph, order: seq<nat>) {
    forall i | 0 <= i < |order| ::
      Available(deps, order[i], order[..i]) && forall v: nat | Available(deps, v, order[..i]) :: order[i] <= v
  }

  predicate LexAtMost(a: seq<nat>, b: seq<nat>) {
    a == [] || (b != [] && (a[0] < b[0] || (a[0] == b[0] && LexAtMost(a[1..], b[1..]))))
  }

  lemma {:induction false} LexFirstDifference(a: seq<nat>, b: seq<nat>, i: nat)
    requires i <= |a| && i <= |b| && a[..i] == b[..i] && (i == |a| || (i < |b| && a[i] < b[i]))
    ensures LexAtMost(a, b)
  {
    if i > 0 {
      assert a[0] == a[..i][0] == b[..i][0] == b[0];
      assert a[1..][..i - 1] == a[..i][1..] == b[..i][1..] == b[1..][..i - 1];
      LexFirstDifference(a[1..], b[1..], i - 1);
    }
  }

  /** Of two lists of one length only equal ones come before each other. */
  lemma {:induction false} LexAntisymmetric(a: seq<nat>, b: seq<nat>)
    requires LexAtMost(a, b) && LexAtMost(b, a) && |a| == |b|
    ensures a == b
  {
    if a != [] {
      LexAntisymmetric(a[1..], b[1..]);
      assert a == [a[0]] + a[1..] && b == [b[0]] + b[1..];
    }
  }

  /** A greedy order comes lexicographically before every topological order of the same length. */
  lemma GreedyIsLeast(deps: Graph, order: seq<nat>, other: seq<nat>)
    requires Greedy(deps, order) && Topological(deps, other) && |order| <= |other|
    ensures LexAtMost(order, other)
  {
    var i := 0;
    while i < |order| && order[i] == other[i]
      invariant 0 <= i <= |order| && order[..i] == other[..i]
    {
      i := i + 1;
    }
    if i < |order| {
      assert Available(deps, other[i], order[..i]) by {
        assert other[i] !in other[..i];
      }
    }
    LexFirstDifference(order, other, i);
  }

  // ---------- walks that must come around ----------

  lemma {:induction false} Pigeonhole(p: seq<nat>, n: nat)
    requires NoRepeats(p) && forall i | 0 <= i < |p| :: p[i] < n
    ensures |p| <= n
    decreases n
  {
    if p != [] {
      assert p[0] < n;
      if exists k :: 0 <= k < |p| && p[k] == n - 1 {
        var k :| 0 <= k < |p| && p[k] == n - 1;
        Pigeonhole(p[..k] + p[k + 1..], n - 1);
      } else {
        Pigeonhole(p, n - 1);
      }
    }
  }

  /** A node waits when one of its dependencies remains. */
  predicate Waits(deps: Graph, remaining: set<nat>, v: nat) {
    v < |deps| && exists d | d in deps[v] :: d in remaining
  }

  /** Where every remaining node waits for a remaining node, a walk of any length stays among them. */
  lemma {:induction false} WaitingWalk(deps: Graph, remaining: set<nat>, v: nat, length: nat) returns (p: seq<nat>)
    requires v in remaining && forall u | u in remaining :: Waits(deps, remaining, u)
    ensures Walk(deps, p) && p[0] == v && |p| == length + 1
    decreases length
  {
    assert Waits(deps, remaining, v);
    if length == 0 {
      p := [v];
    } else {
      var d :| d in deps[v] && d in remaining;
      var rest := WaitingWalk(deps, remaining, d, length - 1);
      p := [v] + rest;
      WalkCons(deps, v, rest);
    }
  }

  lemma WalkCons(deps: Graph, v: nat, rest: seq<nat>)
    requires Walk(deps, rest) && v < |deps| && rest[0] in deps[v]
    ensures Walk(deps, [v] + rest)
  {
    var p := [v] + rest;
    assert forall i | 0 < i < |p| :: p[i] == rest[i - 1];
    forall i | 0 <= i < |p| - 1 ensures p[i + 1] in deps[p[i]] {
      if i > 0 {
        assert rest[i - 1 + 1] in deps[rest[i - 1]];
      }
    }
  }

  lemma WaitingIsBlocked(deps: Graph, remaining: set<nat>, v: nat)
    requires v in remaining && forall u | u in remaining :: Waits(deps, remaining, u)
    ensures Blocked(deps, v)
  {
    hide Waits;
    var p := WaitingWalk(deps, remaining, v, |deps|);
    if NoRepeats(p) {
      Pigeonhole(p, |deps|);
    }
    assert Loops(deps, p);
  }

  /** From an ordered node, walks go to ever earlier places and never come around. */
  lemma OrderedNotBlocked(deps: Graph, order: seq<nat>, v: nat)
    requires Greedy(deps, order) && v in order
    ensures !Blocked(deps, v)
  {
    forall p | Walk(deps, p) && p[0] == v ensures !Loops(deps, p) {
      var k :| 0 <= k < |order| && order[k] == v;
      Descends(deps, order, p, k);
    }
  }

  lemma {:induction false} Descends(deps: Graph, order: seq<nat>, p: seq<nat>, k: nat)
    requires Greedy(deps, order) && Walk(deps, p) && k < |order| && order[k] == p[0]
    ensures forall i, j | 0 <= i < j < |p| :: p[i] != p[j]
    ensures forall i | 0 < i < |p| :: p[i] in order[..k]
  {
    if |p| > 1 {
      assert p[1] in order[..k] by {
        assert p[0 + 1] in deps[p[0]];
        assert Met(deps, order[k], order[..k]);
      }
      var m :| 0 <= m < k && order[m] == p[1];
      var rest := p[1..];
      assert forall i | 0 <= i < |rest| :: rest[i] == p[i + 1];
      Descends(deps, order, rest, m);
      assert forall i | 1 < i < |p| :: p[i] == rest[i - 1] && p[i] in order[..m];
      assert order[k] !in order[..k];
    }
  }

  // ---------- counting the dependencies still open ----------

  function Open(ds: seq<nat>, done: set<nat>): nat {
    if ds == [] then 0 else (if ds[0] in done then 0 else 1) + Open(ds[1..], done)
  }

  lemma {:induction false} OpenNone(ds: seq<nat>, done: set<nat>)
    ensures Open(ds, done) == 0 <==> forall i | 0 <= i < |ds| :: ds[i] in done
  {
    if ds != [] {
      OpenNone(ds[1..], done);
      assert forall i | 0 < i < |ds| :: ds[i] == ds[1..][i - 1];
    }
  }

  lemma {:induction false} OpenAll(ds: seq<nat>)
    ensures Open(ds, {}) == |ds|
  {
    if ds != [] {
      OpenAll(ds[1..]);
    }
  }

  lemma {:induction false} OpenAfter(ds: seq<nat>, done: set<nat>, c: nat)
    requires NoRepeats(ds) && c !in done
    ensures Open(ds, done) == Open(ds, done + {c}) + (if c in ds then 1 else 0)
  {
    if ds != [] {
      var rest := ds[1..];
      assert NoRepeats(rest) by {
        assert forall i | 0 <= i < |rest| :: rest[i] == ds[i + 1];
      }
      OpenAfter(rest, done, c);
      if ds[0] == c {
        assert c !in rest;
      }
      assert ds == [ds[0]] + rest;
    }
  }

  // ---------- indegrees and consumers ----------

  /** The nodes before `n` that depend on `d`, in declaration order. */
  function ConsumersBefore(deps: Graph, d: nat, n: nat): seq<nat>
    requires n <= |deps|
  {
    if n == 0 then [] else ConsumersBefore(deps, d, n - 1) + (if d in deps[n - 1] then [n - 1] else [])
  }

  predicate Ascending(s: seq<nat>) { forall i, j | 0 <= i < j < |s| :: s[i] < s[j] }

  lemma {:induction false} ConsumersOf(deps: Graph, d: nat, n: nat)
    requires n <= |deps|
    ensures var cs := ConsumersBefore(deps, d, n);
            Ascending(cs) && forall v: nat :: v in cs <==> v < n && d in deps[v]
  {
    if n > 0 {
      var cs := ConsumersBefore(deps, d, n - 1);
      ConsumersOf(deps, d, n - 1);
      assert forall i | 0 <= i < |cs| :: cs[i] in cs;
    }
  }

  method CountDependencies(deps: Graph) returns (indegree: seq<nat>, consumers: seq<seq<nat>>)
    requires Declared(deps)
    ensures |indegree| == |deps| == |consumers|
    ensures forall v | 0 <= v < |deps| :: indegree[v] == |deps[v]|
    ensures forall d | 0 <= d < |deps| :: consumers[d] == ConsumersBefore(deps, d, |deps|)
  {
    indegree := seq(|deps|, _ => 0);
    consumers := seq(|deps|, _ => []);
    var node := 0;
    while node < |deps|
      invariant 0 <= node <= |deps| && |indegree| == |deps| == |consumers|
      invariant forall v | 0 <= v < |deps| :: indegree[v] == if v < node then |deps[v]| else 0
      invariant forall d | 0 <= d < |deps| :: consumers[d] == ConsumersBefore(deps, d, node)
    {
      var j := 0;
      while j < |deps[node]|
        invariant 0 <= j <= |deps[node]| && |indegree| == |deps| == |consumers|
        invariant forall v | 0 <= v < |deps| ::
                    indegree[v] == if v < node then |deps[v]| else if v == node then j else 0
        invariant forall d | 0 <= d < |deps| ::
                    consumers[d] == ConsumersBefore(deps, d, node) + (if d in deps[node][..j] then [node] else [])
      {
        var dependency := deps[node][j];
        assert dependency !in deps[node][..j];
        assert deps[node][..j + 1] == deps[node][..j] + [dependency];
        indegree := indegree[node := indegree[node] + 1];
        consumers := consumers[dependency := consumers[dependency] + [node]];
        j := j + 1;
      }
      assert deps[node][..|deps[node]|] == deps[node];
      node := node + 1;
    }
  }

  // ---------- the loop ----------

  ghost predicate Members(s: seq<nat>, deps: Graph, indegree: seq<nat>, done: set<nat>)
    requires |indegree| == |deps|
  {
    forall v: nat :: v in s <==> v < |deps| && v !in done && indegree[v] == 0
  }

  /** ready.append(node); ready.sort(). */
  method InsertReady(ready: seq<nat>, node: nat) returns (r: seq<nat>)
    requires Ascending(ready) && node !in ready
    ensures Ascending(r) && forall v: nat :: v in r <==> v in ready || v == node
  {
    var at := 0;
    while at < |ready| && ready[at] < node
      invariant 0 <= at <= |ready| && forall i | 0 <= i < at :: ready[i] < node
    {
      at := at + 1;
    }
    r := ready[..at] + [node] + ready[at..];
    InsertedAt(ready, node, at, r);
  }

  lemma InsertedAt(ready: seq<nat>, node: nat, at: nat, r: seq<nat>)
    requires at <= |ready| && r == ready[..at] + [node] + ready[at..] && Ascending(ready) && node !in ready
    requires (forall i | 0 <= i < at :: ready[i] < node) && (at < |ready| ==> node <= ready[at])
    ensures Ascending(r) && forall v: nat :: v in r <==> v in ready || v == node
  {
    forall v: nat ensures v in r <==> v in ready || v == node {
      assert v in r <==> v in ready[..at] || v == node || v in ready[at..];
      assert v in ready <==> v in ready[..at] || v in ready[at..] by { assert ready == ready[..at] + ready[at..]; }
    }
    forall i, j | 0 <= i < j < |r| ensures r[i] < r[j] {
      if at < |ready| { assert node < ready[at]; }
    }
  }

  method Release(deps: Graph, current: nat, consumers: seq<nat>, indegree: seq<nat>, ready: seq<nat>,
                 ghost done: set<nat>)
    returns (indegree': seq<nat>, ready': seq<nat>)
    requires Declared(deps) && |indegree| == |deps| && current < |deps| && current !in done
    requires consumers == ConsumersBefore(deps, current, |deps|)
    requires forall v | 0 <= v < |deps| :: indegree[v] == Open(deps[v], done)
    requires forall v | v in done + {current} :: v < |deps| && indegree[v] == 0
    requires Ascending(ready) && Members(ready, deps, indegree, done + {current})
    ensures |indegree'| == |deps| && forall v | 0 <= v < |deps| :: indegree'[v] == Open(deps[v], done + {current})
    ensures Ascending(ready') && Members(ready', deps, indegree', done + {current})
  {
    hide ConsumersBefore, Open, NoRepeats;
    indegree', ready' := indegree, ready;
    ConsumersOf(deps, current, |deps|);
    forall v | 0 <= v < |deps|
      ensures Open(deps[v], done) == Open(deps[v], done + {current}) + (if v in consumers then 1 else 0)
    {
      OpenAfter(deps[v], done, current);
    }
    var index := 0;
    while index < |consumers|
      invariant 0 <= index <= |consumers| && |indegree'| == |deps|
      invariant forall v | 0 <= v < |deps| :: indegree'[v] == indegree[v] - (if v in consumers[..index] then 1 else 0)
      invariant Ascending(ready') && Members(ready', deps, indegree', done + {current})
    {
      var consumer := consumers[index];
      assert consumer in consumers && consumer !in consumers[..index];
      assert consumers[..index + 1] == consumers[..index] + [consumer];
      indegree' := indegree'[consumer := indegree'[consumer] - 1];
      if indegree'[consumer] == 0 {
        ready' := InsertReady(ready', consumer);
      }
      index := index + 1;
    }
    assert consumers[..|consumers|] == consumers;
  }

  /** The nodes of a list. */
  function Elements(s: seq<nat>): set<nat> { set x | x in s }

  predicate Counted(deps: Graph, indegree: seq<nat>, done: set<nat>) {
    |indegree| == |deps| && forall v | 0 <= v < |deps| :: indegree[v] == Open(deps[v], done)
  }

  lemma AvailableIffZero(deps: Graph, order: seq<nat>, indegree: seq<nat>, v: nat)
    requires Counted(deps, indegree, Elements(order)) && v < |deps|
    ensures Available(deps, v, order) <==> v !in order && indegree[v] == 0
    ensures Met(deps, v, order) <==> indegree[v] == 0
  {
    OpenNone(deps[v], Elements(order));
  }

  lemma OrderedHaveNone(deps: Graph, order: seq<nat>, indegree: seq<nat>, v: nat)
    requires Counted(deps, indegree, Elements(order)) && Greedy(deps, order) && v in order
    ensures v < |deps| && indegree[v] == 0
  {
    var k :| 0 <= k < |order| && order[k] == v;
    assert Available(deps, order[k], order[..k]);
    AvailableIffZero(deps, order, indegree, v);
  }

  lemma GreedyNoRepeats(deps: Graph, order: seq<nat>)
    requires Greedy(deps, order)
    ensures NoRepeats(order) && |order| <= |deps|
  {
    forall i, j | 0 <= i < j < |order| ensures order[i] != order[j] {
      assert Available(deps, order[j], order[..j]);
    }
    Pigeonhole(order, |deps|);
  }

  lemma GreedyGrows(deps: Graph, order: seq<nat>, current: nat)
    requires Greedy(deps, order) && Available(deps, current, order)
    requires forall v: nat | Available(deps, v, order) :: current <= v
    ensures Greedy(deps, order + [current])
  {
    var more := order + [current];
    forall i | 0 <= i < |more|
      ensures Available(deps, more[i], more[..i]) && forall v: nat | Available(deps, v, more[..i]) :: more[i] <= v
    {
      assert more[..i] == order[..i];
      assert order[..|order|] == order;
    }
  }

  /** The head of the ready list is the first declared node that is available. */
  lemma ReadyIsAvailable(deps: Graph, order: seq<nat>, ready: seq<nat>, indegree: seq<nat>)
    requires ready != [] && Counted(deps, indegree, Elements(order)) && Greedy(deps, order)
    requires Ascending(ready) && Members(ready, deps, indegree, Elements(order))
    ensures Available(deps, ready[0], order) && forall v: nat | Available(deps, v, order) :: ready[0] <= v
    ensures forall v | v in Elements(order) + {ready[0]} :: v < |deps| && indegree[v] == 0
    ensures Ascending(ready[1..]) && Members(ready[1..], deps, indegree, Elements(order) + {ready[0]})
  {
    var current := ready[0];
    assert current in ready;
    AvailableIffZero(deps, order, indegree, current);
    forall v: nat | Available(deps, v, order) ensures current <= v {
      AvailableIffZero(deps, order, indegree, v);
      assert v in ready;
    }
    forall v | v in order ensures v < |deps| && indegree[v] == 0 {
      OrderedHaveNone(deps, order, indegree, v);
    }
    assert ready == [current] + ready[1..];
  }

  lemma LoopEnds(deps: Graph, order: seq<nat>, indegree: seq<nat>)
    requires Counted(deps, indegree, Elements(order)) && Greedy(deps, order)
    requires Members([], deps, indegree, Elements(order)) && Declared(deps)
    ensures forall v | 0 <= v < |deps| :: v in order <==> !Blocked(deps, v)
    ensures forall v | 0 <= v < |deps| :: v in order <==> indegree[v] == 0
    ensures |order| == |deps| <==> !Cyclic(deps)
    ensures |order| == |deps| ==> Topological(deps, order)
  {
    var remaining := set v | 0 <= v < |deps| && v !in order;
    forall v | v in order ensures v < |deps| && indegree[v] == 0 && !Blocked(deps, v) {
      OrderedHaveNone(deps, order, indegree, v);
      OrderedNotBlocked(deps, order, v);
    }
    forall v | v in remaining ensures Waits(deps, remaining, v) {
      RemainingWaits(deps, order, indegree, v);
    }
    forall v | v in remaining ensures indegree[v] != 0 && Blocked(deps, v) {
      WaitingIsBlocked(deps, remaining, v);
      assert v !in [];
    }
    GreedyNoRepeats(deps, order);
    AllOrNone(deps, order, remaining);
  }

  lemma RemainingWaits(deps: Graph, order: seq<nat>, indegree: seq<nat>, v: nat)
    requires Counted(deps, indegree, Elements(order)) && Members([], deps, indegree, Elements(order))
    requires v < |deps| && v !in order && Declared(deps)
    ensures Waits(deps, set u | 0 <= u < |deps| && u !in order :: u, v)
  {
    assert v !in [];
    assert indegree[v] != 0;
    OpenNone(deps[v], Elements(order));
    var i :| 0 <= i < |deps[v]| && deps[v][i] !in Elements(order);
    var d := deps[v][i];
    assert d in deps[v] && d < |deps| && d !in order;
  }

  lemma AllOrNone(deps: Graph, order: seq<nat>, remaining: set<nat>)
    requires Greedy(deps, order) && NoRepeats(order) && remaining == set v | 0 <= v < |deps| && v !in order
    requires forall v | 0 <= v < |deps| :: v in order <==> !Blocked(deps, v)
    ensures |order| == |deps| <==> !Cyclic(deps)
    ensures |order| == |deps| ==> Topological(deps, order)
  {
    forall i | 0 <= i < |order| ensures order[i] < |deps| && Met(deps, order[i], order[..i]) {
      assert Available(deps, order[i], order[..i]);
    }
    if |order| == |deps| {
      forall v | 0 <= v < |deps| ensures v in order {
        if v !in order {
          Pigeonhole(order + [v], |deps|);
        }
      }
      forall p ensures !Loops(deps, p) {
        if Loops(deps, p) {
          assert Blocked(deps, p[0]);
        }
      }
    } else {
      assert exists v: nat :: v < |deps| && v !in order by {
        if forall v: nat | v < |deps| :: v in order {
          CoversAll(order, |deps|);
          Pigeonhole(order, |deps|);
        }
      }
      var v: nat :| v < |deps| && v !in order;
      var p :| Loops(deps, p) && p[0] == v;
    }
  }

  /** A list without repeats that has every number below `n` is at least that long. */
  lemma {:induction false} CoversAll(s: seq<nat>, n: nat)
    requires NoRepeats(s) && forall v | 0 <= v < n :: v in s
    ensures |s| >= n
  {
    if n > 0 {
      assert n - 1 in s;
      var k :| 0 <= k < |s| && s[k] == n - 1;
      var rest := s[..k] + s[k + 1..];
      forall v | 0 <= v < n - 1 ensures v in rest {
        assert v in s;
        var i :| 0 <= i < |s| && s[i] == v;
        assert rest[if i < k then i else i - 1] == v;
      }
      CoversAll(rest, n - 1);
    }
  }

  /**
   Orders the nodes, each time the first declared one whose dependencies are met. The order is complete
   exactly when there is no cycle; otherwise the nodes reported are those on or downstream of one.
   */
  method TopologicalOrder(deps: Graph) returns (order: seq<nat>, cyclic: set<nat>)
    requires Declared(deps)
    ensures Greedy(deps, order)
    ensures forall v | 0 <= v < |deps| :: v in order <==> !Blocked(deps, v)
    ensures cyclic == set v | 0 <= v < |deps| && v !in order
    ensures |order| == |deps| <==> !Cyclic(deps)
    ensures |order| == |deps| ==> Topological(deps, order) && cyclic == {}
  {
    var indegree, consumers := CountDependencies(deps);
    forall v | 0 <= v < |deps| ensures indegree[v] == Open(deps[v], {}) { OpenAll(deps[v]); }
    var ready: seq<nat> := [];
    var node := 0;
    while node < |deps|
      invariant 0 <= node <= |deps| && Ascending(ready)
      invariant forall v: nat :: v in ready <==> v < node && indegree[v] == 0
    {
      assert forall i | 0 <= i < |ready| :: ready[i] in ready;
      if indegree[node] == 0 {
        ready := ready + [node];
      }
      node := node + 1;
    }
    order := [];
    assert Elements([]) == {};
    while ready != []
      invariant Greedy(deps, order) && |order| <= |deps|
      invariant Counted(deps, indegree, Elements(order))
      invariant Ascending(ready) && Members(ready, deps, indegree, Elements(order))
      decreases |deps| - |order|
    {
      var current := ready[0];
      ReadyIsAvailable(deps, order, ready, indegree);
      assert Elements(order + [current]) == Elements(order) + {current};
      GreedyGrows(deps, order, current);
      GreedyNoRepeats(deps, order + [current]);
      ready := ready[1..];
      indegree, ready := Release(deps, current, consumers[current], indegree, ready, Elements(order));
      order := order + [current];
    }
    cyclic := set v | 0 <= v < |deps| && indegree[v] > 0;
    LoopEnds(deps, order, indegree);
  }
}
