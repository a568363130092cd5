/** Dependency expressions of the packet graph, their expansion, and the graph that it gives. */
module PacketExpansion {
  import opened Wrappers
  import opened PacketGraph

  type Id = string

  const LAST_PACKET := 28

  // ---------- expressions ----------

  function DigitChar(d: nat): char
    requires d < 10
  {
    ('0' as int + d) as char
  }

  function PacketId(n: nat): Id
    requires n < 100
  {
    ['P', DigitChar(n / 10), DigitChar(n % 10)]
  }

  predicate IsPacketToken(s: string) { |s| == 3 && s[0] == 'P' && '0' <= s[1] <= '9' && '0' <= s[2] <= '9' }

  function NumberOf(s: string): (n: nat)
    requires IsPacketToken(s)
    ensures n < 100 && PacketId(n) == s
  {
    (s[1] as int - '0' as int) * 10 + (s[2] as int - '0' as int)
  }

  predicate IsNode(s: string) { (IsPacketToken(s) && NumberOf(s) <= LAST_PACKET) || s == "J13" || s == "J19" }

  predicate IsRange(s: string) { |s| == 8 && IsPacketToken(s[..3]) && s[3..5] == ".." && IsPacketToken(s[5..]) }

  /** The ids from one packet to another. */
  function RangeIds(first: nat, last: nat): seq<Id>
    requires last < 100
    decreases last + 1 - first
  {
    if first > last then [] else [PacketId(first)] + RangeIds(first + 1, last)
  }

  /** What one expression stands for; None if it is refused. */
  function Meaning(expression: string): Option<seq<Id>> {
    if IsRange(expression) then
      var start, end := NumberOf(expression[..3]), NumberOf(expression[5..]);
      if start > end || end > LAST_PACKET then None else Some(RangeIds(start, end))
    else if IsNode(expression) then Some([expression])
    else None
  }

  /** What a list of expressions stands for, before it is checked. */
  function Flatten(items: seq<string>): Option<seq<Id>> {
    if items == [] then Some([])
    else match Flatten(items[..|items| - 1])
         case None => None
         case Some(ids) =>
           match Meaning(items[|items| - 1]) case None => None case Some(more) => Some(ids + more)
  }

  predicate Distinct(ids: seq<Id>) { forall i, j | 0 <= i < j < |ids| :: ids[i] != ids[j] }

  predicate AllKnown(ids: seq<Id>, known: set<Id>) { forall i | 0 <= i < |ids| :: ids[i] in known }

  predicate Expandable(items: seq<string>, known: set<Id>) {
    Flatten(items).Some? && AllKnown(Flatten(items).value, known) && Distinct(Flatten(items).value)
  }

  /** A range holds the packets between its ends in ascending order, and nothing else. */
  lemma {:induction false} RangeIdsAre(first: nat, last: nat)
    requires last < 100
    ensures |RangeIds(first, last)| == if first > last then 0 else last + 1 - first
    ensures forall i | 0 <= i < |RangeIds(first, last)| :: RangeIds(first, last)[i] == PacketId(first + i)
    decreases last + 1 - first
  {
    if first <= last { RangeIdsAre(first + 1, last); }
  }

  lemma {:induction false} FlattenGrows(items: seq<string>, k: nat)
    requires k <= |items|
    ensures Flatten(items).Some? ==> Flatten(items[..k]).Some? && Flatten(items[..k]).value <= Flatten(items).value
    decreases |items|
  {
    if k < |items| {
      FlattenGrows(items[..|items| - 1], k);
      assert items[..|items| - 1][..k] == items[..k];
    } else {
      assert items[..k] == items;
    }
  }

  /** A list that starts with an unexpandable one is not expandable. */
  lemma PrefixExpandable(items: seq<string>, known: set<Id>, k: nat)
    requires k <= |items| && Expandable(items, known)
    ensures Expandable(items[..k], known)
  {
    FlattenGrows(items, k);
    var all, some := Flatten(items).value, Flatten(items[..k]).value;
    assert forall i | 0 <= i < |some| :: some[i] == all[i];
  }

  lemma NotDistinct(ids: seq<Id>, more: seq<Id>, n: nat)
    requires n < |more| && more[n] in ids + more[..n]
    ensures !Distinct(ids + more)
  {
    var all := ids + more;
    assert ids + more[..n] == all[..|ids| + n];
    var i :| 0 <= i < |ids| + n && all[i] == more[n];
    assert all[|ids| + n] == more[n];
  }

  /** The inner loop: the values of one expression join the list. */
  method AddAll(expanded: seq<Id>, values: seq<Id>, known: set<Id>) returns (r: Option<seq<Id>>)
    requires AllKnown(expanded, known) && Distinct(expanded)
    ensures r.Some? <==> AllKnown(expanded + values, known) && Distinct(expanded + values)
    ensures r.Some? ==> r.value == expanded + values
  {
    var out := expanded;
    var seen := set id | id in expanded;
    for index := 0 to |values|
      invariant out == expanded + values[..index] && AllKnown(out, known) && Distinct(out)
      invariant forall id :: id in seen <==> id in out
    {
      var value := values[index];
      var all := expanded + values;
      assert all[|expanded| + index] == value;
      if value !in known { return None; }
      if value in seen {
        NotDistinct(expanded, values, index);
        return None;
      }
      seen := seen + {value};
      out := out + [value];
      assert out == expanded + values[..index + 1];
    }
    assert out == expanded + values;
    return Some(out);
  }

  /** Expands expressions in order; refused are malformed ones, unknown ids, and ids given twice. */
  method ExpandDependencies(items: seq<string>, known: set<Id>) returns (r: Option<seq<Id>>)
    ensures r.Some? <==> Expandable(items, known)
    ensures r.Some? ==> r.value == Flatten(items).value
  {
    hide Meaning, AllKnown, Distinct;
    var expanded: seq<Id> := [];
    NothingYet(known);
    for index := 0 to |items|
      invariant Flatten(items[..index]) == Some(expanded) && AllKnown(expanded, known) && Distinct(expanded)
    {
      assert items[..index + 1][..index] == items[..index];
      var values := Meaning(items[index]);
      var more: Option<seq<Id>> := None;
      if values.Some? {
        more := AddAll(expanded, values.value, known);
      }
      if more.None? {
        assert !Expandable(items[..index + 1], known);
        if Expandable(items, known) { PrefixExpandable(items, known, index + 1); }
        return None;
      }
      expanded := more.value;
    }
    assert items[..|items|] == items;
    return Some(expanded);
  }

  lemma NothingYet(known: set<Id>)
    ensures AllKnown([], known) && Distinct([])
  {
  }

  // ---------- the graph ----------

  /** A node of the document, with the two lists of expressions that it declares. */
  datatype Node = Node(
    id: Id, kind: string, owner: string, lifecycle: string, start: seq<string>, completion: seq<string>)

  const JOIN13: seq<Id> := ["P13", "P14", "P15", "P16", "P17", "P18", "P26"]
  const JOIN19: seq<Id> := ["P19", "P20"]

  /** EXPECTED_NODE_IDS */
  function ExpectedIds(): set<Id> { (set n: nat | n <= LAST_PACKET :: PacketId(n)) + {"J13", "J19"} }

  function ExpectedKind(id: Id): string { if id != "" && id[0] == 'J' then "join" else "packet" }

  function ExpectedOwner(id: Id): Id { if id == "J13" then "P13" else if id == "J19" then "P19" else id }

  function IdsOf(nodes: seq<Node>): seq<Id> { seq(|nodes|, i requires 0 <= i < |nodes| => nodes[i].id) }

  function KnownIds(nodes: seq<Node>): set<Id> { set i | 0 <= i < |nodes| :: nodes[i].id }

  predicate Disjoint(a: seq<Id>, b: seq<Id>) { forall i | 0 <= i < |a| :: a[i] !in b }

  predicate HeaderOk(node: Node) {
    && node.kind == ExpectedKind(node.id) && node.owner == ExpectedOwner(node.id)
    && node.lifecycle in {"planned", "present", "active"}
  }

  predicate NodeOk(node: Node, known: set<Id>) {
    && HeaderOk(node)
    && Expandable(node.start, known) && Expandable(node.completion, known)
    && node.id !in Flatten(node.start).value && node.id !in Flatten(node.completion).value
    && Disjoint(Flatten(node.start).value, Flatten(node.completion).value)
  }

  /** All dependencies of a node, in order. */
  function Requires(node: Node): seq<Id> {
    Flatten(node.start).GetOr([]) + Flatten(node.completion).GetOr([])
  }

  /** The positions of the ids a node requires. */
  predicate Resolves(nodes: seq<Node>, ds: seq<nat>, ids: seq<Id>) {
    |ds| == |ids| && forall i | 0 <= i < |ds| :: ds[i] < |nodes| && nodes[ds[i]].id == ids[i]
  }

  method Positions(nodes: seq<Node>, ids: seq<Id>) returns (ds: seq<nat>)
    requires AllKnown(ids, KnownIds(nodes))
    ensures Resolves(nodes, ds, ids)
  {
    ds := [];
    for index := 0 to |ids|
      invariant Resolves(nodes, ds, ids[..index])
    {
      assert ids[index] in KnownIds(nodes);
      ghost var found :| 0 <= found < |nodes| && nodes[found].id == ids[index];
      var position := 0;
      while nodes[position].id != ids[index]
        invariant position <= found
        decreases found - position
      {
        position := position + 1;
      }
      ds := ds + [position];
    }
    assert ids[..|ids|] == ids;
  }

  lemma RequiresDistinct(node: Node, known: set<Id>)
    requires NodeOk(node, known)
    ensures Flatten(node.start).Some? && Flatten(node.completion).Some?
    ensures Requires(node) == Flatten(node.start).value + Flatten(node.completion).value
    ensures Distinct(Requires(node)) && AllKnown(Requires(node), known) && node.id !in Requires(node)
  {
    var a, b := Flatten(node.start).value, Flatten(node.completion).value;
    forall i, j | 0 <= i < j < |a + b| ensures (a + b)[i] != (a + b)[j] {
      if i < |a| <= j { assert b[j - |a|] in b; }
    }
  }

  /** The checks on each node, and the graph of the resolved dependencies. */
  method BuildGraph(nodes: seq<Node>) returns (r: Option<Graph>)
    ensures r.Some? <==> forall node | node in nodes :: NodeOk(node, KnownIds(nodes))
    ensures r.Some? ==> Declared(r.value) && |r.value| == |nodes|
    ensures r.Some? ==> forall v | 0 <= v < |nodes| :: Resolves(nodes, r.value[v], Requires(nodes[v]))
  {
    hide Expandable, Resolves, Distinct, AllKnown, HeaderOk, Requires, Flatten, NoRepeats;
    var known := KnownIds(nodes);
    var deps: Graph := [];
    for index := 0 to |nodes|
      invariant |deps| == index
      invariant forall v | 0 <= v < index :: NodeOk(nodes[v], known) && Resolves(nodes, deps[v], Requires(nodes[v]))
    {
      var node := nodes[index];
      assert node in nodes;
      if !HeaderOk(node) { return None; }
      var start := ExpandDependencies(node.start, known);
      if start.None? { return None; }
      var completion := ExpandDependencies(node.completion, known);
      if completion.None? { return None; }
      if node.id in start.value || node.id in completion.value { return None; }
      if !Disjoint(start.value, completion.value) { return None; }
      RequiresDistinct(node, known);
      var ds := Positions(nodes, start.value + completion.value);
      deps := deps + [ds];
    }
    forall v | 0 <= v < |deps| ensures NoRepeats(deps[v]) && forall i | 0 <= i < |deps[v]| :: deps[v][i] < |deps| {
      RequiresDistinct(nodes[v], known);
      ResolvedBounds(nodes, deps[v], Requires(nodes[v]));
    }
    return Some(deps);
  }

  lemma ResolvedBounds(nodes: seq<Node>, ds: seq<nat>, ids: seq<Id>)
    requires Resolves(nodes, ds, ids) && Distinct(ids)
    ensures NoRepeats(ds) && forall i | 0 <= i < |ds| :: ds[i] < |nodes|
  {
  }

  /** Every declared node once, each after all it requires. */
  predicate ValidOrder(nodes: seq<Node>, order: seq<Id>) {
    && Distinct(order) && (forall node | node in nodes :: node.id in order)
    && forall i | 0 <= i < |order| :: Placed(nodes, order, i)
  }

  /** The id at this place is a node's whose required ids are all before it. */
  predicate Placed(nodes: seq<Node>, order: seq<Id>, i: nat)
    requires i < |order|
  {
    exists node | node in nodes :: node.id == order[i] && forall id | id in Requires(node) :: id in order[..i]
  }

  // ---------- places in the declaration ----------

  function IndexOf(nodes: seq<Node>, id: Id): nat {
    if nodes == [] || nodes[0].id == id then 0 else 1 + IndexOf(nodes[1..], id)
  }

  function Indices(nodes: seq<Node>, ids: seq<Id>): seq<nat> {
    seq(|ids|, i requires 0 <= i < |ids| => IndexOf(nodes, ids[i]))
  }

  lemma {:induction false} IndexAt(nodes: seq<Node>, v: nat)
    requires Distinct(IdsOf(nodes)) && v < |nodes|
    ensures IndexOf(nodes, nodes[v].id) == v
  {
    if v > 0 {
      assert IdsOf(nodes)[0] != IdsOf(nodes)[v];
      assert forall i | 0 <= i < |nodes| - 1 :: IdsOf(nodes[1..])[i] == IdsOf(nodes)[i + 1];
      IndexAt(nodes[1..], v - 1);
    }
  }

  /** By declaration, no valid order comes before this one. */
  ghost predicate FirstOrder(nodes: seq<Node>, order: seq<Id>) {
    forall other | ValidOrder(nodes, other) :: LexAtMost(Indices(nodes, order), Indices(nodes, other))
  }

  /** The two joins start with exactly these packets. */
  predicate JoinsOk(nodes: seq<Node>) {
    forall node | node in nodes ::
      && (node.id == "J13" ==> Flatten(node.start) == Some(JOIN13))
      && (node.id == "J19" ==> Flatten(node.start) == Some(JOIN19))
  }

  /** What the checks before the ordering let pass. */
  predicate Checked(nodes: seq<Node>) {
    && Distinct(IdsOf(nodes)) && KnownIds(nodes) == ExpectedIds()
    && (forall node | node in nodes :: NodeOk(node, KnownIds(nodes))) && JoinsOk(nodes)
  }

  /** by_id[join].start_requires */
  method CheckJoin(nodes: seq<Node>, join: Id, starts: seq<Id>) returns (ok: bool)
    requires Distinct(IdsOf(nodes)) && join in KnownIds(nodes)
    requires forall node | node in nodes :: NodeOk(node, KnownIds(nodes))
    ensures ok <==> forall node | node in nodes && node.id == join :: Flatten(node.start) == Some(starts)
  {
    hide Distinct, NodeOk;
    var ids := [join];
    assert AllKnown(ids, KnownIds(nodes));
    var ds := Positions(nodes, ids);
    var expanded := ExpandDependencies(nodes[ds[0]].start, KnownIds(nodes));
    NodeExpands(nodes[ds[0]], KnownIds(nodes));
    assert expanded.Some?;
    forall node | node in nodes && node.id == join ensures node == nodes[ds[0]] {
      var v :| 0 <= v < |nodes| && nodes[v] == node;
      IndexAt(nodes, v);
      IndexAt(nodes, ds[0]);
    }
    return expanded.value == starts;
  }

  lemma NodeExpands(node: Node, known: set<Id>)
    requires NodeOk(node, known)
    ensures Expandable(node.start, known)
  {
  }

  /** Whatever is well formed is one of the expected ids, so `unknown dependency` is never reported. */
  lemma AlwaysKnown(items: seq<string>)
    ensures Expandable(items, ExpectedIds()) <==> Flatten(items).Some? && Distinct(Flatten(items).value)
  {
    if Flatten(items).Some? { FlattenKnown(items); }
  }

  lemma {:induction false} FlattenKnown(items: seq<string>)
    requires Flatten(items).Some?
    ensures AllKnown(Flatten(items).value, ExpectedIds())
  {
    if items != [] {
      FlattenKnown(items[..|items| - 1]);
      MeaningKnown(items[|items| - 1]);
    }
  }

  lemma MeaningKnown(expression: string)
    requires Meaning(expression).Some?
    ensures AllKnown(Meaning(expression).value, ExpectedIds())
  {
    if IsRange(expression) {
      RangeIdsAre(NumberOf(expression[..3]), NumberOf(expression[5..]));
    } else if IsPacketToken(expression) {
      assert PacketId(NumberOf(expression)) == expression;
    }
  }

  /**
   validate_graph: unless a check refuses the document or the requirements come around, the first valid order
   of the ids, each time by declaration.
   */
  method ValidateGraph(nodes: seq<Node>) returns (order: Option<seq<Id>>, ghost deps: Option<Graph>)
    ensures deps.Some? <==> Checked(nodes)
    ensures deps.Some? ==> Declared(deps.value) && |deps.value| == |nodes|
    ensures deps.Some? ==> forall v | 0 <= v < |nodes| :: Resolves(nodes, deps.value[v], Requires(nodes[v]))
    ensures order.Some? <==> deps.Some? && !Cyclic(deps.value)
    ensures order.Some? ==> ValidOrder(nodes, order.value) && FirstOrder(nodes, order.value)
  {
    hide NodeOk, Declared, Resolves, Requires, Cyclic, Topological, Greedy, Distinct, ValidOrder, FirstOrder, Flatten;
    hide Met, NoRepeats;
    if !Distinct(IdsOf(nodes)) || KnownIds(nodes) != ExpectedIds() { return None, None; }
    var graph := BuildGraph(nodes);
    if graph.None? { return None, None; }
    var ok13 := CheckJoin(nodes, "J13", JOIN13);
    var ok19 := CheckJoin(nodes, "J19", JOIN19);
    if !ok13 || !ok19 { return None, None; }
    deps := graph;
    var positions, cyclic := TopologicalOrder(graph.value);
    if |positions| != |nodes| { return None, deps; }
    PositionsInRange(graph.value, positions);
    var ids := seq(|positions|, i requires 0 <= i < |positions| => nodes[positions[i]].id);
    OrderIsValid(nodes, graph.value, positions, ids);
    OrderIsFirst(nodes, graph.value, positions, ids);
    return Some(ids), deps;
  }

  lemma OrderIsFirst(nodes: seq<Node>, deps: Graph, positions: seq<nat>, ids: seq<Id>)
    requires Distinct(IdsOf(nodes)) && |deps| == |nodes| == |positions| == |ids|
    requires Greedy(deps, positions)
    requires forall v | 0 <= v < |nodes| :: Resolves(nodes, deps[v], Requires(nodes[v]))
    requires forall i | 0 <= i < |positions| :: positions[i] < |nodes| && ids[i] == nodes[positions[i]].id
    ensures FirstOrder(nodes, ids)
  {
    hide Resolves, Requires, Greedy, ValidOrder, Distinct, Topological, LexAtMost;
    forall i | 0 <= i < |ids| ensures Indices(nodes, ids)[i] == positions[i] { IndexAt(nodes, positions[i]); }
    assert Indices(nodes, ids) == positions;
    forall other | ValidOrder(nodes, other) ensures LexAtMost(Indices(nodes, ids), Indices(nodes, other)) {
      ValidIsTopological(nodes, deps, other);
      TopologicalIsLong(deps, Indices(nodes, other));
      GreedyIsLeast(deps, positions, Indices(nodes, other));
    }
  }

  lemma TopologicalIsLong(deps: Graph, order: seq<nat>)
    requires Topological(deps, order)
    ensures |order| >= |deps|
  {
    CoversAll(order, |deps|);
  }

  /** A valid order of the ids is a topological order of their places. */
  lemma ValidIsTopological(nodes: seq<Node>, deps: Graph, other: seq<Id>)
    requires Distinct(IdsOf(nodes)) && |deps| == |nodes| && ValidOrder(nodes, other)
    requires forall v | 0 <= v < |nodes| :: Resolves(nodes, deps[v], Requires(nodes[v]))
    ensures Topological(deps, Indices(nodes, other))
  {
    hide Requires, Resolves;
    var order := Indices(nodes, other);
    forall i | 0 <= i < |other|
      ensures order[i] < |nodes| && nodes[order[i]].id == other[i] && Met(deps, order[i], order[..i])
    {
      PlaceIsMet(nodes, deps, other, i);
    }
    forall v | 0 <= v < |deps| ensures v in order {
      assert nodes[v].id in other;
      var i :| 0 <= i < |other| && other[i] == nodes[v].id;
      IndexAt(nodes, v);
      assert order[i] == v;
    }
  }

  lemma PlaceIsMet(nodes: seq<Node>, deps: Graph, other: seq<Id>, i: nat)
    requires Distinct(IdsOf(nodes)) && |deps| == |nodes| && i < |other| && Placed(nodes, other, i)
    requires forall v | 0 <= v < |nodes| :: Resolves(nodes, deps[v], Requires(nodes[v]))
    ensures var v := Indices(nodes, other)[i];
            v < |nodes| && nodes[v].id == other[i] && Met(deps, v, Indices(nodes, other)[..i])
  {
    hide Requires, Distinct;
    var node :| node in nodes && node.id == other[i] && forall id | id in Requires(node) :: id in other[..i];
    var v :| 0 <= v < |nodes| && nodes[v] == node;
    IndexAt(nodes, v);
    var before := Indices(nodes, other)[..i];
    assert Resolves(nodes, deps[v], Requires(node));
    forall k | 0 <= k < |deps[v]| ensures deps[v][k] in before {
      assert Requires(node)[k] in other[..i];
      var n :| 0 <= n < i && other[n] == Requires(node)[k];
      IndexAt(nodes, deps[v][k]);
      assert before[n] == deps[v][k];
    }
  }

  lemma PositionsInRange(deps: Graph, positions: seq<nat>)
    requires Topological(deps, positions)
    ensures forall i | 0 <= i < |positions| :: positions[i] < |deps|
  {
  }

  lemma OrderIsValid(nodes: seq<Node>, deps: Graph, positions: seq<nat>, ids: seq<Id>)
    requires Distinct(IdsOf(nodes)) && |deps| == |nodes| && Topological(deps, positions) && |ids| == |positions|
    requires forall v | 0 <= v < |nodes| :: Resolves(nodes, deps[v], Requires(nodes[v]))
    requires forall i | 0 <= i < |positions| :: positions[i] < |nodes| && ids[i] == nodes[positions[i]].id
    ensures ValidOrder(nodes, ids)
  {
    hide Requires;
    forall i, j | 0 <= i < j < |ids| ensures ids[i] != ids[j] {
      assert IdsOf(nodes)[positions[i]] == ids[i] && IdsOf(nodes)[positions[j]] == ids[j];
    }
    forall node | node in nodes ensures node.id in ids {
      var v :| 0 <= v < |nodes| && nodes[v] == node;
      assert v in positions;
      var i :| 0 <= i < |positions| && positions[i] == v;
      assert ids[i] == node.id;
    }
    forall i | 0 <= i < |ids| ensures Placed(nodes, ids, i) {
      RequiredBefore(nodes, deps, positions, ids, i);
      assert nodes[positions[i]] in nodes;
    }
  }

  lemma RequiredBefore(nodes: seq<Node>, deps: Graph, positions: seq<nat>, ids: seq<Id>, i: nat)
    requires |deps| == |nodes| && |ids| == |positions| && i < |ids| && Topological(deps, positions)
    requires forall k | 0 <= k < |positions| :: positions[k] < |nodes| && ids[k] == nodes[positions[k]].id
    requires Resolves(nodes, deps[positions[i]], Requires(nodes[positions[i]]))
    ensures forall id | id in Requires(nodes[positions[i]]) :: id in ids[..i]
  {
    hide Requires;
    var v := positions[i];
    assert Met(deps, v, positions[..i]);
    forall id | id in Requires(nodes[v]) ensures id in ids[..i] {
      var k :| 0 <= k < |Requires(nodes[v])| && Requires(nodes[v])[k] == id;
      assert deps[v][k] in positions[..i];
      var n :| 0 <= n < i && positions[n] == deps[v][k];
      assert ids[..i][n] == id;
    }
  }
}
