/** Packet expressions and the fixed node set, by what they stand for. */
module PacketLaws {
  import opened Wrappers
  import opened CanonicalSpelling
  import opened PacketExpansion
  import PacketGraph

  /** A packet from P00 to P28 or a join stands for itself, and a range for the packets between its ends. */
  ghost predicate Denotes(expression: string, ids: seq<string>) {
    || (ids == [expression]
        && (expression == "J13" || expression == "J19" || exists n: nat :: n <= 28 && expression == PacketId(n)))
    || exists first: nat, last: nat ::
         && first <= last <= 28 && |ids| == last + 1 - first
         && expression == PacketId(first) + ".." + PacketId(last)
         && forall i | 0 <= i < |ids| :: ids[i] == PacketId(first + i)
  }

  lemma PacketIdReads(n: nat)
    requires n < 100
    ensures var id := PacketId(n); IsPacketToken(id) && NumberOf(id) == n
    ensures var id := PacketId(n);
            id[0] == 'P' && id[1] == LOWER_DIGITS[n / 10] && id[2] == LOWER_DIGITS[n % 10]
  {
    DigitPlaces(n / 10);
    DigitPlaces(n % 10);
  }

  lemma RangeReads(first: nat, last: nat)
    requires first <= last <= 28
    ensures var s := PacketId(first) + ".." + PacketId(last);
            && IsRange(s) && NumberOf(s[..3]) == first && NumberOf(s[5..]) == last
  {
    PacketIdReads(first);
    PacketIdReads(last);
    var a, b := PacketId(first), PacketId(last);
    var s := a + ".." + b;
    assert s[..3] == a && s[3..5] == ".." && s[5..] == b;
  }

  lemma MeaningIff(expression: string, ids: seq<string>)
    ensures Meaning(expression) == Some(ids) <==> Denotes(expression, ids)
  {
    if Meaning(expression) == Some(ids) { MeaningDenotes(expression, ids); }
    if Denotes(expression, ids) { DenotesMeaning(expression, ids); }
  }

  lemma MeaningDenotes(expression: string, ids: seq<string>)
    requires Meaning(expression) == Some(ids)
    ensures Denotes(expression, ids)
  {
    if IsRange(expression) {
      RangeDenotes(expression, ids);
    } else if IsPacketToken(expression) {
      assert expression == PacketId(NumberOf(expression));
    }
  }

  lemma RangeDenotes(expression: string, ids: seq<string>)
    requires Meaning(expression) == Some(ids) && IsRange(expression)
    ensures Denotes(expression, ids)
  {
    hide PacketId, NumberOf, IsPacketToken, RangeIds;
    RangeParts(expression);
    var first, last := NumberOf(expression[..3]), NumberOf(expression[5..]);
    RangeIdsAre(first, last);
    RangeIsDenoted(first, last, ids);
  }

  lemma RangeParts(expression: string)
    requires IsRange(expression)
    ensures expression == expression[..3] + ".." + expression[5..]
  {
    hide IsPacketToken;
    assert expression == expression[..3] + expression[3..5] + expression[5..];
  }

  lemma RangeIsDenoted(first: nat, last: nat, ids: seq<string>)
    requires first <= last <= 28 && |ids| == last + 1 - first
    requires forall i | 0 <= i < |ids| :: ids[i] == PacketId(first + i)
    ensures Denotes(PacketId(first) + ".." + PacketId(last), ids)
  {
    hide PacketId;
  }

  lemma DenotesMeaning(expression: string, ids: seq<string>)
    requires Denotes(expression, ids)
    ensures Meaning(expression) == Some(ids)
  {
    hide PacketId, NumberOf, RangeIds;
    if ids == [expression] && exists n: nat :: n <= 28 && expression == PacketId(n) {
      var n: nat :| n <= 28 && expression == PacketId(n);
      PacketIdReads(n);
    } else if ids == [expression] && (expression == "J13" || expression == "J19") {
    } else {
      var first: nat, last: nat :|
        && first <= last <= 28 && |ids| == last + 1 - first
        && expression == PacketId(first) + ".." + PacketId(last)
        && forall i | 0 <= i < |ids| :: ids[i] == PacketId(first + i);
      RangeMeans(first, last, ids);
    }
  }

  lemma RangeMeans(first: nat, last: nat, ids: seq<string>)
    requires first <= last <= 28 && |ids| == last + 1 - first
    requires forall i | 0 <= i < |ids| :: ids[i] == PacketId(first + i)
    ensures Meaning(PacketId(first) + ".." + PacketId(last)) == Some(ids)
  {
    hide PacketId, NumberOf, IsRange;
    RangeReads(first, last);
    RangeIdsAre(first, last);
    assert ids == RangeIds(first, last);
  }

  /** The document has P00 to P28 and the joins J13 and J19. */
  lemma ExpectedIff(id: string)
    ensures id in ExpectedIds() <==>
            id == "J13" || id == "J19" || exists n: nat :: n <= 28 && id == PacketId(n)
  {
  }

  /** A join belongs to the packet of its number, a packet to itself. */
  lemma HeaderIff(node: Node)
    requires node.id in ExpectedIds()
    ensures HeaderOk(node) <==>
            && (node.lifecycle == "planned" || node.lifecycle == "present" || node.lifecycle == "active")
            && (node.kind, node.owner) == (if node.id == "J13" then ("join", "P13")
                                           else if node.id == "J19" then ("join", "P19")
                                           else ("packet", node.id))
  {
    ExpectedIff(node.id);
    if node.id != "J13" && node.id != "J19" {
      var n: nat :| n <= 28 && node.id == PacketId(n);
      PacketIdReads(n);
    }
  }

  /** The joins start with P13 to P18 and P26, and with P19 and P20. */
  lemma JoinPackets()
    ensures JOIN13 == RangeIds(13, 18) + [PacketId(26)] && JOIN19 == RangeIds(19, 20)
  {
    RangeIdsAre(13, 18);
    RangeIdsAre(19, 20);
  }

  // ---------- whole documents ----------

  /** The ids that a list of expressions stands for, one expression after the other. */
  ghost predicate AllDenote(items: seq<string>, ids: seq<string>) {
    if items == [] then ids == []
    else exists k | 0 <= k <= |ids| :: Denotes(items[0], ids[..k]) && AllDenote(items[1..], ids[k..])
  }

  lemma {:induction false} AllDenoteAppend(items: seq<string>, ids: seq<string>, item: string, more: seq<string>)
    requires AllDenote(items, ids) && Denotes(item, more)
    ensures AllDenote(items + [item], ids + more)
  {
    hide Denotes;
    var all := ids + more;
    if items == [] {
      assert (items + [item])[1..] == [] && all[..|all|] == more && all[|all|..] == [];
    } else {
      var k :| 0 <= k <= |ids| && Denotes(items[0], ids[..k]) && AllDenote(items[1..], ids[k..]);
      AllDenoteAppend(items[1..], ids[k..], item, more);
      assert (items + [item])[1..] == items[1..] + [item];
      assert all[..k] == ids[..k] && all[k..] == ids[k..] + more;
    }
  }

  lemma DenotesOne(expression: string, a: seq<string>, b: seq<string>)
    requires Denotes(expression, a) && Denotes(expression, b)
    ensures a == b
  {
    MeaningIff(expression, a);
    MeaningIff(expression, b);
  }

  lemma {:induction false} AllDenoteOne(items: seq<string>, a: seq<string>, b: seq<string>)
    requires AllDenote(items, a) && AllDenote(items, b)
    ensures a == b
  {
    hide Denotes;
    if items != [] {
      var j :| 0 <= j <= |a| && Denotes(items[0], a[..j]) && AllDenote(items[1..], a[j..]);
      var k :| 0 <= k <= |b| && Denotes(items[0], b[..k]) && AllDenote(items[1..], b[k..]);
      DenotesOne(items[0], a[..j], b[..k]);
      AllDenoteOne(items[1..], a[j..], b[k..]);
      assert a == a[..j] + a[j..] && b == b[..k] + b[k..];
    }
  }

  lemma {:induction false} FlattenDenotes(items: seq<string>)
    ensures Flatten(items).Some? ==> AllDenote(items, Flatten(items).value)
  {
    hide Denotes, Meaning;
    if items != [] && Flatten(items).Some? {
      var init, last := items[..|items| - 1], items[|items| - 1];
      FlattenDenotes(init);
      MeaningIff(last, Meaning(last).value);
      AllDenoteAppend(init, Flatten(init).value, last, Meaning(last).value);
      assert items == init + [last];
    }
  }

  lemma {:induction false} AllDenoteFlatten(items: seq<string>, ids: seq<string>)
    requires AllDenote(items, ids)
    ensures Flatten(items).Some?
    decreases |items|
  {
    hide Denotes, Meaning;
    if items != [] {
      var init, last := items[..|items| - 1], items[|items| - 1];
      var a, b := SplitLast(items, ids);
      AllDenoteFlatten(init, a);
      MeaningIff(last, b);
    }
  }

  lemma {:induction false} SplitLast(items: seq<string>, ids: seq<string>) returns (a: seq<string>, b: seq<string>)
    requires items != [] && AllDenote(items, ids)
    ensures AllDenote(items[..|items| - 1], a) && Denotes(items[|items| - 1], b)
  {
    hide Denotes;
    var k :| 0 <= k <= |ids| && Denotes(items[0], ids[..k]) && AllDenote(items[1..], ids[k..]);
    if |items| == 1 {
      a, b := [], ids[..k];
    } else {
      var c, d := SplitLast(items[1..], ids[k..]);
      a, b := ids[..k] + c, d;
      var init := items[..|items| - 1];
      assert init[0] == items[0] && init[1..] == items[1..][..|items| - 2];
      assert a[..k] == ids[..k] && a[k..] == c;
    }
  }

  /** The list of expressions stands for exactly these ids. */
  lemma FlattenIff(items: seq<string>, ids: seq<string>)
    ensures Flatten(items) == Some(ids) <==> AllDenote(items, ids)
  {
    FlattenDenotes(items);
    if AllDenote(items, ids) {
      AllDenoteFlatten(items, ids);
      AllDenoteOne(items, ids, Flatten(items).value);
    }
  }

  predicate IsExpected(id: string) { id == "J13" || id == "J19" || exists n | 0 <= n <= 28 :: id == PacketId(n) }

  /** A node's header, and two lists of expected ids, all different and none its own. */
  ghost predicate GoodNode(node: Node) {
    && HeaderOk(node)
    && exists start, completion ::
         && AllDenote(node.start, start) && AllDenote(node.completion, completion)
         && Distinct(start + completion) && node.id !in start + completion
         && (node.id == "J13" ==> start == ["P13", "P14", "P15", "P16", "P17", "P18", "P26"])
         && (node.id == "J19" ==> start == ["P19", "P20"])
  }

  lemma DisjointDistinct(a: seq<Id>, b: seq<Id>)
    ensures Distinct(a + b) <==> Distinct(a) && Distinct(b) && Disjoint(a, b)
  {
    var c := a + b;
    if Distinct(c) {
      forall i, j | 0 <= i < j < |b| ensures b[i] != b[j] { assert c[|a| + i] != c[|a| + j]; }
      forall i, j | 0 <= i < j < |a| ensures a[i] != a[j] { assert c[i] != c[j]; }
      forall i | 0 <= i < |a| ensures a[i] !in b {
        forall j | 0 <= j < |b| ensures b[j] != a[i] { assert c[i] != c[|a| + j]; }
      }
    }
    if Distinct(a) && Distinct(b) && Disjoint(a, b) {
      forall i, j | 0 <= i < j < |c| ensures c[i] != c[j] {
        if i < |a| <= j { assert b[j - |a|] in b; }
      }
    }
  }

  lemma NodeIff(node: Node)
    ensures (NodeOk(node, ExpectedIds()) && JoinsOk([node])) <==> GoodNode(node)
  {
    hide Flatten, AllDenote, HeaderOk, Distinct, Disjoint, ExpectedIds, Expandable;
    AlwaysKnown(node.start);
    AlwaysKnown(node.completion);
    assert node in [node];
    if Flatten(node.start).Some? { FlattenIff(node.start, Flatten(node.start).value); }
    if Flatten(node.completion).Some? { FlattenIff(node.completion, Flatten(node.completion).value); }
    if Flatten(node.start).Some? && Flatten(node.completion).Some? {
      DisjointDistinct(Flatten(node.start).value, Flatten(node.completion).value);
    }
    forall start, completion | AllDenote(node.start, start) && AllDenote(node.completion, completion)
      ensures Flatten(node.start) == Some(start) && Flatten(node.completion) == Some(completion)
    {
      FlattenIff(node.start, start);
      FlattenIff(node.completion, completion);
    }
    JoinLists();
  }

  lemma JoinLists()
    ensures JOIN13 == ["P13", "P14", "P15", "P16", "P17", "P18", "P26"] && JOIN19 == ["P19", "P20"]
  {
  }

  /**
   A document passes the checks before the ordering exactly when its ids are the expected ones, each once, and
   every node is good.
   */
  lemma DocumentIff(nodes: seq<Node>)
    ensures Checked(nodes) <==>
            && (forall i, j | 0 <= i < j < |nodes| :: nodes[i].id != nodes[j].id)
            && (forall id :: IsExpected(id) <==> exists i :: 0 <= i < |nodes| && nodes[i].id == id)
            && forall i | 0 <= i < |nodes| :: GoodNode(nodes[i])
  {
    hide NodeOk, GoodNode, JoinsOk, IsExpected;
    IdsDistinct(nodes);
    KnownAreExpected(nodes);
    forall i | 0 <= i < |nodes|
      ensures (NodeOk(nodes[i], ExpectedIds()) && JoinsOk([nodes[i]])) <==> GoodNode(nodes[i])
    {
      NodeIff(nodes[i]);
    }
    JoinsEach(nodes);
  }

  lemma IdsDistinct(nodes: seq<Node>)
    ensures Distinct(IdsOf(nodes)) <==> forall i, j | 0 <= i < j < |nodes| :: nodes[i].id != nodes[j].id
  {
    assert forall i | 0 <= i < |nodes| :: IdsOf(nodes)[i] == nodes[i].id;
  }

  lemma KnownAreExpected(nodes: seq<Node>)
    ensures KnownIds(nodes) == ExpectedIds() <==>
            forall id :: IsExpected(id) <==> exists i :: 0 <= i < |nodes| && nodes[i].id == id
  {
    hide ExpectedIds, PacketId;
    forall id ensures id in ExpectedIds() <==> IsExpected(id) { ExpectedIff(id); }
    forall id ensures id in KnownIds(nodes) <==> exists i :: 0 <= i < |nodes| && nodes[i].id == id { }
  }

  lemma JoinsEach(nodes: seq<Node>)
    ensures JoinsOk(nodes) <==> forall i | 0 <= i < |nodes| :: JoinsOk([nodes[i]])
  {
    forall i | 0 <= i < |nodes| ensures nodes[i] in nodes && nodes[i] in [nodes[i]] { }
  }

  // ---------- the first order ----------

  lemma PlacedIsNode(nodes: seq<Node>, order: seq<Id>, i: nat) returns (v: nat)
    requires Distinct(IdsOf(nodes)) && ValidOrder(nodes, order) && i < |order|
    ensures v < |nodes| && nodes[v].id == order[i] && IndexOf(nodes, order[i]) == v
  {
    hide Requires;
    assert Placed(nodes, order, i);
    var node :| node in nodes && node.id == order[i];
    v :| 0 <= v < |nodes| && nodes[v] == node;
    IndexAt(nodes, v);
  }

  lemma IndicesTell(nodes: seq<Node>, a: seq<Id>, b: seq<Id>)
    requires Distinct(IdsOf(nodes)) && ValidOrder(nodes, a) && ValidOrder(nodes, b)
    requires Indices(nodes, a) == Indices(nodes, b)
    ensures a == b
  {
    hide ValidOrder, IndexOf;
    assert |a| == |Indices(nodes, a)| == |Indices(nodes, b)| == |b|;
    forall i | 0 <= i < |a| ensures a[i] == b[i] {
      var v := PlacedIsNode(nodes, a, i);
      var w := PlacedIsNode(nodes, b, i);
      assert Indices(nodes, a)[i] == Indices(nodes, b)[i];
    }
  }

  lemma SameSet(a: seq<Id>, b: seq<Id>)
    requires Distinct(a) && (forall x | x in a :: x in b)
    ensures |a| <= |b|
  {
    SetOf(a);
    var s, t := set x | x in a, set x | x in b;
    SetAtMost(b);
    SubsetAtMost(s, t);
  }

  lemma {:induction false} SetOf(a: seq<Id>)
    requires Distinct(a)
    ensures |set x | x in a| == |a|
  {
    if a != [] {
      var init, last := a[..|a| - 1], a[|a| - 1];
      SetOf(init);
      assert (set x | x in a) == (set x | x in init) + {last};
    }
  }

  lemma {:induction false} SetAtMost(a: seq<Id>)
    ensures |set x | x in a| <= |a|
  {
    if a != [] {
      var init, last := a[..|a| - 1], a[|a| - 1];
      SetAtMost(init);
      assert (set x | x in a) == (set x | x in init) + {last};
    }
  }

  lemma {:induction false} SubsetAtMost(s: set<Id>, t: set<Id>)
    requires s <= t
    ensures |s| <= |t|
  {
    if s != {} {
      var x :| x in s;
      SubsetAtMost(s - {x}, t - {x});
    }
  }

  lemma OrdersEquallyLong(nodes: seq<Node>, a: seq<Id>, b: seq<Id>)
    requires ValidOrder(nodes, a) && ValidOrder(nodes, b)
    ensures |a| <= |b|
  {
    hide Requires;
    forall x | x in a ensures x in b {
      var i :| 0 <= i < |a| && a[i] == x;
      assert Placed(nodes, a, i);
    }
    SameSet(a, b);
  }

  /** There is only one first order. */
  lemma FirstOrderOnly(nodes: seq<Node>, a: seq<Id>, b: seq<Id>)
    requires Distinct(IdsOf(nodes)) && ValidOrder(nodes, a) && ValidOrder(nodes, b)
    requires FirstOrder(nodes, a) && FirstOrder(nodes, b)
    ensures a == b
  {
    hide ValidOrder, PacketGraph.LexAtMost;
    OrdersEquallyLong(nodes, a, b);
    OrdersEquallyLong(nodes, b, a);
    PacketGraph.LexAntisymmetric(Indices(nodes, a), Indices(nodes, b));
    IndicesTell(nodes, a, b);
  }
}
