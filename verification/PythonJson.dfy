/** Python's json.dumps with sorted keys, which the fixture maker uses as canonical text. */
module PythonJson {
  import opened Wrappers
  import opened Unicode
  import opened Number
  import opened Json
  import opened JsonGrammar
  import opened JsonMeaning
  import opened CanonicalTheorems
  import opened StringOrder

  /** json.dumps(..., ensure_ascii=False, sort_keys=True), compact: names sort by code points, not UTF-16 units. */
  function Dump(v: Value): string
    decreases v, 1, 0
  {
    match v
    case Null => "null"
    case Bool(b) => if b then "true" else "false"
    case Num(n) => NumberText(n)
    case Str(s) => PrintString(s)
    case Arr(items) => "[" + DumpItems(items) + "]"
    case Obj(members) => "{" + DumpMembers(v, Sorted(members.Keys)) + "}"
  }

  function DumpItems(items: seq<Value>): string
    decreases items, 0, 0
  {
    if items == [] then ""
    else Dump(items[0]) + ((if |items| == 1 then "" else ",") + DumpItems(items[1..]))
  }

  function DumpMembers(v: Value, keys: seq<string>): string
    requires v.Obj? && forall k | k in keys :: k in v.members
    decreases v, 0, |keys|
  {
    if keys == [] then ""
    else PrintString(keys[0]) + (":" + (Dump(v.members[keys[0]])
         + ((if |keys| == 1 then "" else ",") + DumpMembers(v, keys[1..]))))
  }

  /** No object of the value has two names that the two orders put differently. */
  predicate OrdersAgree(v: Value) {
    match v
    case Arr(items) => forall i | 0 <= i < |items| :: OrdersAgree(items[i])
    case Obj(members) =>
      && (forall a, b | a in members && b in members :: Less(a, b) == KeyLess(a, b))
      && forall k | k in members :: OrdersAgree(members[k])
    case _ => true
  }

  lemma SameListing(names: set<string>)
    requires forall a, b | a in names && b in names :: Less(a, b) == KeyLess(a, b)
    ensures Sorted(names) == SortKeys(names)
  {
    hide KeyLess, Less;
    AscendingUnique(Sorted(names), names);
  }

  /** Where the orders agree, Python's text is the canonical text. */
  lemma {:induction false} DumpIsCanonical(v: Value)
    requires OrdersAgree(v)
    ensures Dump(v) == Print(v)
    decreases v, 1, 0
  {
    match v
    case Arr(items) => DumpItemsCanonical(items);
    case Obj(members) =>
      SameListing(members.Keys);
      DumpMembersCanonical(v, Sorted(members.Keys));
    case _ =>
  }

  lemma {:induction false} DumpItemsCanonical(items: seq<Value>)
    requires forall i | 0 <= i < |items| :: OrdersAgree(items[i])
    ensures DumpItems(items) == PrintItems(items)
    decreases items, 0, 0
  {
    if items != [] {
      DumpIsCanonical(items[0]);
      DumpItemsCanonical(items[1..]);
    }
  }

  lemma {:induction false} DumpMembersCanonical(v: Value, keys: seq<string>)
    requires v.Obj? && OrdersAgree(v) && forall k | k in keys :: k in v.members
    ensures DumpMembers(v, keys) == PrintMembers(v, keys)
    decreases v, 0, |keys|
  {
    if keys != [] {
      DumpIsCanonical(v.members[keys[0]]);
      DumpMembersCanonical(v, keys[1..]);
    }
  }

  // ---------- the syntax tree of Python's text ----------

  ghost function DumpCst(v: Value): Cst
    decreases v, 1, 0
  {
    match v
    case Arr(items) => CArr("", DumpItemsCst(items))
    case Obj(members) => CObj("", DumpMembersCst(v, Sorted(members.Keys)))
    case _ => CanonCst(v)
  }

  ghost function DumpItemsCst(items: seq<Value>): CItems
    decreases items, 0, 0
  {
    if items == [] then NoItems else Item("", DumpCst(items[0]), "", DumpItemsCst(items[1..]))
  }

  ghost function DumpMembersCst(v: Value, keys: seq<string>): CMembers
    requires v.Obj? && forall k | k in keys :: k in v.members
    decreases v, 0, |keys|
  {
    if keys == [] then NoMembers
    else Member("", CanonPieces(keys[0]), "", "", DumpCst(v.members[keys[0]]), "", DumpMembersCst(v, keys[1..]))
  }

  lemma {:induction false} DumpText(v: Value, rest: string)
    ensures Good(DumpCst(v)) && Emit(DumpCst(v), rest) == Dump(v) + rest
    decreases v, 1, 0
  {
    match v
    case Arr(items) =>
      if items == [] {
        assert "[" + "" + "]" + rest == "[" + ("" + ("]" + rest));
      } else {
        DumpItemsText(items, rest);
        Assoc("[" + DumpItems(items), "]", rest);
        Assoc("[", DumpItems(items), "]" + rest);
      }
    case Obj(members) =>
      var keys := Sorted(members.Keys);
      if keys == [] {
        assert "{" + "" + "}" + rest == "{" + ("" + ("}" + rest));
      } else {
        DumpMembersText(v, keys, rest);
        Assoc("{" + DumpMembers(v, keys), "}", rest);
        Assoc("{", DumpMembers(v, keys), "}" + rest);
      }
    case _ =>
      ScalarGood(v);
      CanonText(v, rest);
  }

  /** The trees of canonical texts are well formed. */
  lemma CanonGood(v: Value)
    ensures Good(CanonCst(v))
  {
    AlwaysSettledById(v);
    CanonMeaning((n: Number) => Some(n), v);
  }

  lemma ScalarGood(v: Value)
    requires !v.Arr? && !v.Obj?
    ensures Good(CanonCst(v)) && Dump(v) == Print(v)
  {
    CanonGood(v);
  }

  lemma {:induction false} DumpItemsText(items: seq<Value>, rest: string)
    requires items != []
    ensures GoodItems(DumpItemsCst(items)) && EmitItems(DumpItemsCst(items), rest) == DumpItems(items) + ("]" + rest)
    decreases items, 0, 0
  {
    hide Emit, Good;
    var more, first := DumpItemsCst(items[1..]), Dump(items[0]);
    assert ItemTail(DumpItemsCst(items), rest) == ItemClose(more, rest) by {
      assert "" + ItemClose(more, rest) == ItemClose(more, rest);
    }
    DumpText(items[0], ItemClose(more, rest));
    assert "" + Emit(DumpCst(items[0]), ItemClose(more, rest)) == first + ItemClose(more, rest);
    if |items| == 1 {
      assert DumpItems(items) == first + ("" + "") == first;
    } else {
      DumpItemsText(items[1..], rest);
      Assoc(",", DumpItems(items[1..]), "]" + rest);
      Assoc(first, "," + DumpItems(items[1..]), "]" + rest);
    }
  }

  lemma {:induction false} DumpMembersText(v: Value, keys: seq<string>, rest: string)
    requires v.Obj? && keys != [] && forall k | k in keys :: k in v.members
    ensures GoodMembers(DumpMembersCst(v, keys))
    ensures EmitMembers(DumpMembersCst(v, keys), rest) == DumpMembers(v, keys) + ("}" + rest)
    decreases v, 0, |keys|
  {
    hide Emit, Good, EmitPieces;
    var ms, child := DumpMembersCst(v, keys), Dump(v.members[keys[0]]);
    var close := MemberClose(ms.more, rest);
    DumpText(v.members[keys[0]], close);
    var more := (if |keys| == 1 then "" else ",") + DumpMembers(v, keys[1..]);
    assert ms.more == DumpMembersCst(v, keys[1..]);
    if |keys| == 1 {
      assert keys[1..] == [] && ms.more.NoMembers?;
      assert more == "" && "" + ("}" + rest) == "}" + rest;
    } else {
      DumpMembersText(v, keys[1..], rest);
      assert ms.more.Member?;
      Assoc(",", DumpMembers(v, keys[1..]), "}" + rest);
    }
    assert close == more + ("}" + rest);
    MemberText(v, keys, rest, child, close);
    Assoc(child, more, "}" + rest);
    Assoc(":", child + more, "}" + rest);
    Assoc(PrintString(keys[0]), ":" + (child + more), "}" + rest);
  }

  lemma MemberText(v: Value, keys: seq<string>, rest: string, child: string, close: string)
    requires v.Obj? && keys != [] && forall k | k in keys :: k in v.members
    requires var ms := DumpMembersCst(v, keys);
             close == MemberClose(ms.more, rest) && Emit(ms.value, close) == child + close
    ensures EmitMembers(DumpMembersCst(v, keys), rest) == PrintString(keys[0]) + (":" + (child + close))
  {
    hide Emit, EmitPieces;
    var ms := DumpMembersCst(v, keys);
    assert MemberTail(ms, rest) == close by { assert "" + close == close; }
    var after := ":" + (child + close);
    assert EmitAfterName(ms, rest) == after by {
      assert "" + (child + close) == child + close && "" + after == after;
    }
    CanonPiecesText(keys[0], after);
    QuotedText(keys[0], after);
    var quoted := "\"" + EmitPieces(ms.name, after);
    assert "" + quoted == quoted;
  }

  // ---------- equal texts come from agreeing orders ----------

  lemma CanonPiecesInjective(a: string, b: string)
    requires CanonPieces(a) == CanonPieces(b)
    ensures a == b
  {
    CanonPiecesMeans(a);
    CanonPiecesMeans(b);
  }

  lemma {:induction false} SameTree(v: Value)
    requires DumpCst(v) == CanonCst(v)
    ensures OrdersAgree(v)
    decreases v, 1, 0
  {
    match v
    case Arr(items) => SameItems(items);
    case Obj(members) =>
      SameMembers(v, Sorted(members.Keys), SortKeys(members.Keys));
      SameOrders(members.Keys);
    case _ =>
  }

  lemma {:induction false} SameItems(items: seq<Value>)
    requires DumpItemsCst(items) == CanonItems(items)
    ensures forall i | 0 <= i < |items| :: OrdersAgree(items[i])
    decreases items, 0, 0
  {
    if items != [] {
      SameTree(items[0]);
      SameItems(items[1..]);
      assert forall i | 0 < i < |items| :: items[i] == items[1..][i - 1];
    }
  }

  lemma {:induction false} SameMembers(v: Value, dumped: seq<string>, canonical: seq<string>)
    requires v.Obj? && (forall k | k in dumped :: k in v.members) && forall k | k in canonical :: k in v.members
    requires DumpMembersCst(v, dumped) == CanonMembers(v, canonical)
    ensures dumped == canonical && forall k | k in dumped :: OrdersAgree(v.members[k])
    decreases v, 0, |dumped|
  {
    if dumped != [] && canonical != [] {
      CanonPiecesInjective(dumped[0], canonical[0]);
      SameTree(v.members[dumped[0]]);
      SameMembers(v, dumped[1..], canonical[1..]);
      assert dumped == [dumped[0]] + dumped[1..] && canonical == [canonical[0]] + canonical[1..];
    }
  }

  /** One list sorted both ways: the orders agree on its names. */
  lemma SameOrders(names: set<string>)
    requires Sorted(names) == SortKeys(names)
    ensures forall a, b | a in names && b in names :: Less(a, b) == KeyLess(a, b)
  {
    hide Less, KeyLess, Sorted, SortKeys;
    var keys := Sorted(names);
    forall a, b | a in names && b in names ensures Less(a, b) == KeyLess(a, b) {
      var i :| 0 <= i < |keys| && keys[i] == a;
      var j :| 0 <= j < |keys| && keys[j] == b;
      SameOrderAt(keys, i, j);
    }
  }

  lemma SameOrderAt(keys: seq<string>, i: nat, j: nat)
    requires Increasing(keys) && Ascending(keys) && i < |keys| && j < |keys|
    ensures Less(keys[i], keys[j]) == KeyLess(keys[i], keys[j])
  {
    hide Less, KeyLess;
    LessOrder(keys[i], keys[j]);
    KeyLessOrder(keys[i], keys[j]);
  }

  /** Python's text is the canonical text exactly when no object has two names that the orders put differently. */
  lemma DumpIsCanonicalIff(v: Value)
    ensures Dump(v) == Print(v) <==> OrdersAgree(v)
  {
    hide Dump, Print, DumpCst, CanonCst, Emit, Good, OrdersAgree, ReadValue;
    if OrdersAgree(v) {
      DumpIsCanonical(v);
    }
    if Dump(v) == Print(v) {
      CanonGood(v);
      DumpText(v, "");
      CanonText(v, "");
      ReadValueOf(DumpCst(v), "");
      ReadValueOf(CanonCst(v), "");
      SameTree(v);
    }
  }

  // ---------- when the orders agree ----------

  predicate Basic(s: string) { forall i | 0 <= i < |s| :: s[i] as int < 0x1_0000 }

  /** On names without supplementary characters the two orders are one. */
  lemma {:induction false} BasicOrdersAgree(a: string, b: string)
    requires Basic(a) && Basic(b)
    ensures Less(a, b) == KeyLess(a, b)
  {
    if a != "" { Encode16Cons(a[0], a[1..]); assert a == [a[0]] + a[1..]; }
    if b != "" { Encode16Cons(b[0], b[1..]); assert b == [b[0]] + b[1..]; }
    if a != "" && b != "" {
      BasicOrdersAgree(a[1..], b[1..]);
      assert Encode16(a)[1..] == Encode16(a[1..]) && Encode16(b)[1..] == Encode16(b[1..]);
    }
  }

  /** They differ on U+FF61 and U+10000, whose units start with D800. */
  lemma OrdersDiffer()
    ensures Less([0xFF61 as char], [0x1_0000 as char]) && KeyLess([0x1_0000 as char], [0xFF61 as char])
  {
    assert UnitsOf(0x1_0000 as char)[0] == 0xD800;
  }

  /** So an object with both names is dumped to other bytes than its canonical ones. */
  lemma DumpDiffers()
    ensures var v := Obj(map[[0xFF61 as char] := Null, [0x1_0000 as char] := Null]); Dump(v) != Print(v)
  {
    var a, b := [0xFF61 as char], [0x1_0000 as char];
    var v := Obj(map[a := Null, b := Null]);
    OrdersDiffer();
    KeyLessOrder(a, b);
    assert a in v.members && b in v.members;
    DumpIsCanonicalIff(v);
  }
}
