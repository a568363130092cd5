/**
 What a JSON text means: the value its syntax tree denotes, or nothing when a string has a lone
 surrogate, an object repeats a name, or a number is beyond the doubles.
 */
module JsonMeaning {
  import opened Wrappers
  import opened Unicode
  import opened Number
  import opened CanonicalNumber
  import opened Json
  import opened JsonGrammar

  // ---------- strings ----------

  function HexDigitValue(c: char): (r: int)
    requires IsHex(c)
    ensures 0 <= r < 16
  {
    if '0' <= c <= '9' then c as int - '0' as int
    else if 'a' <= c <= 'f' then c as int - 'a' as int + 10
    else c as int - 'A' as int + 10
  }

  function HexUnit(digits: string): Unit
    requires |digits| == 4 && forall i | 0 <= i < 4 :: IsHex(digits[i])
  {
    HexDigitValue(digits[0]) * 0x1000 + HexDigitValue(digits[1]) * 0x100
    + HexDigitValue(digits[2]) * 0x10 + HexDigitValue(digits[3])
  }

  function ShortChar(e: char): char {
    if e == 'b' then 0x08 as char
    else if e == 'f' then 0x0C as char
    else if e == 'n' then '\n'
    else if e == 'r' then '\r'
    else if e == 't' then '\t'
    else e
  }

  function PieceUnits(p: Piece): seq<Unit>
    requires GoodPiece(p)
  {
    match p
    case Raw(c) => UnitsOf(c)
    case Short(e) => UnitsOf(ShortChar(e))
    case Hex(digits) => [HexUnit(digits)]
  }

  /** The UTF-16 code units that a string literal denotes. */
  function Units(ps: seq<Piece>): seq<Unit>
    requires GoodPieces(ps)
  {
    if ps == [] then [] else PieceUnits(ps[0]) + Units(ps[1..])
  }

  function StringOf(ps: seq<Piece>): string
    requires GoodPieces(ps)
  {
    Decode16(Units(ps))
  }

  predicate CleanString(ps: seq<Piece>)
    requires GoodPieces(ps)
  {
    WellFormed16(Units(ps))
  }

  // ---------- values ----------

  /** No string literal of the tree, name or value, has a lone surrogate. */
  predicate Clean(c: Cst)
    requires Good(c)
  {
    match c
    case CStr(ps) => CleanString(ps)
    case CArr(_, items) => CleanItems(items)
    case CObj(_, ms) => CleanMembers(ms)
    case _ => true
  }

  predicate CleanItems(items: CItems)
    requires GoodItems(items)
  {
    items.Item? ==> Clean(items.value) && CleanItems(items.more)
  }

  predicate CleanMembers(ms: CMembers)
    requires GoodMembers(ms)
  {
    ms.Member? ==> CleanString(ms.name) && Clean(ms.value) && CleanMembers(ms.more)
  }

  function Names(ms: CMembers): set<string>
    requires GoodMembers(ms)
  {
    if ms.NoMembers? then {} else {StringOf(ms.name)} + Names(ms.more)
  }

  /** No object of the tree repeats a member name. */
  predicate Distinct(c: Cst)
    requires Good(c)
  {
    match c
    case CArr(_, items) => DistinctItems(items)
    case CObj(_, ms) => DistinctMembers(ms)
    case _ => true
  }

  predicate DistinctItems(items: CItems)
    requires GoodItems(items)
  {
    items.Item? ==> Distinct(items.value) && DistinctItems(items.more)
  }

  predicate DistinctMembers(ms: CMembers)
    requires GoodMembers(ms)
  {
    ms.Member? ==> StringOf(ms.name) !in Names(ms.more) && Distinct(ms.value) && DistinctMembers(ms.more)
  }

  /** The decoded tree; the order of members is gone. */
  function TreeOf(c: Cst): Tree
    requires Good(c)
  {
    match c
    case CNull => Null
    case CTrue => Bool(true)
    case CFalse => Bool(false)
    case CNum(l) => Num(l)
    case CStr(ps) => Str(StringOf(ps))
    case CArr(_, items) => Arr(ItemTrees(items))
    case CObj(_, ms) => Obj(MemberTrees(ms))
  }

  function ItemTrees(items: CItems): seq<Tree>
    requires GoodItems(items)
  {
    if items.NoItems? then [] else [TreeOf(items.value)] + ItemTrees(items.more)
  }

  function MemberTrees(ms: CMembers): (r: map<string, Tree>)
    requires GoodMembers(ms)
    ensures r.Keys == Names(ms)
  {
    if ms.NoMembers? then map[] else MemberTrees(ms.more)[StringOf(ms.name) := TreeOf(ms.value)]
  }

  // ---------- texts ----------

  function ReadText(s: string): (r: Option<Cst>)
    ensures r.Some? ==> Good(r.value)
  {
    match ReadValue(SkipBlank(s))
    case None => None
    case Some((c, rest)) =>
      ReadValueExact(SkipBlank(s));
      if SkipBlank(rest) == "" then Some(c) else None
  }

  /** The grammar of a text: blanks, a value, blanks. */
  ghost predicate Spells(s: string, c: Cst) {
    Good(c) && exists before, after | Blanks(before) && Blanks(after) :: s == before + Emit(c, after)
  }

  lemma ReadTextIffSpells(s: string, c: Cst)
    ensures ReadText(s) == Some(c) <==> Spells(s, c)
  {
    if ReadText(s) == Some(c) {
      var (before, s1) := TakeBlank(s);
      TakeBlankExact(s);
      ReadValueExact(s1);
      var (_, s2) := ReadValue(s1).value;
      TakeBlankExact(s2);
      var (after, s3) := TakeBlank(s2);
      assert s3 == "" && after + "" == after == s2;
      assert Blanks(before) && Blanks(after) && s == before + Emit(c, after);
    }
    if Spells(s, c) {
      var before, after :| Blanks(before) && Blanks(after) && s == before + Emit(c, after);
      EmitStarts(c, after);
      TakeBlankOf(before, Emit(c, after));
      assert NumberEnds(after) by { assert after != "" ==> IsBlank(after[0]); }
      ReadValueOf(c, after);
      TakeBlankOf(after, "");
      assert after + "" == after;
    }
  }

  function MeaningOf(round: Rounding, c: Cst): Option<Value>
    requires Good(c)
  {
    if Clean(c) && Distinct(c) then Denote(round, TreeOf(c)) else None
  }

  function Meaning(round: Rounding, s: string): Option<Value> {
    match ReadText(s)
    case None => None
    case Some(c) => MeaningOf(round, c)
  }

  // ---------- the canonical tree of a value ----------

  function CanonPiece(c: char): (p: Piece)
    ensures GoodPiece(p) && PieceText(p) == EscapeChar(c)
  {
    if c == '"' || c == '\\' then Short(c)
    else if c as int == 0x08 then Short('b')
    else if c as int == 0x09 then Short('t')
    else if c as int == 0x0A then Short('n')
    else if c as int == 0x0C then Short('f')
    else if c as int == 0x0D then Short('r')
    else if c as int < 0x20 then
      HexCharValue(c as int / 16);
      HexCharValue(c as int % 16);
      Hex("00" + HexPair(c as int))
    else Raw(c)
  }

  lemma HexCharValue(d: nat)
    requires d < 16
    ensures IsHex(HexChar(d)) && HexDigitValue(HexChar(d)) == d
  {
  }

  lemma CanonPieceUnits(c: char)
    ensures PieceUnits(CanonPiece(c)) == UnitsOf(c)
  {
    if CanonPiece(c).Hex? {
      HexCharValue(c as int / 16);
      HexCharValue(c as int % 16);
    }
  }

  function CanonPieces(s: string): (ps: seq<Piece>)
    ensures GoodPieces(ps)
  {
    if s == "" then [] else [CanonPiece(s[0])] + CanonPieces(s[1..])
  }

  lemma {:induction false} CanonPiecesText(s: string, rest: string)
    ensures EmitPieces(CanonPieces(s), rest) == EscapeAll(s) + ("\"" + rest)
  {
    if s == "" {
      assert "" + ("\"" + rest) == "\"" + rest;
    } else {
      var ps := CanonPieces(s);
      assert ps[1..] == CanonPieces(s[1..]);
      CanonPiecesText(s[1..], rest);
      Assoc(EscapeChar(s[0]), EscapeAll(s[1..]), "\"" + rest);
    }
  }

  lemma {:induction false} CanonPiecesUnits(s: string)
    ensures Units(CanonPieces(s)) == Encode16(s)
  {
    if s != "" {
      assert CanonPieces(s)[1..] == CanonPieces(s[1..]);
      CanonPieceUnits(s[0]);
      CanonPiecesUnits(s[1..]);
    }
  }

  lemma CanonPiecesMeans(s: string)
    ensures StringOf(CanonPieces(s)) == s && CleanString(CanonPieces(s))
  {
    CanonPiecesUnits(s);
    Decode16Inverts(s);
  }

  ghost function CanonCst(v: Value): Cst
    decreases v, 1, 0
  {
    match v
    case Null => CNull
    case Bool(b) => if b then CTrue else CFalse
    case Num(n) => CNum(Canonical(n))
    case Str(s) => CStr(CanonPieces(s))
    case Arr(items) => CArr("", CanonItems(items))
    case Obj(members) => CObj("", CanonMembers(v, SortKeys(members.Keys)))
  }

  ghost function CanonItems(items: seq<Value>): CItems
    decreases items, 0, 0
  {
    if items == [] then NoItems else Item("", CanonCst(items[0]), "", CanonItems(items[1..]))
  }

  ghost function CanonMembers(v: Value, keys: seq<string>): CMembers
    requires v.Obj? && forall k | k in keys :: k in v.members
    decreases v, 0, |keys|
  {
    if keys == [] then NoMembers
    else Member("", CanonPieces(keys[0]), "", "", CanonCst(v.members[keys[0]]), "", CanonMembers(v, keys[1..]))
  }

  // ---------- its text is what the printer writes ----------

  lemma {:induction false} CanonText(v: Value, rest: string)
    ensures Emit(CanonCst(v), rest) == Print(v) + rest
    decreases v, 1, 0
  {
    hide Emit, Print, CanonCst, EmitItems, PrintItems, EmitMembers, PrintMembers;
    match v
    case Arr(items) =>
      if items != [] { CanonItemsText(items, rest); }
      ArrText(items, rest);
    case Obj(members) =>
      if members.Keys != {} { CanonMembersText(v, SortKeys(members.Keys), rest); }
      ObjText(members, rest);
    case _ => ScalarText(v, rest);
  }

  lemma ScalarText(v: Value, rest: string)
    requires !v.Arr? && !v.Obj?
    ensures Emit(CanonCst(v), rest) == Print(v) + rest
  {
    hide LiteralText, Canonical, CanonPieces, EscapeAll, EmitPieces;
    if v.Str? {
      CanonPiecesText(v.s, rest);
      Assoc("\"" + EscapeAll(v.s), "\"", rest);
      Assoc("\"", EscapeAll(v.s), "\"" + rest);
    }
  }

  lemma Brackets(open: string, inner: string, close: string, rest: string)
    ensures open + inner + close + rest == open + (inner + (close + rest))
    ensures inner == "" ==> inner + (close + rest) == close + rest
  {
    Assoc(open + inner, close, rest);
    Assoc(open, inner, close + rest);
  }

  lemma ArrText(items: seq<Value>, rest: string)
    requires items != [] ==> EmitItems(CanonItems(items), rest) == PrintItems(items) + ("]" + rest)
    ensures Emit(CanonCst(Value.Arr(items)), rest) == Print(Value.Arr(items)) + rest
  {
    hide EmitItems;
    Brackets("[", PrintItems(items), "]", rest);
  }

  lemma ObjText(members: map<string, Value>, rest: string)
    requires var v, keys := Value.Obj(members), SortKeys(members.Keys);
             keys != [] ==> EmitMembers(CanonMembers(v, keys), rest) == PrintMembers(v, keys) + ("}" + rest)
    ensures Emit(CanonCst(Value.Obj(members)), rest) == Print(Value.Obj(members)) + rest
  {
    hide EmitMembers, SortKeys;
    Brackets("{", PrintMembers(Value.Obj(members), SortKeys(members.Keys)), "}", rest);
  }

  lemma {:induction false} CanonItemsText(items: seq<Value>, rest: string)
    requires items != []
    ensures EmitItems(CanonItems(items), rest) == PrintItems(items) + ("]" + rest)
    decreases items, 0, 0
  {
    var more, first := CanonItems(items[1..]), Print(items[0]);
    assert ItemTail(CanonItems(items), rest) == ItemClose(more, rest) by {
      assert "" + ItemClose(more, rest) == ItemClose(more, rest);
    }
    CanonText(items[0], ItemClose(more, rest));
    assert "" + Emit(CanonCst(items[0]), ItemClose(more, rest)) == first + ItemClose(more, rest);
    if |items| == 1 {
      assert PrintItems(items) == first + ("" + "") == first;
    } else {
      CanonItemsText(items[1..], rest);
      Assoc(",", PrintItems(items[1..]), "]" + rest);
      Assoc(first, "," + PrintItems(items[1..]), "]" + rest);
    }
  }

  lemma {:induction false} CanonMembersText(v: Value, keys: seq<string>, rest: string)
    requires v.Obj? && keys != [] && forall k | k in keys :: k in v.members
    ensures EmitMembers(CanonMembers(v, keys), rest) == PrintMembers(v, keys) + ("}" + rest)
    decreases v, 0, |keys|
  {
    var ms, child := CanonMembers(v, keys), v.members[keys[0]];
    var close := MemberClose(ms.more, rest);
    assert MemberTail(ms, rest) == close by { assert "" + close == close; }
    CanonText(child, close);
    assert EmitAfterName(ms, rest) == ":" + (Print(child) + close) by {
      assert "" + (Print(child) + close) == Print(child) + close;
      assert "" + (":" + (Print(child) + close)) == ":" + (Print(child) + close);
    }
    CanonPiecesText(keys[0], EmitAfterName(ms, rest));
    QuotedText(keys[0], EmitAfterName(ms, rest));
    assert EmitMembers(ms, rest) == PrintString(keys[0]) + (":" + (Print(child) + close)) by {
      var quoted := "\"" + EmitPieces(ms.name, EmitAfterName(ms, rest));
      assert "" + quoted == quoted;
    }
    var more := (if |keys| == 1 then "" else ",") + PrintMembers(v, keys[1..]);
    assert close == more + ("}" + rest) by {
      if |keys| == 1 {
        assert keys[1..] == [];
        assert more == "" && "" + ("}" + rest) == "}" + rest;
      } else {
        assert ms.more == CanonMembers(v, keys[1..]) && ms.more.Member?;
        CanonMembersText(v, keys[1..], rest);
        Assoc(",", PrintMembers(v, keys[1..]), "}" + rest);
      }
    }
    Assoc(Print(child), more, "}" + rest);
    Assoc(":", Print(child) + more, "}" + rest);
    Assoc(PrintString(keys[0]), ":" + (Print(child) + more), "}" + rest);
  }

  lemma QuotedText(s: string, rest: string)
    ensures "\"" + (EscapeAll(s) + ("\"" + rest)) == PrintString(s) + rest
  {
    Assoc("\"" + EscapeAll(s), "\"", rest);
    Assoc("\"", EscapeAll(s), "\"" + rest);
  }

  // ---------- and it means the value ----------

  lemma {:induction false} CanonMeans(round: Rounding, v: Value)
    requires Settled(round, v)
    ensures var c := CanonCst(v); Good(c) && Clean(c) && Distinct(c) && Denote(round, TreeOf(c)) == Some(v)
    decreases v, 1, 0
  {
    match v
    case Num(n) => CanonicalIsExact(n);
    case Str(s) => CanonPiecesMeans(s);
    case Arr(items) => CanonItemsMean(round, items); DenoteItems(round, items);
    case Obj(members) =>
      var keys := SortKeys(members.Keys);
      CanonMembersMean(round, v, keys);
      DenoteMembers(round, MemberTrees(CanonMembers(v, keys)), v, keys);
    case _ =>
  }

  ghost predicate ItemsDenote(round: Rounding, trees: seq<Tree>, items: seq<Value>) {
    |trees| == |items| && forall i | 0 <= i < |items| :: Denote(round, trees[i]) == Some(items[i])
  }

  lemma {:induction false} CanonItemsMean(round: Rounding, items: seq<Value>)
    requires forall i | 0 <= i < |items| :: Settled(round, items[i])
    ensures var cs := CanonItems(items);
            GoodItems(cs) && CleanItems(cs) && DistinctItems(cs) && ItemsDenote(round, ItemTrees(cs), items)
    decreases items, 0, 0
  {
    if items != [] {
      CanonMeans(round, items[0]);
      CanonItemsMean(round, items[1..]);
      var trees := ItemTrees(CanonItems(items));
      forall i | 0 <= i < |items| ensures Denote(round, trees[i]) == Some(items[i]) {
        if i > 0 {
          assert items[i] == items[1..][i - 1];
        }
      }
    }
  }

  lemma DenoteItems(round: Rounding, items: seq<Value>)
    requires GoodItems(CanonItems(items)) && ItemsDenote(round, ItemTrees(CanonItems(items)), items)
    ensures Denote(round, Arr(ItemTrees(CanonItems(items)))) == Some(Arr(items))
  {
    var trees := ItemTrees(CanonItems(items));
    assert seq(|trees|, i requires 0 <= i < |trees| => Denote(round, trees[i]).value) == items;
  }

  ghost predicate MembersDenote(round: Rounding, trees: map<string, Tree>, v: Value, keys: seq<string>)
    requires v.Obj? && forall k | k in keys :: k in v.members
  {
    trees.Keys == (set k | k in keys) && forall k | k in keys :: Denote(round, trees[k]) == Some(v.members[k])
  }

  lemma {:induction false} CanonMembersMean(round: Rounding, v: Value, keys: seq<string>)
    requires v.Obj? && Ascending(keys) && forall k | k in keys :: k in v.members && Settled(round, v.members[k])
    ensures var ms := CanonMembers(v, keys);
            && GoodMembers(ms) && CleanMembers(ms) && DistinctMembers(ms)
            && MembersDenote(round, MemberTrees(ms), v, keys)
    decreases v, 0, |keys|
  {
    hide Good, Clean, Distinct, GoodPieces, CleanString, StringOf, Denote, TreeOf, CanonCst, CanonPieces, KeyLess;
    if keys != [] {
      var ms := CanonMembers(v, keys);
      CanonPiecesMeans(keys[0]);
      CanonMeans(round, v.members[keys[0]]);
      CanonMembersMean(round, v, keys[1..]);
      AscendingTail(keys);
      assert ms.more == CanonMembers(v, keys[1..]);
      OneMoreMember(round, MemberTrees(ms.more), TreeOf(ms.value), v, keys);
    }
  }

  lemma AscendingTail(keys: seq<string>)
    requires Ascending(keys) && keys != []
    ensures Ascending(keys[1..]) && keys[0] !in keys[1..]
  {
    KeyLessOrder(keys[0], keys[0]);
  }

  lemma OneMoreMember(round: Rounding, trees: map<string, Tree>, t: Tree, v: Value, keys: seq<string>)
    requires v.Obj? && keys != [] && keys[0] !in keys[1..] && forall k | k in keys :: k in v.members
    requires MembersDenote(round, trees, v, keys[1..]) && Denote(round, t) == Some(v.members[keys[0]])
    ensures MembersDenote(round, trees[keys[0] := t], v, keys)
  {
    hide Denote;
    assert keys == [keys[0]] + keys[1..];
    assert (set k | k in keys) == {keys[0]} + (set k | k in keys[1..]);
  }

  lemma DenoteMembers(round: Rounding, trees: map<string, Tree>, v: Value, keys: seq<string>)
    requires v.Obj? && Lists(keys, v.members.Keys) && MembersDenote(round, trees, v, keys)
    ensures Denote(round, Obj(trees)) == Some(v)
  {
    assert trees.Keys == v.members.Keys;
    var denoted := map k | k in trees :: Denote(round, trees[k]).value;
    assert denoted.Keys == v.members.Keys;
    assert forall k | k in denoted :: denoted[k] == v.members[k];
    assert denoted == v.members;
  }
}
