/** strictParse and canonicalValue of the TypeScript client, over texts of Unicode scalars. */
module TsCanonical {
  import opened Wrappers
  import opened Unicode
  import opened Number
  import opened CanonicalNumber
  import opened Json
  import opened JsonGrammar
  import opened JsonMeaning

  // ---------- rejectLoneSurrogates ----------

  method RejectLoneSurrogates(value: seq<Unit>) returns (ok: bool)
    ensures ok == WellFormed16(value)
  {
    var index := 0;
    while index < |value|
      invariant 0 <= index <= |value|
      invariant WellFormed16(value) == WellFormed16(value[index..])
    {
      var unit := value[index];
      assert value[index..][1..] == value[index + 1..];
      if 0xD800 <= unit <= 0xDBFF {
        if index + 1 >= |value| || !(0xDC00 <= value[index + 1] <= 0xDFFF) { return false; }
        assert value[index..][2..] == value[index + 2..];
        index := index + 1;
      } else if 0xDC00 <= unit <= 0xDFFF {
        return false;
      }
      index := index + 1;
    }
    return true;
  }

  // ---------- what parsing a value, the elements or the members yields ----------

  function ValueOutcome(round: Rounding, s: string): Option<(Value, string)> {
    match ReadValue(s)
    case None => None
    case Some((c, rest)) =>
      ReadValueExact(s);
      match MeaningOf(round, c) case None => None case Some(v) => Some((v, rest))
  }

  function ItemsValue(round: Rounding, items: CItems): Option<seq<Value>>
    requires GoodItems(items)
  {
    if items.NoItems? then Some([])
    else match MeaningOf(round, items.value)
         case None => None
         case Some(v) =>
           match ItemsValue(round, items.more)
           case None => None
           case Some(vs) => Some([v] + vs)
  }

  function MembersValue(round: Rounding, ms: CMembers): Option<map<string, Value>>
    requires GoodMembers(ms)
  {
    if ms.NoMembers? then Some(map[])
    else if !CleanString(ms.name) then None
    else match MeaningOf(round, ms.value)
         case None => None
         case Some(v) =>
           match MembersValue(round, ms.more)
           case None => None
           case Some(more) => if StringOf(ms.name) in more then None else Some(more[StringOf(ms.name) := v])
  }

  /** What the elements of an array mean, all together. */
  function ItemsMeaning(round: Rounding, items: CItems): Option<Value>
    requires GoodItems(items)
  {
    if CleanItems(items) && DistinctItems(items) then Denote(round, Arr(ItemTrees(items))) else None
  }

  function MembersMeaning(round: Rounding, ms: CMembers): Option<Value>
    requires GoodMembers(ms)
  {
    if CleanMembers(ms) && DistinctMembers(ms) then Denote(round, Obj(MemberTrees(ms))) else None
  }

  lemma {:induction false} ArrayMeaning(round: Rounding, items: CItems)
    requires GoodItems(items)
    ensures ItemsMeaning(round, items)
            == match ItemsValue(round, items) case None => None case Some(vs) => Some(Arr(vs))
  {
    if items.NoItems? {
      assert Denote(round, Arr([])).Some? && |Denote(round, Arr([])).value.items| == 0;
    } else {
      ArrayMeaning(round, items.more);
      var trees, more := ItemTrees(items), ItemTrees(items.more);
      assert trees[0] == TreeOf(items.value) && trees[1..] == more;
      ArrayConsDenotes(round, trees);
    }
  }

  lemma ArrayConsDenotes(round: Rounding, trees: seq<Tree>)
    requires trees != []
    ensures var r := Denote(round, Arr(trees));
            var first, more := Denote(round, trees[0]), Denote(round, Arr(trees[1..]));
            if first.Some? && more.Some? then r == Some(Arr([first.value] + more.value.items)) else r.None?
  {
    var more := trees[1..];
    assert forall i | 0 <= i < |more| :: more[i] == trees[i + 1];
    if forall i | 0 <= i < |trees| :: Denote(round, trees[i]).Some? {
      assert seq(|trees|, i requires 0 <= i < |trees| => Denote(round, trees[i]).value)
          == [Denote(round, trees[0]).value] + seq(|more|, i requires 0 <= i < |more| => Denote(round, more[i]).value);
    } else {
      var i :| 0 <= i < |trees| && Denote(round, trees[i]).None?;
      assert i > 0 ==> Denote(round, more[i - 1]).None?;
    }
  }

  lemma {:induction false} ObjectMeaning(round: Rounding, ms: CMembers)
    requires GoodMembers(ms)
    ensures MembersMeaning(round, ms) == match MembersValue(round, ms) case None => None case Some(vs) => Some(Obj(vs))
  {
    if ms.Member? {
      var key, more := StringOf(ms.name), MemberTrees(ms.more);
      ObjectMeaning(round, ms.more);
      if key !in more {
        ObjectConsDenotes(round, more, key, TreeOf(ms.value));
      }
      if MembersMeaning(round, ms.more).Some? {
        ObjectNames(round, more);
      }
    }
  }

  lemma ObjectNames(round: Rounding, trees: map<string, Tree>)
    requires Denote(round, Obj(trees)).Some?
    ensures Denote(round, Obj(trees)).value.Obj? && Denote(round, Obj(trees)).value.members.Keys == trees.Keys
  {
  }

  lemma ObjectConsDenotes(round: Rounding, trees: map<string, Tree>, key: string, t: Tree)
    requires key !in trees
    ensures var r := Denote(round, Obj(trees[key := t]));
            var first, more := Denote(round, t), Denote(round, Obj(trees));
            if first.Some? && more.Some? then more.value.Obj? && r == Some(Obj(more.value.members[key := first.value]))
            else r.None?
  {
    var all := trees[key := t];
    assert all[key] == t && forall k | k in trees :: k in all && all[k] == trees[k];
    if Denote(round, t).Some? && forall k | k in trees :: Denote(round, trees[k]).Some? {
      var denoted := map k | k in all :: Denote(round, all[k]).value;
      var more := map k | k in trees :: Denote(round, trees[k]).value;
      assert denoted.Keys == more[key := Denote(round, t).value].Keys;
      assert denoted == more[key := Denote(round, t).value];
    }
  }

  function ItemsOutcome(round: Rounding, r: Option<(CItems, string)>): Option<(seq<Value>, string)>
    requires r.Some? ==> GoodItems(r.value.0)
  {
    if r.None? then None
    else match ItemsValue(round, r.value.0) case None => None case Some(vs) => Some((vs, r.value.1))
  }

  function MembersOutcome(round: Rounding, r: Option<(CMembers, string)>): Option<(map<string, Value>, string)>
    requires r.Some? ==> GoodMembers(r.value.0)
  {
    if r.None? then None
    else match MembersValue(round, r.value.0) case None => None case Some(vs) => Some((vs, r.value.1))
  }

  function Elements(round: Rounding, s: string): Option<(seq<Value>, string)> {
    if ReadItems(s).Some? then ReadItemsExact(s); ItemsOutcome(round, ReadItems(s)) else None
  }

  /** The elements still to come, standing after an element. */
  function MoreElements(round: Rounding, s: string): Option<(seq<Value>, string)> {
    if ReadItemClose(s).Some? then ReadItemCloseExact(s); ItemsOutcome(round, ReadItemClose(s)) else None
  }

  function Members(round: Rounding, s: string): Option<(map<string, Value>, string)> {
    if ReadMembers(s).Some? then ReadMembersExact(s); MembersOutcome(round, ReadMembers(s)) else None
  }

  function MoreMembers(round: Rounding, s: string): Option<(map<string, Value>, string)> {
    if ReadMemberClose(s).Some? then ReadMemberCloseExact(s); MembersOutcome(round, ReadMemberClose(s)) else None
  }

  function Prepend(head: seq<Value>, r: Option<(seq<Value>, string)>): Option<(seq<Value>, string)> {
    match r case None => None case Some((tail, rest)) => Some((head + tail, rest))
  }

  function Merge(head: map<string, Value>, r: Option<(map<string, Value>, string)>)
    : Option<(map<string, Value>, string)>
  {
    match r
    case None => None
    case Some((tail, rest)) => if head.Keys !! tail.Keys then Some((head + tail, rest)) else None
  }

  lemma ElementsStep(round: Rounding, s: string)
    ensures Elements(round, s) == match ValueOutcome(round, SkipBlank(s))
                                  case None => None
                                  case Some((v, s2)) => Prepend([v], MoreElements(round, SkipBlank(s2)))
  {
  }

  function AddMember(key: string, v: Value, r: Option<(map<string, Value>, string)>)
    : Option<(map<string, Value>, string)>
  {
    match r
    case None => None
    case Some((tail, rest)) => if key in tail then None else Some((tail[key := v], rest))
  }

  /** From after a name: the colon, the value, and the members after it. */
  function MemberValue(round: Rounding, key: string, s: string): Option<(map<string, Value>, string)> {
    var s1 := SkipBlank(s);
    if !Starts(s1, ':') then None
    else match ValueOutcome(round, SkipBlank(s1[1..]))
         case None => None
         case Some((v, s2)) => AddMember(key, v, MoreMembers(round, SkipBlank(s2)))
  }

  /** A string literal without lone surrogates at the start of a text. */
  function TextOutcome(s: string): Option<(string, string)> {
    if !Starts(s, '"') then None
    else match ReadPieces(s[1..])
         case None => None
         case Some((ps, rest)) =>
           ReadPiecesExact(s[1..]);
           if CleanString(ps) then Some((StringOf(ps), rest)) else None
  }

  lemma MembersStep(round: Rounding, s: string)
    ensures Members(round, s) == match TextOutcome(SkipBlank(s))
                                 case None => None
                                 case Some((key, s1)) => MemberValue(round, key, s1)
  {
  }

  lemma ArrayOutcome(round: Rounding, s: string)
    requires Starts(s, '[')
    ensures ValueOutcome(round, s)
         == if Starts(SkipBlank(s[1..]), ']') then Some((Arr([]), SkipBlank(s[1..])[1..]))
            else match Elements(round, s[1..]) case None => None case Some((vs, rest)) => Some((Arr(vs), rest))
  {
    if ReadValue(s).Some? {
      ReadValueExact(s);
      ArrayMeaning(round, ReadValue(s).value.0.items);
    }
  }

  lemma ObjectOutcome(round: Rounding, s: string)
    requires Starts(s, '{')
    ensures ValueOutcome(round, s)
         == if Starts(SkipBlank(s[1..]), '}') then Some((Obj(map[]), SkipBlank(s[1..])[1..]))
            else match Members(round, s[1..]) case None => None case Some((vs, rest)) => Some((Obj(vs), rest))
  {
    if ReadValue(s).Some? {
      ReadValueExact(s);
      ObjectMeaning(round, ReadValue(s).value.0.members);
    }
  }

  // ---------- strictParse ----------

  class StrictParser {
    const source: string
    var offset: nat

    constructor (source: string)
      ensures this.source == source && offset == 0
    {
      this.source := source;
      offset := 0;
    }

    ghost predicate Valid()
      reads this
    {
      offset <= |source|
    }

    function Rest(): string
      requires offset <= |source|
      reads this
    {
      source[offset..]
    }

    /** source[index], undefined past the end. */
    function At(index: nat): Option<char> {
      if index < |source| then Some(source[index]) else None
    }

    method Whitespace()
      requires Valid()
      modifies this
      ensures Valid() && Rest() == SkipBlank(old(Rest())) && offset >= old(offset)
    {
      while offset < |source| && IsBlank(source[offset])
        invariant Valid() && offset >= old(offset) && SkipBlank(Rest()) == SkipBlank(old(Rest()))
      {
        assert Rest()[1..] == source[offset + 1..];
        offset := offset + 1;
      }
    }

    /** The offset after the literal's closing quote; an escape skips one character, or five after a u. */
    method FindEnd() returns (ok: bool)
      requires Valid() && Starts(Rest(), '"')
      modifies this
      ensures ok ==> Valid() && offset > old(offset) + 1
      ensures ReadPieces(old(Rest())[1..]).Some? ==> ok && Rest() == ReadPieces(old(Rest())[1..]).value.1
    {
      hide ReadPiece, ReadPieces, Leads;
      offset := offset + 1;
      ghost var body := source[offset..];
      LeadsHere(body, body);
      ghost var lost := false;
      while offset < |source|
        invariant offset > old(offset)
        invariant !lost ==> Valid() && Leads(body, Rest())
        invariant lost ==> ReadPieces(body).None?
        decreases |source| - offset
      {
        var current := source[offset];
        ghost var here := source[offset..];
        offset := offset + 1;
        if current == '"' {
          assert here[1..] == source[offset..];
          if !lost { LeadsEnds(body, here); }
          return true;
        }
        if current == '\\' {
          var escape := At(offset);
          offset := offset + 1;
          if escape == Some('u') {
            offset := offset + 4;
          }
        } else if current as int < 0x20 {
          if !lost {
            LeadsOn(body, here);
            PieceLength(here);
          }
          return false;
        }
        if !lost {
          LeadsOn(body, here);
          PieceLength(here);
          lost := ReadPiece(here).None?;
          if !lost {
            assert ReadPiece(here).value.1 == source[offset..];
          }
        }
      }
      if !lost && offset == |source| { LeadsEnds(body, ""); }
      return false;
    }

    method ParseString() returns (r: Option<string>)
      requires Valid()
      modifies this
      ensures r.Some? ==> Valid() && TextOutcome(old(Rest())) == Some((r.value, Rest()))
      ensures r.None? ==> TextOutcome(old(Rest())).None?
    {
      var start := offset;
      if At(offset) != Some('"') { return None; }
      var ok := FindEnd();
      if !ok { return None; }
      var slice := source[start..offset];
      SliceReads(source, start, offset);
      var parsed := ReadScalarValue(slice); // JSON.parse(slice)
      if parsed.None? || !parsed.value.0.CStr? || parsed.value.1 != "" { return None; }
      ReadScalarValueExact(slice);
      var units := Units(parsed.value.0.pieces);
      var clean := RejectLoneSurrogates(units);
      if !clean { return None; }
      return Some(Decode16(units));
    }

    /** A number is matched by a regular expression, so what follows it may still be no JSON. */
    method ParseNumber(round: Rounding) returns (r: Option<Value>)
      requires Valid() && NoOtherValue(Rest())
      modifies this
      ensures r.Some? ==> Valid() && offset > old(offset) && Parsed(round, old(Rest()), r.value, Rest())
      ensures r.None? ==> ValueOutcome(round, old(Rest())).None?
    {
      hide ValueOutcome, Parsed, MatchLiteral, LiteralText, NoOtherValue;
      var s := source[offset..];
      NumberOutcome(round, s);
      var number := MatchLiteral(s);
      if number.None? { return None; }
      MatchLiteralExact(s);
      DropHead(LiteralText(number.value.0), number.value.1);
      offset := offset + |LiteralText(number.value.0)|;
      assert Rest() == number.value.1;
      var value := round(Exact(number.value.0));
      return if value.None? then None else Some(Num(value.value));
    }

    method ParseValue(round: Rounding) returns (r: Option<Value>)
      requires Valid()
      modifies this
      ensures r.Some? ==> Valid() && offset > old(offset) && Parsed(round, SkipBlank(old(Rest())), r.value, Rest())
      ensures r.None? ==> ValueOutcome(round, SkipBlank(old(Rest()))).None?
      decreases |source| - offset, 1
    {
      Whitespace();
      ghost var s := Rest();
      var current := At(offset);
      if current == Some('{') {
        ObjectOutcome(round, s);
        r := ParseObject(round);
      } else if current == Some('[') {
        ArrayOutcome(round, s);
        r := ParseArray(round);
      } else if current == Some('"') {
        var text := ParseString();
        TextIsValue(round, s);
        r := if text.None? then None else Some(Str(text.value));
      } else if "true" <= source[offset..] {
        offset := offset + 4;
        r := Some(Bool(true));
      } else if "false" <= source[offset..] {
        offset := offset + 5;
        r := Some(Bool(false));
      } else if "null" <= source[offset..] {
        offset := offset + 4;
        r := Some(Null);
      } else if current.None? {
        r := None;
      } else {
        r := ParseNumber(round);
      }
    }

    method ParseArray(round: Rounding) returns (r: Option<Value>)
      requires Valid() && Starts(Rest(), '[')
      modifies this
      ensures r.Some? ==> Valid() && offset > old(offset) && ValueOutcome(round, old(Rest())) == Some((r.value, Rest()))
      ensures r.None? ==> ValueOutcome(round, old(Rest())).None?
      decreases |source| - offset, 0
    {
      ArrayOutcome(round, Rest());
      assert Rest()[1..] == source[offset + 1..];
      offset := offset + 1;
      ElementsSkip(round, Rest());
      Whitespace();
      if At(offset) == Some(']') {
        assert Rest()[1..] == source[offset + 1..];
        offset := offset + 1;
        return Some(Arr([]));
      }
      var list := ParseElements(round);
      return if list.None? then None else Some(Arr(list.value));
    }

    method ParseElements(round: Rounding) returns (r: Option<seq<Value>>)
      requires Valid()
      modifies this
      ensures r.Some? ==> Valid() && offset > old(offset) && Elements(round, old(Rest())) == Some((r.value, Rest()))
      ensures r.None? ==> Elements(round, old(Rest())).None?
      decreases |source| - offset, 3
    {
      ghost var all := Elements(round, Rest());
      var list: seq<Value> := [];
      PrependNone(all);
      while true
        invariant Valid() && offset >= old(offset)
        invariant all == Prepend(list, Elements(round, Rest()))
        decreases |source| - offset
      {
        var value := ParseElement(round, list);
        if value.None? { return None; }
        list := list + [value.value];
        CloseElements(round, Rest());
        var separator := TakeSeparator();
        if separator == Some(']') {
          assert list + [] == list;
          return Some(list);
        }
        if separator != Some(',') { return None; }
      }
    }

    /** An element and the blanks after it. */
    method ParseElement(round: Rounding, ghost list: seq<Value>) returns (value: Option<Value>)
      requires Valid()
      modifies this
      ensures value.None? ==> Prepend(list, Elements(round, old(Rest()))).None?
      ensures value.Some? ==>
        && Valid() && offset > old(offset)
        && Prepend(list, Elements(round, old(Rest()))) == Prepend(list + [value.value], MoreElements(round, Rest()))
      decreases |source| - offset, 2
    {
      ElementsStep(round, Rest());
      value := ParseValue(round);
      if value.Some? {
        if Stuck(Rest()) { StuckEnds(round, Rest()); }
        PrependTwice(list, value.value, MoreElements(round, SkipBlank(Rest())));
        Whitespace();
      }
    }

    method ParseObject(round: Rounding) returns (r: Option<Value>)
      requires Valid() && Starts(Rest(), '{')
      modifies this
      ensures r.Some? ==> Valid() && offset > old(offset) && ValueOutcome(round, old(Rest())) == Some((r.value, Rest()))
      ensures r.None? ==> ValueOutcome(round, old(Rest())).None?
      decreases |source| - offset, 0
    {
      ObjectOutcome(round, Rest());
      assert Rest()[1..] == source[offset + 1..];
      offset := offset + 1;
      MembersSkip(round, Rest());
      Whitespace();
      if At(offset) == Some('}') {
        assert Rest()[1..] == source[offset + 1..];
        offset := offset + 1;
        return Some(Obj(map[]));
      }
      var record := ParseMembers(round);
      return if record.None? then None else Some(Obj(record.value));
    }

    method ParseMembers(round: Rounding) returns (r: Option<map<string, Value>>)
      requires Valid()
      modifies this
      ensures r.Some? ==> Valid() && offset > old(offset) && Members(round, old(Rest())) == Some((r.value, Rest()))
      ensures r.None? ==> Members(round, old(Rest())).None?
      decreases |source| - offset, 5
    {
      ghost var all := Members(round, Rest());
      var record: map<string, Value> := map[];
      MergeNone(all);
      while true
        invariant Valid() && offset >= old(offset)
        invariant all == Merge(record, Members(round, Rest()))
        decreases |source| - offset
      {
        var member := ParseMember(round, record);
        if member.None? { return None; }
        record := record[member.value.0 := member.value.1];
        ghost var before := Rest();
        var separator := TakeSeparator();
        CloseMembers(round, record, before);
        if separator == Some('}') { return Some(record); }
        if separator != Some(',') { return None; }
      }
    }

    /** source[offset++]. */
    method TakeSeparator() returns (separator: Option<char>)
      requires Valid()
      modifies this
      ensures if old(Rest()) == "" then separator.None?
              else Valid() && offset > old(offset) && separator == Some(old(Rest())[0]) && Rest() == old(Rest())[1..]
    {
      separator := At(offset);
      assert Rest() != "" ==> Rest()[1..] == source[offset + 1..];
      offset := offset + 1;
    }

    /** A member with a new name, and the blanks after it. */
    method ParseMember(round: Rounding, record: map<string, Value>) returns (member: Option<(string, Value)>)
      requires Valid()
      modifies this
      ensures member.None? ==> Merge(record, Members(round, old(Rest()))).None?
      ensures member.Some? ==>
        && Valid() && offset > old(offset)
        && Merge(record, Members(round, old(Rest())))
           == Merge(record[member.value.0 := member.value.1], MoreMembers(round, Rest()))
      decreases |source| - offset, 4
    {
      MembersStep(round, Rest());
      Whitespace();
      var key := ParseString();
      if key.None? { return None; }
      if key.value in record {
        DuplicateName(round, record, key.value, Rest());
        return None;
      }
      var value := ParseAfterName(round, key.value, record);
      return if value.None? then None else Some((key.value, value.value));
    }

    method ParseAfterName(round: Rounding, ghost key: string, ghost record: map<string, Value>)
      returns (value: Option<Value>)
      requires Valid() && key !in record
      modifies this
      ensures value.None? ==> Merge(record, MemberValue(round, key, old(Rest()))).None?
      ensures value.Some? ==>
        && Valid() && offset > old(offset)
        && Merge(record, MemberValue(round, key, old(Rest())))
          == Merge(record[key := value.value], MoreMembers(round, Rest()))
      decreases |source| - offset, 3
    {
      hide ValueOutcome, MoreMembers, AddMember, SkipBlank;
      Whitespace();
      if At(offset) != Some(':') { return None; }
      assert Rest()[1..] == source[offset + 1..];
      offset := offset + 1;
      value := ParseMemberValue(round, key, record);
    }

    method ParseMemberValue(round: Rounding, ghost key: string, ghost record: map<string, Value>)
      returns (value: Option<Value>)
      requires Valid() && key !in record
      modifies this
      ensures value.None? ==> ValueOutcome(round, SkipBlank(old(Rest()))).None?
      ensures value.Some? ==>
        && Valid() && offset > old(offset)
        && match ValueOutcome(round, SkipBlank(old(Rest())))
           case None => MoreMembers(round, Rest()).None?
           case Some((v, s2)) =>
             Merge(record, AddMember(key, v, MoreMembers(round, SkipBlank(s2))))
             == Merge(record[key := value.value], MoreMembers(round, Rest()))
      decreases |source| - offset, 2
    {
      value := ParseValue(round);
      if value.Some? {
        if Stuck(Rest()) { StuckEnds(round, Rest()); }
        MergeAdd(record, key, value.value, MoreMembers(round, SkipBlank(Rest())));
        Whitespace();
      }
    }
  }

  lemma PrependNone(r: Option<(seq<Value>, string)>)
    ensures Prepend([], r) == r
  {
    if r.Some? {
      assert [] + r.value.0 == r.value.0;
    }
  }

  lemma PrependTwice(head: seq<Value>, v: Value, r: Option<(seq<Value>, string)>)
    ensures Prepend(head, Prepend([v], r)) == Prepend(head + [v], r)
  {
    if r.Some? {
      assert head + ([v] + r.value.0) == head + [v] + r.value.0;
    }
  }

  lemma MergeNone(r: Option<(map<string, Value>, string)>)
    ensures Merge(map[], r) == r
  {
    if r.Some? {
      assert map[] + r.value.0 == r.value.0;
    }
  }

  lemma MergeAdd(head: map<string, Value>, key: string, v: Value, r: Option<(map<string, Value>, string)>)
    ensures Merge(head, AddMember(key, v, r)) == if key in head then None else Merge(head[key := v], r)
  {
    if r.Some? && key !in head && key !in r.value.0 && head.Keys !! r.value.0.Keys {
      assert head + r.value.0[key := v] == head[key := v] + r.value.0;
    }
  }

  lemma DuplicateName(round: Rounding, head: map<string, Value>, key: string, s: string)
    requires key in head
    ensures Merge(head, MemberValue(round, key, s)).None?
  {
    var s1 := SkipBlank(s);
    if Starts(s1, ':') && ValueOutcome(round, SkipBlank(s1[1..])).Some? {
      var (v, s2) := ValueOutcome(round, SkipBlank(s1[1..])).value;
      MergeAdd(head, key, v, MoreMembers(round, SkipBlank(s2)));
    }
  }

  lemma ElementsSkip(round: Rounding, s: string)
    ensures Elements(round, SkipBlank(s)) == Elements(round, s)
  {
    SkipBlankTwice(s);
    ElementsStep(round, s);
    ElementsStep(round, SkipBlank(s));
  }

  lemma MembersSkip(round: Rounding, s: string)
    ensures Members(round, SkipBlank(s)) == Members(round, s)
  {
    SkipBlankTwice(s);
    MembersStep(round, s);
    MembersStep(round, SkipBlank(s));
  }

  lemma CloseElements(round: Rounding, s: string)
    ensures MoreElements(round, s)
         == if Starts(s, ']') then Some(([], s[1..])) else if Starts(s, ',') then Elements(round, s[1..]) else None
  {
  }

  lemma CloseMembers(round: Rounding, head: map<string, Value>, s: string)
    ensures Merge(head, MoreMembers(round, s))
         == if Starts(s, '}') then Some((head, s[1..]))
            else if Starts(s, ',') then Merge(head, Members(round, s[1..]))
            else None
  {
    assert head + map[] == head;
  }

  /** After a number that no JSON text can follow, neither an element nor a member can come. */
  lemma StuckEnds(round: Rounding, rest: string)
    requires Stuck(rest)
    ensures MoreElements(round, SkipBlank(rest)).None? && MoreMembers(round, SkipBlank(rest)).None?
  {
  }

  /** A value was parsed; or a number was, where no JSON text can go on. */
  ghost predicate Parsed(round: Rounding, s: string, v: Value, rest: string) {
    ValueOutcome(round, s) == Some((v, rest)) || (ReadValue(s).None? && Stuck(rest))
  }

  /** Neither a container, a string nor a word starts here. */
  predicate NoOtherValue(s: string) {
    s != "" && s[0] !in "[{\"" && !("true" <= s) && !("false" <= s) && !("null" <= s)
  }

  lemma LiteralNotEmpty(s: string)
    requires MatchLiteral(s).Some?
    ensures |LiteralText(MatchLiteral(s).value.0)| > 0
  {
    hide MatchLiteral;
    MatchLiteralExact(s);
    assert |DigitsText(MatchLiteral(s).value.0.whole)| > 0;
  }

  lemma NumberOutcome(round: Rounding, s: string)
    requires NoOtherValue(s)
    ensures match MatchLiteral(s)
            case None => ValueOutcome(round, s).None?
            case Some((l, rest)) =>
              && |LiteralText(l)| > 0
              && match round(Exact(l))
                 case None => ValueOutcome(round, s).None?
                 case Some(n) => Parsed(round, s, Num(n), rest)
  {
    hide MatchLiteral, ReadLiteral, LiteralText, ReadPieces, Exact;
    MatchVersusRead(s);
    if MatchLiteral(s).Some? { LiteralNotEmpty(s); }
    if ReadLiteral(s).Some? {
      assert ReadValue(s) == Some((CNum(ReadLiteral(s).value.0), ReadLiteral(s).value.1));
    } else {
      assert ReadValue(s).None?;
    }
  }

  lemma TextIsValue(round: Rounding, s: string)
    requires Starts(s, '"')
    ensures ValueOutcome(round, s)
         == match TextOutcome(s) case None => None case Some((text, rest)) => Some((Str(text), rest))
  {
  }

  /** A slice that ends where the scan stopped parses exactly when the literal reads to that point. */
  lemma SliceReads(source: string, start: nat, end: nat)
    requires start < end <= |source| && source[start] == '"'
    requires ReadPieces(source[start + 1..]).Some? ==> ReadPieces(source[start + 1..]).value.1 == source[end..]
    ensures var parsed := ReadScalarValue(source[start..end]);
            if parsed.Some? && parsed.value.0.CStr? && parsed.value.1 == ""
            then ReadPieces(source[start + 1..]) == Some((parsed.value.0.pieces, source[end..]))
            else ReadPieces(source[start + 1..]).None?
  {
    var slice, body, rest := source[start..end], source[start + 1..], source[end..];
    assert slice[1..] + rest == body;
    if ReadPieces(body).Some? {
      var ps := ReadPieces(body).value.0;
      ReadPiecesExact(body);
      EmitPiecesAppend(ps, rest);
      DropTail(slice[1..], EmitPieces(ps, ""), rest);
      ReadPiecesOf(ps, "");
    }
    if ReadPieces(slice[1..]).Some? && ReadPieces(slice[1..]).value.1 == "" {
      var ps := ReadPieces(slice[1..]).value.0;
      ReadPiecesExact(slice[1..]);
      EmitPiecesAppend(ps, rest);
      ReadPiecesOf(ps, rest);
    }
  }

  lemma DropTail(a: string, b: string, rest: string)
    requires a + rest == b + rest
    ensures a == b
  {
    assert |a| == |b|;
    assert a == (a + rest)[..|a|] && b == (b + rest)[..|b|];
  }

  /** The rest of the literal decides what the whole literal reads as. */
  ghost predicate Leads(body: string, here: string) {
    if ReadPieces(here).None? then ReadPieces(body).None?
    else ReadPieces(body).Some? && ReadPieces(body).value.1 == ReadPieces(here).value.1
  }

  lemma LeadsHere(body: string, here: string)
    requires body == here
    ensures Leads(body, here)
  {
  }

  /** At the closing quote, or at the end of the text. */
  lemma LeadsEnds(body: string, here: string)
    requires Leads(body, here) && (here == "" || here[0] == '"')
    ensures if here == "" then ReadPieces(body).None?
            else ReadPieces(body).Some? && ReadPieces(body).value.1 == here[1..]
  {
  }

  /** A piece is one character, an escape of two, or one of six. */
  lemma PieceLength(s: string)
    requires s != ""
    ensures s[0] as int < 0x20 ==> ReadPiece(s).None?
    ensures ReadPiece(s).Some? && s[0] != '\\' ==> ReadPiece(s).value.1 == s[1..]
    ensures ReadPiece(s).Some? && s[0] == '\\' ==>
              && |s| >= 2
              && if s[1] == 'u' then |s| >= 6 && ReadPiece(s).value.1 == s[6..] else ReadPiece(s).value.1 == s[2..]
  {
  }

  lemma LeadsOn(body: string, here: string)
    requires Leads(body, here) && !Starts(here, '"')
    ensures ReadPiece(here).None? ==> ReadPieces(body).None?
    ensures ReadPiece(here).Some? ==> Leads(body, ReadPiece(here).value.1)
  {
  }

  method StrictParse(source: string, round: Rounding) returns (r: Option<Value>)
    ensures r == Meaning(round, source)
  {
    var parser := new StrictParser(source);
    assert source[0..] == source;
    var value := parser.ParseValue(round);
    if value.None? { return None; }
    parser.Whitespace();
    if parser.offset != |source| { return None; }
    return value;
  }

  // ---------- canonicalValue ----------

  /** parts.join(","). */
  function Join(parts: seq<string>): string {
    if parts == [] then "" else if |parts| == 1 then parts[0] else parts[0] + "," + Join(parts[1..])
  }

  /** JSON.stringify quotes strings and lays out numbers as ECMAScript does. */
  function CanonicalValue(v: Value): string {
    match v
    case Null => "null"
    case Bool(b) => if b then "true" else "false"
    case Num(n) => NumberText(n)
    case Str(s) => PrintString(s)
    case Arr(items) => "[" + Join(seq(|items|, i requires 0 <= i < |items| => CanonicalValue(items[i]))) + "]"
    case Obj(members) =>
      var keys := SortKeys(members.Keys);
      "{" + Join(seq(|keys|, i requires 0 <= i < |keys| =>
        PrintString(keys[i]) + ":" + CanonicalValue(members[keys[i]]))) + "}"
  }

  lemma {:induction false} CanonicalValueIsPrint(v: Value)
    ensures CanonicalValue(v) == Print(v)
  {
    hide Join, PrintItems, PrintMembers, PrintString, NumberText, SortKeys;
    match v
    case Arr(items) =>
      forall i | 0 <= i < |items| ensures CanonicalValue(items[i]) == Print(items[i]) {
        CanonicalValueIsPrint(items[i]);
      }
      JoinItems(items, seq(|items|, i requires 0 <= i < |items| => CanonicalValue(items[i])));
    case Obj(members) =>
      var keys := SortKeys(members.Keys);
      forall k | k in members ensures CanonicalValue(members[k]) == Print(members[k]) {
        CanonicalValueIsPrint(members[k]);
      }
      JoinMembers(v, keys, seq(|keys|, i requires 0 <= i < |keys| =>
        PrintString(keys[i]) + ":" + CanonicalValue(members[keys[i]])));
    case _ =>
  }

  lemma {:induction false} JoinItems(items: seq<Value>, parts: seq<string>)
    requires |parts| == |items| && forall i | 0 <= i < |items| :: parts[i] == Print(items[i])
    ensures Join(parts) == PrintItems(items)
  {
    if items != [] {
      JoinItems(items[1..], parts[1..]);
      if |items| == 1 {
        assert items[1..] == [];
        assert parts[0] + ("" + "") == parts[0];
      } else {
        Assoc(parts[0], ",", PrintItems(items[1..]));
      }
    }
  }

  lemma {:induction false} JoinMembers(v: Value, keys: seq<string>, parts: seq<string>)
    requires v.Obj? && |parts| == |keys| && forall k | k in keys :: k in v.members
    requires forall i | 0 <= i < |keys| :: parts[i] == PrintString(keys[i]) + ":" + Print(v.members[keys[i]])
    ensures Join(parts) == PrintMembers(v, keys)
  {
    if keys != [] {
      JoinMembers(v, keys[1..], parts[1..]);
      var name, child := PrintString(keys[0]), Print(v.members[keys[0]]);
      var more := (if |keys| == 1 then "" else ",") + PrintMembers(v, keys[1..]);
      if |keys| == 1 {
        assert keys[1..] == [] && more == "" + "" == "";
      } else {
        Assoc(parts[0], ",", PrintMembers(v, keys[1..]));
      }
      assert Join(parts) == parts[0] + more by { assert parts[0] + "" == parts[0]; }
      Assoc(name + ":", child, more);
      Assoc(name, ":", child + more);
    }
  }

  method CanonicalizeJson(source: string, round: Rounding) returns (r: Option<string>)
    ensures r == match Meaning(round, source) case None => None case Some(v) => Some(Print(v))
  {
    var value := StrictParse(source, round);
    if value.None? { return None; }
    CanonicalValueIsPrint(value.value);
    return Some(CanonicalValue(value.value));
  }
}
