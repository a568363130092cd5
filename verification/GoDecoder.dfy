/**
 decodeValue of canonical.go over encoding/json's token machine: a decoder that remembers which token
 may come next, and a recursive loop that fills slices and maps and rejects a repeated member name.
 */
module GoDecoder {
  import opened Wrappers
  import opened Number
  import opened Json
  import opened JsonGrammar
  import opened JsonMeaning

  // ---------- the token machine ----------

  datatype TokenState =
    | TopValue
    | ArrayStart | ArrayValue | ArrayComma
    | ObjectStart | ObjectKey | ObjectColon | ObjectValue | ObjectComma

  datatype Token = Delim(c: char) | Scalar(t: Tree)

  predicate ValueAllowed(st: TokenState) {
    st == TopValue || st == ArrayStart || st == ArrayValue || st == ObjectValue
  }

  function ValueEnd(st: TokenState): TokenState {
    match st
    case ArrayStart | ArrayValue => ArrayComma
    case ObjectValue => ObjectComma
    case _ => st
  }

  /** The state after a colon or comma that the state was waiting for. */
  function AfterSeparator(st: TokenState, c: char): Option<TokenState> {
    if st == ObjectColon && c == ':' then Some(ObjectValue)
    else if st == ArrayComma && c == ',' then Some(ArrayValue)
    else if st == ObjectComma && c == ',' then Some(ObjectKey)
    else None
  }

  /** Skips blanks, and one separator where the state waits for one. */
  function Separated(st: TokenState, s: string): (TokenState, string) {
    var s1 := SkipBlank(s);
    if s1 == "" then (st, s1)
    else match AfterSeparator(st, s1[0])
         case None => (st, s1)
         case Some(next) => (next, SkipBlank(s1[1..]))
  }

  type Machine = (TokenState, seq<TokenState>, string)

  /** One token at the start of `s`, in state `st` inside the states of `stack`. */
  function TokenStep(st: TokenState, stack: seq<TokenState>, s: string): Option<(Token, Machine)> {
    if s == "" then None
    else if s[0] == '[' || s[0] == '{' then
      if !ValueAllowed(st) then None
      else Some((Delim(s[0]), (if s[0] == '[' then ArrayStart else ObjectStart, stack + [st], s[1..])))
    else if s[0] == ']' || s[0] == '}' then
      if stack == [] || !CloseAllowed(st, s[0]) then None
      else Some((Delim(s[0]), (ValueEnd(stack[|stack| - 1]), stack[..|stack| - 1], s[1..])))
    else if s[0] == '"' && (st == ObjectStart || st == ObjectKey) then
      match ReadPieces(s[1..])
      case None => None
      case Some((ps, rest)) =>
        ReadPiecesExact(s[1..]);
        Some((Scalar(Str(StringOf(ps))), (ObjectColon, stack, rest)))
    else if !ValueAllowed(st) then None
    else match ReadScalarValue(s)
         case None => None
         case Some((c, rest)) =>
           ReadScalarValueExact(s);
           Some((Scalar(TreeOf(c)), (ValueEnd(st), stack, rest)))
  }

  predicate CloseAllowed(st: TokenState, c: char) {
    if c == ']' then st == ArrayStart || st == ArrayComma else st == ObjectStart || st == ObjectComma
  }

  class Decoder {
    const input: string
    var offset: nat
    var state: TokenState
    var stack: seq<TokenState>

    ghost predicate Valid()
      reads this
    {
      offset <= |input|
    }

    function Rest(): string
      requires offset <= |input|
      reads this
    {
      input[offset..]
    }

    constructor (input: string)
      ensures Valid() && Rest() == input && state == TopValue && stack == []
    {
      this.input := input;
      offset, state, stack := 0, TopValue, [];
    }

    method SkipSpace()
      requires Valid()
      modifies this`offset
      ensures Valid() && Rest() == SkipBlank(old(Rest()))
    {
      while offset < |input| && IsBlank(input[offset])
        invariant Valid()
        invariant SkipBlank(Rest()) == SkipBlank(old(Rest()))
      {
        assert Rest()[1..] == input[offset + 1..];
        offset := offset + 1;
      }
    }

    /** Whether another element follows in the current array or object. */
    method More() returns (more: bool)
      requires Valid()
      modifies this`offset
      ensures Valid() && Rest() == SkipBlank(old(Rest()))
      ensures more == (Rest() != "" && Rest()[0] != ']' && Rest()[0] != '}')
    {
      SkipSpace();
      more := offset < |input| && input[offset] != ']' && input[offset] != '}';
    }

    method SkipSeparator()
      requires Valid()
      modifies this`offset, this`state
      ensures Valid() && (state, Rest()) == Separated(old(state), old(Rest()))
    {
      SkipSpace();
      if offset < |input| {
        var next := AfterSeparator(state, input[offset]);
        if next.Some? {
          assert Rest()[1..] == input[offset + 1..];
          offset, state := offset + 1, next.value;
          SkipSpace();
        }
      }
    }

    method Token() returns (token: Option<Token>)
      requires Valid()
      modifies this
      ensures Valid()
      ensures var (st, s) := Separated(old(state), old(Rest()));
              match TokenStep(st, old(stack), s)
              case None => token.None?
              case Some((t, m)) => token == Some(t) && (state, stack, Rest()) == m
    {
      SkipSeparator();
      if offset == |input| { return None; }
      var c := input[offset];
      if c == '[' || c == '{' {
        token := Open(c);
      } else if c == ']' || c == '}' {
        token := Close(c);
      } else {
        token := ScalarToken();
      }
    }

    method Open(c: char) returns (token: Option<Token>)
      requires Valid() && Starts(Rest(), c) && (c == '[' || c == '{')
      modifies this
      ensures Valid()
      ensures match TokenStep(old(state), old(stack), old(Rest()))
              case None => token.None?
              case Some((t, m)) => token == Some(t) && (state, stack, Rest()) == m
    {
      if !ValueAllowed(state) { return None; }
      assert Rest()[1..] == input[offset + 1..];
      stack := stack + [state];
      state := if c == '[' then ArrayStart else ObjectStart;
      offset := offset + 1;
      return Some(Delim(c));
    }

    method Close(c: char) returns (token: Option<Token>)
      requires Valid() && Starts(Rest(), c) && (c == ']' || c == '}')
      modifies this
      ensures Valid()
      ensures match TokenStep(old(state), old(stack), old(Rest()))
              case None => token.None?
              case Some((t, m)) => token == Some(t) && (state, stack, Rest()) == m
    {
      if stack == [] || !CloseAllowed(state, c) { return None; }
      assert Rest()[1..] == input[offset + 1..];
      state := ValueEnd(stack[|stack| - 1]);
      stack := stack[..|stack| - 1];
      offset := offset + 1;
      return Some(Delim(c));
    }

    /** Decodes one string, number or literal; `ReadScalarValue` is encoding/json's scanner for these. */
    method ScalarToken() returns (token: Option<Token>)
      requires Valid() && Rest() != "" && Rest()[0] !in "[]{}"
      modifies this
      ensures Valid()
      ensures match TokenStep(old(state), old(stack), old(Rest()))
              case None => token.None?
              case Some((t, m)) => token == Some(t) && (state, stack, Rest()) == m
    {
      hide StringOf, TreeOf, Good, GoodPieces, ReadPieces, ReadScalarValue, LiteralText, EmitPieces, Emit;
      var s := input[offset..];
      var name := s[0] == '"' && (state == ObjectStart || state == ObjectKey);
      if !name && !ValueAllowed(state) { return None; }
      if s[0] == '"' { NameIsString(s); }
      var r := ReadScalarValue(s);
      if r.None? { return None; }
      ReadScalarValueExact(s);
      ReadScalarValueLeaves(s);
      offset := |input| - |r.value.1|;
      state := if name then ObjectColon else ValueEnd(state);
      return Some(Scalar(TreeOf(r.value.0)));
    }
  }

  lemma NameIsString(s: string)
    requires Starts(s, '"')
    ensures match ReadPieces(s[1..])
            case None => ReadScalarValue(s).None?
            case Some((ps, rest)) =>
              GoodPieces(ps) && ReadScalarValue(s) == Some((CStr(ps), rest)) && TreeOf(CStr(ps)) == Str(StringOf(ps))
  {
    if ReadPieces(s[1..]).Some? { ReadPiecesExact(s[1..]); }
  }

  // ---------- what decoding a value, the elements or the members yields ----------

  function ValueOutcome(s: string): Option<(Tree, string)> {
    match ReadValue(s)
    case None => None
    case Some((c, rest)) =>
      ReadValueExact(s);
      if Distinct(c) then Some((TreeOf(c), rest)) else None
  }

  function ItemsOutcome(r: Option<(CItems, string)>): Option<(seq<Tree>, string)>
    requires r.Some? ==> GoodItems(r.value.0)
  {
    if r.Some? && DistinctItems(r.value.0) then Some((ItemTrees(r.value.0), r.value.1)) else None
  }

  function MembersOutcome(r: Option<(CMembers, string)>): Option<(map<string, Tree>, string)>
    requires r.Some? ==> GoodMembers(r.value.0)
  {
    if r.Some? && DistinctMembers(r.value.0) then Some((MemberTrees(r.value.0), r.value.1)) else None
  }

  function Elements(s: string): Option<(seq<Tree>, string)> {
    if ReadItems(s).Some? then ReadItemsExact(s); ItemsOutcome(ReadItems(s)) else None
  }

  /** The elements still to come, standing after an element. */
  function MoreElements(s: string): Option<(seq<Tree>, string)> {
    if ReadItemClose(s).Some? then ReadItemCloseExact(s); ItemsOutcome(ReadItemClose(s)) else None
  }

  function Members(s: string): Option<(map<string, Tree>, string)> {
    if ReadMembers(s).Some? then ReadMembersExact(s); MembersOutcome(ReadMembers(s)) else None
  }

  function MoreMembers(s: string): Option<(map<string, Tree>, string)> {
    if ReadMemberClose(s).Some? then ReadMemberCloseExact(s); MembersOutcome(ReadMemberClose(s)) else None
  }

  /** What remains to be collected, at the top of the array loop. */
  function PendingElements(st: TokenState, s: string): Option<(seq<Tree>, string)> {
    var s1 := SkipBlank(s);
    if st == ArrayStart && !Starts(s1, ']') then Elements(s) else MoreElements(s1)
  }

  function PendingMembers(st: TokenState, s: string): Option<(map<string, Tree>, string)> {
    var s1 := SkipBlank(s);
    if st == ObjectStart && !Starts(s1, '}') then Members(s) else MoreMembers(s1)
  }

  function Prepend(head: seq<Tree>, r: Option<(seq<Tree>, string)>): Option<(seq<Tree>, string)> {
    match r case None => None case Some((tail, rest)) => Some((head + tail, rest))
  }

  /** Adds members to those already collected; a name collected before is an error. */
  function Merge(head: map<string, Tree>, r: Option<(map<string, Tree>, string)>): Option<(map<string, Tree>, string)> {
    match r
    case None => None
    case Some((tail, rest)) => if head.Keys !! tail.Keys then Some((head + tail, rest)) else None
  }

  lemma ElementsStep(s: string)
    ensures Elements(s) == match ValueOutcome(SkipBlank(s))
                           case None => None
                           case Some((t, s2)) => Prepend([t], MoreElements(SkipBlank(s2)))
  {
  }

  lemma ArrayOutcome(s: string)
    requires Starts(s, '[')
    ensures ValueOutcome(s) == match PendingElements(ArrayStart, s[1..])
                               case None => None
                               case Some((ts, rest)) => Some((Arr(ts), rest))
  {
  }

  lemma NoValueAt(s: string)
    requires s == "" || s[0] in ",:]}"
    ensures ReadValue(s) == None
  {
  }

  /** One turn of the array loop: an element is decoded, or nothing more can be collected. */
  lemma ElementTurn(st: TokenState, s: string)
    requires st == ArrayStart || st == ArrayComma
    requires SkipBlank(s) != "" && SkipBlank(s)[0] != ']' && SkipBlank(s)[0] != '}'
    ensures var (st1, s1) := Separated(st, s);
            PendingElements(st, s) ==
              if !ValueAllowed(st1) then None
              else match ValueOutcome(s1)
                   case None => None
                   case Some((t, s2)) => Prepend([t], PendingElements(ArrayComma, s2))
  {
    var s0 := SkipBlank(s);
    var (st1, s1) := Separated(st, s);
    if st == ArrayStart {
      ElementsStep(s);
    } else if s0[0] == ',' {
      ElementsStep(s0[1..]);
    }
  }

  lemma ElementsEnd(st: TokenState, s: string)
    requires st == ArrayStart || st == ArrayComma
    requires SkipBlank(s) == "" || SkipBlank(s)[0] == ']' || SkipBlank(s)[0] == '}'
    ensures PendingElements(st, s)
         == if Starts(SkipBlank(s), ']') then Some(([], SkipBlank(s)[1..])) else None
  {
    if st == ArrayStart && !Starts(SkipBlank(s), ']') {
      ElementsStep(s);
      NoValueAt(SkipBlank(s));
    }
  }

  function AddMember(key: string, t: Tree, r: Option<(map<string, Tree>, string)>)
    : Option<(map<string, Tree>, string)>
  {
    match r
    case None => None
    case Some((tail, rest)) => if key in tail then None else Some((tail[key := t], rest))
  }

  /** A member's name is next, in a state that waits for one. */
  predicate NameAllowed(st: TokenState) { st == ObjectStart || st == ObjectKey }

  /** From after a name: the colon, the value, and the members after it. */
  function MemberValue(key: string, s: string): Option<(map<string, Tree>, string)> {
    var (st1, s1) := Separated(ObjectColon, s);
    if !ValueAllowed(st1) then None
    else match ValueOutcome(s1)
         case None => None
         case Some((t, s2)) => AddMember(key, t, PendingMembers(ObjectComma, s2))
  }

  function MemberFrom(s: string): Option<(map<string, Tree>, string)> {
    if !Starts(s, '"') then None
    else match ReadPieces(s[1..])
         case None => None
         case Some((ps, s1)) =>
           ReadPiecesExact(s[1..]);
           MemberValue(StringOf(ps), s1)
  }

  lemma MembersStep(s: string)
    ensures Members(s) == MemberFrom(SkipBlank(s))
  {
  }

  lemma ObjectOutcome(s: string)
    requires Starts(s, '{')
    ensures ValueOutcome(s) == match PendingMembers(ObjectStart, s[1..])
                               case None => None
                               case Some((ms, rest)) => Some((Obj(ms), rest))
  {
  }

  /** One turn of the object loop. */
  lemma MemberTurn(st: TokenState, s: string)
    requires st == ObjectStart || st == ObjectComma
    requires SkipBlank(s) != "" && SkipBlank(s)[0] != ']' && SkipBlank(s)[0] != '}'
    ensures var (st1, s1) := Separated(st, s);
            PendingMembers(st, s) == if NameAllowed(st1) then MemberFrom(s1) else None
  {
    hide SkipBlank, MemberFrom, MemberValue, ReadPieces, DistinctMembers, MemberTrees;
    var s0 := SkipBlank(s);
    if st == ObjectStart {
      MembersStep(s);
    } else if s0[0] == ',' {
      MembersStep(s0[1..]);
    }
  }

  lemma MembersEnd(st: TokenState, s: string)
    requires st == ObjectStart || st == ObjectComma
    requires SkipBlank(s) == "" || SkipBlank(s)[0] == ']' || SkipBlank(s)[0] == '}'
    ensures PendingMembers(st, s)
         == if Starts(SkipBlank(s), '}') then Some((map[], SkipBlank(s)[1..])) else None
  {
    if st == ObjectStart && !Starts(SkipBlank(s), '}') {
      MembersStep(s);
    }
  }

  lemma MergeNone(r: Option<(map<string, Tree>, string)>)
    ensures Merge(map[], r) == r
  {
    if r.Some? {
      assert map[] + r.value.0 == r.value.0;
    }
  }

  lemma MergeAdd(head: map<string, Tree>, key: string, t: Tree, r: Option<(map<string, Tree>, string)>)
    ensures Merge(head, AddMember(key, t, r)) == if key in head then None else Merge(head[key := t], r)
  {
    if r.Some? && key !in head && key !in r.value.0 && head.Keys !! r.value.0.Keys {
      assert head + r.value.0[key := t] == head[key := t] + r.value.0;
    }
  }

  lemma MergeEnd(head: map<string, Tree>, rest: string)
    ensures Merge(head, Some((map[], rest))) == Some((head, rest)) && Merge(head, None) == None
  {
    assert head + map[] == head;
  }

  /** The closing token, where the loop ends: the right delimiter, or something else. */
  lemma CloseStep(st: TokenState, stack: seq<TokenState>, s: string, c: char)
    requires stack != [] && s == SkipBlank(s) && (s == "" || s[0] == ']' || s[0] == '}')
    requires (c == ']' && (st == ArrayStart || st == ArrayComma))
             || (c == '}' && (st == ObjectStart || st == ObjectComma))
    ensures Separated(st, s) == (st, s)
    ensures if Starts(s, c)
            then TokenStep(st, stack, s)
              == Some((Delim(c), (ValueEnd(stack[|stack| - 1]), stack[..|stack| - 1], s[1..])))
            else TokenStep(st, stack, s).None?
  {
  }

  lemma PendingElementsSkip(st: TokenState, s: string)
    ensures PendingElements(st, SkipBlank(s)) == PendingElements(st, s)
  {
    SkipBlankTwice(s);
    ElementsStep(s);
    ElementsStep(SkipBlank(s));
  }

  lemma PendingMembersSkip(st: TokenState, s: string)
    ensures PendingMembers(st, SkipBlank(s)) == PendingMembers(st, s)
  {
    SkipBlankTwice(s);
    MembersStep(s);
    MembersStep(SkipBlank(s));
  }

  // ---------- decodeValue ----------

  predicate ExpectsValue(st: TokenState) {
    st == TopValue || st == ArrayStart || st == ArrayComma || st == ObjectColon
  }

  lemma ValueStep(st: TokenState, stack: seq<TokenState>, s: string)
    requires ValueAllowed(st)
    ensures match TokenStep(st, stack, s)
            case None => ValueOutcome(s).None?
            case Some((Scalar(t), m)) => ValueOutcome(s) == Some((t, m.2)) && m.0 == ValueEnd(st) && m.1 == stack
            case Some((Delim(c), m)) =>
              && Starts(s, c) && m.2 == s[1..]
              && (c == '[' ==> m.0 == ArrayStart && m.1 == stack + [st])
              && (c == '{' ==> m.0 == ObjectStart && m.1 == stack + [st])
              && (c != '[' && c != '{' ==> ValueOutcome(s).None?)
  {
    if s != "" && (s[0] == ']' || s[0] == '}') {
      NoValueAt(s);
    }
  }

  method DecodeValue(decoder: Decoder) returns (value: Option<Tree>)
    requires decoder.Valid() && ExpectsValue(decoder.state)
    modifies decoder
    ensures decoder.Valid()
    ensures var (st, s) := Separated(old(decoder.state), old(decoder.Rest()));
            if ValueAllowed(st) && ValueOutcome(s).Some? then
              && value == Some(ValueOutcome(s).value.0)
              && decoder.Rest() == ValueOutcome(s).value.1
              && decoder.state == ValueEnd(st)
              && decoder.stack == old(decoder.stack)
            else value.None?
    decreases |decoder.input| - decoder.offset, 0
  {
    ghost var (st, s) := Separated(decoder.state, decoder.Rest());
    var token := decoder.Token();
    if ValueAllowed(st) {
      ValueStep(st, old(decoder.stack), s);
    }
    if token.None? {
      return None;
    }
    match token.value
    case Scalar(t) => return Some(t);
    case Delim(c) =>
      if c == '{' {
        ObjectOutcome(s);
        value := DecodeMembers(decoder);
      } else if c == '[' {
        ArrayOutcome(s);
        value := DecodeElements(decoder);
      } else {
        return None;
      }
  }

  method DecodeElements(decoder: Decoder) returns (value: Option<Tree>)
    requires decoder.Valid() && decoder.state == ArrayStart && decoder.stack != []
    modifies decoder
    ensures decoder.Valid()
    ensures match PendingElements(ArrayStart, old(decoder.Rest()))
            case None => value.None?
            case Some((ts, rest)) =>
              && value == Some(Arr(ts)) && decoder.Rest() == rest
              && decoder.state == ValueEnd(old(decoder.stack)[|old(decoder.stack)| - 1])
              && decoder.stack == old(decoder.stack)[..|old(decoder.stack)| - 1]
    decreases |decoder.input| - decoder.offset, 2
  {
    hide PendingElements, SkipBlank, TokenStep, Separated;
    var result: seq<Tree> := [];
    ghost var all := PendingElements(ArrayStart, decoder.Rest());
    PrependNone(all);
    PendingElementsSkip(ArrayStart, decoder.Rest());
    SkipBlankTwice(decoder.Rest());
    var more := decoder.More();
    while more
      invariant decoder.Valid() && decoder.stack == old(decoder.stack)
      invariant decoder.state == ArrayStart || decoder.state == ArrayComma
      invariant all == Prepend(result, PendingElements(decoder.state, decoder.Rest()))
      invariant decoder.Rest() == SkipBlank(decoder.Rest())
      invariant more == (decoder.Rest() != "" && decoder.Rest()[0] != ']' && decoder.Rest()[0] != '}')
      invariant decoder.offset >= old(decoder.offset)
      decreases |decoder.input| - decoder.offset
    {
      var child := DecodeElement(decoder, result);
      if child.None? {
        return None;
      }
      result := result + [child.value];
      PendingElementsSkip(ArrayComma, decoder.Rest());
      SkipBlankTwice(decoder.Rest());
      more := decoder.More();
    }
    ElementsEnd(decoder.state, decoder.Rest());
    CloseStep(decoder.state, decoder.stack, decoder.Rest(), ']');
    assert result + [] == result;
    var closing := decoder.Token();
    if closing != Some(Delim(']')) {
      return None;
    }
    return Some(Arr(result));
  }

  /** One turn of the array loop. */
  method DecodeElement(decoder: Decoder, ghost result: seq<Tree>) returns (child: Option<Tree>)
    requires decoder.Valid() && (decoder.state == ArrayStart || decoder.state == ArrayComma)
    requires SkipBlank(decoder.Rest()) != "" && SkipBlank(decoder.Rest())[0] !in "]}"
    modifies decoder
    ensures decoder.Valid()
    ensures var was := Prepend(result, PendingElements(old(decoder.state), old(decoder.Rest())));
            match child
            case None => was.None?
            case Some(t) =>
              && was == Prepend(result + [t], PendingElements(ArrayComma, decoder.Rest()))
              && decoder.state == ArrayComma && decoder.stack == old(decoder.stack)
              && decoder.offset > old(decoder.offset)
    decreases |decoder.input| - decoder.offset, 1
  {
    ElementTurn(decoder.state, decoder.Rest());
    child := DecodeValue(decoder);
    if child.Some? {
      PrependTwice(result, child.value, PendingElements(ArrayComma, decoder.Rest()));
    }
  }

  lemma PrependNone(r: Option<(seq<Tree>, string)>)
    ensures Prepend([], r) == r
  {
    if r.Some? {
      assert [] + r.value.0 == r.value.0;
    }
  }

  lemma PrependTwice(head: seq<Tree>, t: Tree, r: Option<(seq<Tree>, string)>)
    ensures Prepend(head, Prepend([t], r)) == Prepend(head + [t], r)
  {
    if r.Some? {
      assert head + ([t] + r.value.0) == head + [t] + r.value.0;
    }
  }

  method DecodeMembers(decoder: Decoder) returns (value: Option<Tree>)
    requires decoder.Valid() && decoder.state == ObjectStart && decoder.stack != []
    modifies decoder
    ensures decoder.Valid()
    ensures match PendingMembers(ObjectStart, old(decoder.Rest()))
            case None => value.None?
            case Some((ms, rest)) =>
              && value == Some(Obj(ms)) && decoder.Rest() == rest
              && decoder.state == ValueEnd(old(decoder.stack)[|old(decoder.stack)| - 1])
              && decoder.stack == old(decoder.stack)[..|old(decoder.stack)| - 1]
    decreases |decoder.input| - decoder.offset, 2
  {
    hide PendingMembers, Merge, SkipBlank, TokenStep, Separated;
    var result: map<string, Tree> := map[];
    ghost var all := PendingMembers(ObjectStart, decoder.Rest());
    MergeNone(PendingMembers(ObjectStart, decoder.Rest()));
    PendingMembersSkip(ObjectStart, decoder.Rest());
    SkipBlankTwice(decoder.Rest());
    var more := decoder.More();
    while more
      invariant decoder.Valid() && decoder.stack == old(decoder.stack)
      invariant decoder.state == ObjectStart || decoder.state == ObjectComma
      invariant all == Merge(result, PendingMembers(decoder.state, decoder.Rest()))
      invariant decoder.Rest() == SkipBlank(decoder.Rest())
      invariant more == (decoder.Rest() != "" && decoder.Rest()[0] != ']' && decoder.Rest()[0] != '}')
      invariant decoder.offset >= old(decoder.offset)
      decreases |decoder.input| - decoder.offset
    {
      var member := DecodeMember(decoder, result);
      if member.None? {
        return None;
      }
      result := result[member.value.0 := member.value.1];
      PendingMembersSkip(ObjectComma, decoder.Rest());
      SkipBlankTwice(decoder.Rest());
      more := decoder.More();
    }
    MembersEnd(decoder.state, decoder.Rest());
    CloseStep(decoder.state, decoder.stack, decoder.Rest(), '}');
    MergeEnd(result, if Starts(decoder.Rest(), '}') then decoder.Rest()[1..] else "");
    var closing := decoder.Token();
    if closing != Some(Delim('}')) {
      return None;
    }
    return Some(Obj(result));
  }

  /** One turn of the object loop: a name that is new, its colon and its value. */
  method DecodeMember(decoder: Decoder, result: map<string, Tree>) returns (member: Option<(string, Tree)>)
    requires decoder.Valid() && (decoder.state == ObjectStart || decoder.state == ObjectComma)
    requires SkipBlank(decoder.Rest()) != "" && SkipBlank(decoder.Rest())[0] !in "]}"
    modifies decoder
    ensures decoder.Valid()
    ensures var was := Merge(result, PendingMembers(old(decoder.state), old(decoder.Rest())));
            match member
            case None => was.None?
            case Some((key, t)) =>
              && was == Merge(result[key := t], PendingMembers(ObjectComma, decoder.Rest()))
              && decoder.state == ObjectComma && decoder.stack == old(decoder.stack)
              && decoder.offset > old(decoder.offset)
    decreases |decoder.input| - decoder.offset, 1
  {
    hide PendingMembers, SkipBlank, MemberFrom, AddMember, Merge;
    MemberTurn(decoder.state, decoder.Rest());
    MergeEnd(result, "");
    var key := DecodeName(decoder);
    if key.None? {
      return None;
    }
    ghost var s := decoder.Rest();
    if key.value in result {
      DuplicateName(result, key.value, s);
      return None;
    }
    var child := DecodeValue(decoder);
    if child.None? {
      return None;
    }
    MergeAdd(result, key.value, child.value, PendingMembers(ObjectComma, decoder.Rest()));
    return Some((key.value, child.value));
  }

  lemma DuplicateName(head: map<string, Tree>, key: string, s: string)
    requires key in head
    ensures Merge(head, MemberValue(key, s)).None?
  {
    var (st1, s1) := Separated(ObjectColon, s);
    if ValueAllowed(st1) && ValueOutcome(s1).Some? {
      var (t, s2) := ValueOutcome(s1).value;
      MergeAdd(head, key, t, PendingMembers(ObjectComma, s2));
    }
  }

  lemma NameStep(st: TokenState, stack: seq<TokenState>, s: string)
    requires st == ObjectStart || st == ObjectKey || st == ObjectComma
    requires st != ObjectKey ==> s != "" && s[0] !in "]}"
    ensures match TokenStep(st, stack, s)
            case None => NameAllowed(st) ==> MemberFrom(s).None?
            case Some((token, m)) =>
              && token.Scalar? && token.t.Str? && m.0 == ObjectColon && m.1 == stack && |m.2| < |s|
              && NameAllowed(st) && MemberFrom(s) == MemberValue(token.t.s, m.2)
  {
  }

  method DecodeName(decoder: Decoder) returns (key: Option<string>)
    requires decoder.Valid() && (decoder.state == ObjectStart || decoder.state == ObjectComma)
    requires SkipBlank(decoder.Rest()) != "" && SkipBlank(decoder.Rest())[0] !in "]}"
    modifies decoder
    ensures decoder.Valid()
    ensures var (st, s) := Separated(old(decoder.state), old(decoder.Rest()));
            var from := if NameAllowed(st) then MemberFrom(s) else None;
            if key.None? then from.None?
            else && from == MemberValue(key.value, decoder.Rest())
                 && decoder.state == ObjectColon && decoder.stack == old(decoder.stack)
                 && decoder.offset > old(decoder.offset)
  {
    ghost var (st, s) := Separated(decoder.state, decoder.Rest());
    NameStep(st, decoder.stack, s);
    var keyToken := decoder.Token();
    if keyToken.None? || !keyToken.value.Scalar? || !keyToken.value.t.Str? {
      return None;
    }
    return Some(keyToken.value.t.s);
  }
}
