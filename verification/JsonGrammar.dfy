/**
 The JSON grammar of RFC 8259 as concrete syntax trees: a tree keeps every blank, escape and number
 spelling, `Emit` writes it out in front of a remaining text, and `ReadValue` is its exact inverse.
 */
module JsonGrammar {
  import opened Wrappers
  import opened Unicode
  import opened Number
  import opened Json

  datatype Piece = Raw(c: char) | Short(e: char) | Hex(digits: string)
  datatype Cst =
    | CNull
    | CTrue
    | CFalse
    | CNum(literal: Literal)
    | CStr(pieces: seq<Piece>)
    | CArr(blank: string, items: CItems)
    | CObj(blank: string, members: CMembers)
  datatype CItems = NoItems | Item(before: string, value: Cst, after: string, more: CItems)
  datatype CMembers =
    | NoMembers
    | Member(before: string, name: seq<Piece>, between: string, gap: string, value: Cst, after: string, more: CMembers)

  // ---------- well-formed trees ----------

  predicate IsBlank(c: char) { c == ' ' || c == '\t' || c == '\n' || c == '\r' }
  predicate Blanks(s: string) { forall i | 0 <= i < |s| :: IsBlank(s[i]) }
  predicate IsHex(c: char) { '0' <= c <= '9' || 'a' <= c <= 'f' || 'A' <= c <= 'F' }

  predicate GoodPiece(p: Piece) {
    match p
    case Raw(c) => c != '"' && c != '\\' && c as int >= 0x20
    case Short(e) => e in "\"\\/bfnrt"
    case Hex(digits) => |digits| == 4 && forall i | 0 <= i < 4 :: IsHex(digits[i])
  }

  predicate GoodPieces(ps: seq<Piece>) { forall i | 0 <= i < |ps| :: GoodPiece(ps[i]) }

  predicate Good(c: Cst) {
    match c
    case CNum(l) => WellFormed(l)
    case CStr(ps) => GoodPieces(ps)
    case CArr(blank, items) => Blanks(blank) && (items.Item? ==> blank == "") && GoodItems(items)
    case CObj(blank, members) => Blanks(blank) && (members.Member? ==> blank == "") && GoodMembers(members)
    case _ => true
  }

  predicate GoodItems(items: CItems) {
    items.Item? ==> Blanks(items.before) && Good(items.value) && Blanks(items.after) && GoodItems(items.more)
  }

  predicate GoodMembers(ms: CMembers) {
    ms.Member? ==>
      && Blanks(ms.before) && GoodPieces(ms.name) && Blanks(ms.between) && Blanks(ms.gap)
      && Good(ms.value) && Blanks(ms.after) && GoodMembers(ms.more)
  }

  // ---------- writing ----------

  function PieceText(p: Piece): string {
    match p case Raw(c) => [c] case Short(e) => ['\\', e] case Hex(digits) => "\\u" + digits
  }

  function EmitPieces(ps: seq<Piece>, rest: string): string {
    if ps == [] then "\"" + rest else PieceText(ps[0]) + EmitPieces(ps[1..], rest)
  }

  /** The text of a value, followed by `rest`. */
  function Emit(c: Cst, rest: string): string
    decreases c, 3
  {
    match c
    case CNull => "null" + rest
    case CTrue => "true" + rest
    case CFalse => "false" + rest
    case CNum(l) => LiteralText(l) + rest
    case CStr(ps) => "\"" + EmitPieces(ps, rest)
    case CArr(blank, items) => "[" + (if items.NoItems? then blank + ("]" + rest) else EmitItems(items, rest))
    case CObj(blank, ms) => "{" + (if ms.NoMembers? then blank + ("}" + rest) else EmitMembers(ms, rest))
  }

  function EmitItems(items: CItems, rest: string): string
    requires items.Item?
    decreases items, 2
  {
    items.before + Emit(items.value, ItemTail(items, rest))
  }

  function ItemTail(items: CItems, rest: string): string
    requires items.Item?
    decreases items, 1
  {
    items.after + ItemClose(items.more, rest)
  }

  function ItemClose(more: CItems, rest: string): string
    decreases more, 3
  {
    if more.NoItems? then "]" + rest else "," + EmitItems(more, rest)
  }

  function EmitMembers(ms: CMembers, rest: string): string
    requires ms.Member?
    decreases ms, 2
  {
    ms.before + ("\"" + EmitPieces(ms.name, EmitAfterName(ms, rest)))
  }

  function EmitAfterName(ms: CMembers, rest: string): string
    requires ms.Member?
    decreases ms, 1
  {
    ms.between + (":" + (ms.gap + Emit(ms.value, MemberTail(ms, rest))))
  }

  function MemberTail(ms: CMembers, rest: string): string
    requires ms.Member?
    decreases ms, 0
  {
    ms.after + MemberClose(ms.more, rest)
  }

  function MemberClose(more: CMembers, rest: string): string
    decreases more, 3
  {
    if more.NoMembers? then "}" + rest else "," + EmitMembers(more, rest)
  }

  // ---------- reading ----------

  function TakeBlank(s: string): (r: (string, string))
    ensures |r.1| <= |s|
  {
    if s == "" || !IsBlank(s[0]) then ("", s)
    else var (blank, rest) := TakeBlank(s[1..]); ([s[0]] + blank, rest)
  }

  function SkipBlank(s: string): (r: string)
    ensures |r| <= |s|
  {
    TakeBlank(s).1
  }

  predicate Starts(s: string, c: char) { s != "" && s[0] == c }

  function ReadPiece(s: string): (r: Option<(Piece, string)>)
    ensures r.Some? ==> |r.value.1| < |s|
  {
    if s == "" || s[0] == '"' || s[0] as int < 0x20 then None
    else if s[0] != '\\' then Some((Raw(s[0]), s[1..]))
    else if |s| >= 6 && s[1] == 'u' && (forall i | 2 <= i < 6 :: IsHex(s[i])) then Some((Hex(s[2..6]), s[6..]))
    else if |s| >= 2 && s[1] in "\"\\/bfnrt" then Some((Short(s[1]), s[2..]))
    else None
  }

  /** Reads a string literal after its opening quote. */
  function ReadPieces(s: string): (r: Option<(seq<Piece>, string)>)
    ensures r.Some? ==> |r.value.1| < |s|
    decreases |s|
  {
    if Starts(s, '"') then Some(([], s[1..]))
    else match ReadPiece(s)
         case None => None
         case Some((p, s1)) =>
           match ReadPieces(s1)
           case None => None
           case Some((ps, rest)) => Some(([p] + ps, rest))
  }

  function ReadValue(s: string): (r: Option<(Cst, string)>)
    ensures r.Some? ==> |r.value.1| < |s|
    decreases |s|, 0
  {
    if s == "" then None
    else if s[0] == '[' then
      var (blank, s1) := TakeBlank(s[1..]);
      if Starts(s1, ']') then Some((CArr(blank, NoItems), s1[1..]))
      else match ReadItems(s[1..])
           case None => None
           case Some((items, rest)) => Some((CArr("", items), rest))
    else if s[0] == '{' then
      var (blank, s1) := TakeBlank(s[1..]);
      if Starts(s1, '}') then Some((CObj(blank, NoMembers), s1[1..]))
      else match ReadMembers(s[1..])
           case None => None
           case Some((members, rest)) => Some((CObj("", members), rest))
    else ReadScalarValue(s)
  }

  function ReadScalarValue(s: string): (r: Option<(Cst, string)>)
    requires s != ""
    ensures r.Some? ==> |r.value.1| < |s|
  {
    if s[0] == '"' then
      match ReadPieces(s[1..])
      case None => None
      case Some((ps, rest)) => Some((CStr(ps), rest))
    else if "true" <= s then Some((CTrue, s[4..]))
    else if "false" <= s then Some((CFalse, s[5..]))
    else if "null" <= s then Some((CNull, s[4..]))
    else match ReadLiteral(s)
         case None => None
         case Some((l, rest)) =>
           ReadLiteralExact(s);
           Some((CNum(l), rest))
  }

  function ReadItems(s: string): (r: Option<(CItems, string)>)
    ensures r.Some? ==> r.value.0.Item? && |r.value.1| < |s|
    decreases |s|, 2
  {
    var (before, s1) := TakeBlank(s);
    match ReadValue(s1)
    case None => None
    case Some((value, s2)) =>
      var (after, s3) := TakeBlank(s2);
      match ReadItemClose(s3)
      case None => None
      case Some((more, rest)) => Some((Item(before, value, after, more), rest))
  }

  function ReadItemClose(s: string): (r: Option<(CItems, string)>)
    ensures r.Some? ==> |r.value.1| < |s|
    decreases |s|, 1
  {
    if Starts(s, ']') then Some((NoItems, s[1..]))
    else if Starts(s, ',') then ReadItems(s[1..])
    else None
  }

  /** A member's name, the blanks around the colon, and what follows. */
  function ReadName(s: string): (r: Option<(seq<Piece>, string, string, string)>)
    ensures r.Some? ==> |r.value.3| < |s|
  {
    if !Starts(s, '"') then None
    else match ReadPieces(s[1..])
         case None => None
         case Some((name, s1)) =>
           var (between, s2) := TakeBlank(s1);
           if !Starts(s2, ':') then None
           else var (gap, s3) := TakeBlank(s2[1..]); Some((name, between, gap, s3))
  }

  function ReadMembers(s: string): (r: Option<(CMembers, string)>)
    ensures r.Some? ==> r.value.0.Member? && |r.value.1| < |s|
    decreases |s|, 2
  {
    var (before, s1) := TakeBlank(s);
    match ReadName(s1)
    case None => None
    case Some((name, between, gap, s2)) =>
      match ReadValue(s2)
      case None => None
      case Some((value, s3)) =>
        var (after, s4) := TakeBlank(s3);
        match ReadMemberClose(s4)
        case None => None
        case Some((more, rest)) => Some((Member(before, name, between, gap, value, after, more), rest))
  }

  function ReadMemberClose(s: string): (r: Option<(CMembers, string)>)
    ensures r.Some? ==> |r.value.1| < |s|
    decreases |s|, 1
  {
    if Starts(s, '}') then Some((NoMembers, s[1..]))
    else if Starts(s, ',') then ReadMembers(s[1..])
    else None
  }

  // ---------- reading inverts writing ----------

  lemma {:induction false} TakeBlankOf(blank: string, rest: string)
    requires Blanks(blank) && (rest == "" || !IsBlank(rest[0]))
    ensures TakeBlank(blank + rest) == (blank, rest)
  {
    if blank == "" {
      assert "" + rest == rest;
    } else {
      TakeBlankOf(blank[1..], rest);
      assert (blank + rest)[1..] == blank[1..] + rest;
      assert [blank[0]] + blank[1..] == blank;
    }
  }

  lemma ReadPieceOf(p: Piece, rest: string)
    requires GoodPiece(p)
    ensures ReadPiece(PieceText(p) + rest) == Some((p, rest))
    ensures !Starts(PieceText(p) + rest, '"')
  {
    var s := PieceText(p) + rest;
    DropHead(PieceText(p), rest);
    if p.Hex? {
      assert s[2..6] == p.digits;
      assert forall i | 2 <= i < 6 :: s[i] == p.digits[i - 2];
    }
  }

  lemma {:induction false} ReadPiecesOf(ps: seq<Piece>, rest: string)
    requires GoodPieces(ps)
    ensures ReadPieces(EmitPieces(ps, rest)) == Some((ps, rest))
  {
    if ps == [] {
      DropHead("\"", rest);
    } else {
      ReadPieceOf(ps[0], EmitPieces(ps[1..], rest));
      ReadPiecesOf(ps[1..], rest);
      assert [ps[0]] + ps[1..] == ps;
    }
  }

  lemma LiteralTextStarts(l: Literal, rest: string)
    requires WellFormed(l)
    ensures var s := LiteralText(l) + rest; s != "" && (s[0] == '-' || IsDigit(s[0]))
  {
  }

  /** A value's text starts with none of the separators and with no blank. */
  lemma EmitStarts(c: Cst, rest: string)
    requires Good(c)
    ensures var s := Emit(c, rest); s != "" && !IsBlank(s[0]) && s[0] != ']' && s[0] != '}' && s[0] != ','
  {
    if c.CNum? {
      LiteralTextStarts(c.literal, rest);
    }
  }

  lemma {:induction false} ReadValueOf(c: Cst, rest: string)
    requires Good(c) && (c.CNum? ==> NumberEnds(rest))
    ensures ReadValue(Emit(c, rest)) == Some((c, rest))
    decreases c, 4
  {
    hide LiteralText, ReadLiteral;
    match c
    case CNum(l) =>
      LiteralTextStarts(l, rest);
      ReadLiteralOf(l, rest);
    case CStr(ps) =>
      DropHead("\"", EmitPieces(ps, rest));
      ReadPiecesOf(ps, rest);
    case CArr(_, _) => ReadArrayOf(c, rest);
    case CObj(_, _) => ReadObjectOf(c, rest);
    case CNull => DropHead("null", rest);
    case CTrue => DropHead("true", rest);
    case CFalse => DropHead("false", rest);
  }

  lemma {:induction false} ReadArrayOf(c: Cst, rest: string)
    requires c.CArr? && Good(c)
    ensures ReadValue(Emit(c, rest)) == Some((c, rest))
    decreases c, 3
  {
    var items := c.items;
    if items.NoItems? {
      DropHead("[", c.blank + ("]" + rest));
      TakeBlankOf(c.blank, "]" + rest);
      DropHead("]", rest);
    } else {
      DropHead("[", EmitItems(items, rest));
      EmitStarts(items.value, ItemTail(items, rest));
      TakeBlankOf(items.before, Emit(items.value, ItemTail(items, rest)));
      ReadItemsOf(items, rest);
    }
  }

  lemma {:induction false} ReadObjectOf(c: Cst, rest: string)
    requires c.CObj? && Good(c)
    ensures ReadValue(Emit(c, rest)) == Some((c, rest))
    decreases c, 3
  {
    var ms := c.members;
    if ms.NoMembers? {
      DropHead("{", c.blank + ("}" + rest));
      TakeBlankOf(c.blank, "}" + rest);
      DropHead("}", rest);
    } else {
      DropHead("{", EmitMembers(ms, rest));
      TakeBlankOf(ms.before, "\"" + EmitPieces(ms.name, EmitAfterName(ms, rest)));
      ReadMembersOf(ms, rest);
    }
  }

  lemma {:induction false} ReadItemsOf(items: CItems, rest: string)
    requires items.Item? && GoodItems(items)
    ensures ReadItems(EmitItems(items, rest)) == Some((items, rest))
    decreases items, 2
  {
    var close := ItemClose(items.more, rest);
    EmitStarts(items.value, ItemTail(items, rest));
    TakeBlankOf(items.before, Emit(items.value, ItemTail(items, rest)));
    TailEndsNumber(items.after, close);
    ReadValueOf(items.value, ItemTail(items, rest));
    TakeBlankOf(items.after, close);
    ReadItemCloseOf(items.more, rest);
  }

  lemma {:induction false} ReadItemCloseOf(more: CItems, rest: string)
    requires GoodItems(more)
    ensures ReadItemClose(ItemClose(more, rest)) == Some((more, rest))
    decreases more, 3
  {
    if more.Item? {
      DropHead(",", EmitItems(more, rest));
      ReadItemsOf(more, rest);
    } else {
      DropHead("]", rest);
    }
  }

  lemma TailEndsNumber(blank: string, close: string)
    requires Blanks(blank) && close != "" && close[0] in ",]}"
    ensures NumberEnds(blank + close)
  {
    assert blank != "" ==> IsBlank((blank + close)[0]);
  }

  lemma ReadNameOf(ms: CMembers, rest: string)
    requires ms.Member? && GoodMembers(ms)
    ensures ReadName("\"" + EmitPieces(ms.name, EmitAfterName(ms, rest)))
         == Some((ms.name, ms.between, ms.gap, Emit(ms.value, MemberTail(ms, rest))))
  {
    var value := Emit(ms.value, MemberTail(ms, rest));
    var colon := ":" + (ms.gap + value);
    assert EmitAfterName(ms, rest) == ms.between + colon;
    DropHead("\"", EmitPieces(ms.name, ms.between + colon));
    ReadPiecesOf(ms.name, ms.between + colon);
    TakeBlankOf(ms.between, colon);
    DropHead(":", ms.gap + value);
    EmitStarts(ms.value, MemberTail(ms, rest));
    TakeBlankOf(ms.gap, value);
  }

  lemma {:induction false} ReadMembersOf(ms: CMembers, rest: string)
    requires ms.Member? && GoodMembers(ms)
    ensures ReadMembers(EmitMembers(ms, rest)) == Some((ms, rest))
    decreases ms, 2
  {
    var close := MemberClose(ms.more, rest);
    TakeBlankOf(ms.before, "\"" + EmitPieces(ms.name, EmitAfterName(ms, rest)));
    ReadNameOf(ms, rest);
    TailEndsNumber(ms.after, close);
    ReadValueOf(ms.value, MemberTail(ms, rest));
    TakeBlankOf(ms.after, close);
    ReadMemberCloseOf(ms.more, rest);
  }

  lemma {:induction false} ReadMemberCloseOf(more: CMembers, rest: string)
    requires GoodMembers(more)
    ensures ReadMemberClose(MemberClose(more, rest)) == Some((more, rest))
    decreases more, 3
  {
    if more.Member? {
      DropHead(",", EmitMembers(more, rest));
      ReadMembersOf(more, rest);
    } else {
      DropHead("}", rest);
    }
  }

  // ---------- what was read is what was written ----------

  lemma {:induction false} TakeBlankExact(s: string)
    ensures var (blank, rest) := TakeBlank(s);
            Blanks(blank) && blank + rest == s && (rest == "" || !IsBlank(rest[0]))
  {
    if s != "" && IsBlank(s[0]) {
      TakeBlankExact(s[1..]);
      var (blank, rest) := TakeBlank(s[1..]);
      assert [s[0]] + blank + rest == [s[0]] + (blank + rest);
    }
  }

  lemma {:induction false} SkipBlankTwice(s: string)
    ensures SkipBlank(SkipBlank(s)) == SkipBlank(s)
  {
    if s != "" && IsBlank(s[0]) {
      SkipBlankTwice(s[1..]);
    }
  }

  lemma ReadPieceExact(s: string)
    requires ReadPiece(s).Some?
    ensures var (p, rest) := ReadPiece(s).value; GoodPiece(p) && PieceText(p) + rest == s
  {
    var (p, rest) := ReadPiece(s).value;
    if p.Hex? {
      assert s == s[..2] + s[2..6] + s[6..];
      assert forall i | 0 <= i < 4 :: p.digits[i] == s[i + 2];
    }
  }

  lemma {:induction false} ReadPiecesExact(s: string)
    requires ReadPieces(s).Some?
    ensures var (ps, rest) := ReadPieces(s).value; GoodPieces(ps) && EmitPieces(ps, rest) == s
    decreases |s|
  {
    if !Starts(s, '"') {
      ReadPieceExact(s);
      var (p, s1) := ReadPiece(s).value;
      ReadPiecesExact(s1);
      var (ps, _) := ReadPieces(s1).value;
      assert ([p] + ps)[1..] == ps;
    }
  }

  lemma ReadScalarValueExact(s: string)
    requires s != "" && ReadScalarValue(s).Some?
    ensures var (c, rest) := ReadScalarValue(s).value; Good(c) && Emit(c, rest) == s
  {
    if s[0] == '"' {
      ReadPiecesExact(s[1..]);
      assert s == "\"" + s[1..];
    } else if !("true" <= s) && !("false" <= s) && !("null" <= s) {
      ReadLiteralExact(s);
    }
  }

  lemma {:induction false} EmitPiecesAppend(ps: seq<Piece>, rest: string)
    ensures EmitPieces(ps, rest) == EmitPieces(ps, "") + rest
  {
    if ps == [] {
      assert "\"" + "" + rest == "\"" + rest;
    } else {
      EmitPiecesAppend(ps[1..], rest);
      Assoc(PieceText(ps[0]), EmitPieces(ps[1..], ""), rest);
    }
  }

  /** What is left after a string, number or word is the end of the text. */
  lemma ReadScalarValueLeaves(s: string)
    requires s != "" && ReadScalarValue(s).Some?
    ensures var rest := ReadScalarValue(s).value.1; rest == s[|s| - |rest|..]
  {
    var (c, rest) := ReadScalarValue(s).value;
    ReadScalarValueExact(s);
    if s[0] == '"' {
      EmitPiecesAppend(c.pieces, rest);
      Assoc("\"", EmitPieces(c.pieces, ""), rest);
    }
    assert exists head :: s == head + rest by {
      if s[0] == '"' {
        assert s == ("\"" + EmitPieces(c.pieces, "")) + rest;
      } else if c.CNum? {
        assert s == LiteralText(c.literal) + rest;
      } else {
        var word := if c.CNull? then "null" else if c.CTrue? then "true" else "false";
        assert s == word + rest;
      }
    }
    var head :| s == head + rest;
    DropHead(head, rest);
  }

  lemma {:induction false} ReadValueExact(s: string)
    requires ReadValue(s).Some?
    ensures var (c, rest) := ReadValue(s).value; Good(c) && Emit(c, rest) == s
    decreases |s|, 1
  {
    hide Good, Emit;
    if s[0] == '[' {
      ReadArrayExact(s);
    } else if s[0] == '{' {
      ReadObjectExact(s);
    } else {
      ReadScalarValueExact(s);
    }
  }

  lemma {:induction false} ReadArrayExact(s: string)
    requires ReadValue(s).Some? && s[0] == '['
    ensures var (c, rest) := ReadValue(s).value; Good(c) && Emit(c, rest) == s
    decreases |s|, 0
  {
    hide EmitItems, EmitMembers, ReadItems, ReadMembers, ReadScalarValue, TakeBlank;
    TakeBlankExact(s[1..]);
    var (blank, s1) := TakeBlank(s[1..]);
    assert s == "[" + s[1..];
    if Starts(s1, ']') {
      assert s1 == "]" + s1[1..];
    } else {
      ReadItemsExact(s[1..]);
    }
  }

  lemma {:induction false} ReadObjectExact(s: string)
    requires ReadValue(s).Some? && s[0] == '{'
    ensures var (c, rest) := ReadValue(s).value; Good(c) && Emit(c, rest) == s
    decreases |s|, 0
  {
    hide EmitItems, EmitMembers, ReadItems, ReadMembers, ReadScalarValue, TakeBlank;
    TakeBlankExact(s[1..]);
    var (blank, s1) := TakeBlank(s[1..]);
    assert s == "{" + s[1..];
    if Starts(s1, '}') {
      assert s1 == "}" + s1[1..];
    } else {
      ReadMembersExact(s[1..]);
    }
  }

  lemma {:induction false} ReadItemsExact(s: string)
    requires ReadItems(s).Some?
    ensures var (items, rest) := ReadItems(s).value; GoodItems(items) && EmitItems(items, rest) == s
    decreases |s|, 2
  {
    TakeBlankExact(s);
    var (before, s1) := TakeBlank(s);
    ReadValueExact(s1);
    var (value, s2) := ReadValue(s1).value;
    TakeBlankExact(s2);
    var (after, s3) := TakeBlank(s2);
    ReadItemCloseExact(s3);
  }

  lemma {:induction false} ReadItemCloseExact(s: string)
    requires ReadItemClose(s).Some?
    ensures var (more, rest) := ReadItemClose(s).value; GoodItems(more) && ItemClose(more, rest) == s
    decreases |s|, 1
  {
    assert s == s[..1] + s[1..];
    if !Starts(s, ']') {
      ReadItemsExact(s[1..]);
    }
  }

  lemma ReadNameExact(s: string)
    requires ReadName(s).Some?
    ensures var (name, between, gap, rest) := ReadName(s).value;
            && GoodPieces(name) && Blanks(between) && Blanks(gap)
            && "\"" + EmitPieces(name, between + (":" + (gap + rest))) == s
  {
    hide GoodPiece;
    assert s == "\"" + s[1..];
    ReadPiecesExact(s[1..]);
    var (name, s1) := ReadPieces(s[1..]).value;
    TakeBlankExact(s1);
    var (between, s2) := TakeBlank(s1);
    assert s2 == ":" + s2[1..];
    TakeBlankExact(s2[1..]);
  }

  lemma {:induction false} ReadMembersExact(s: string)
    requires ReadMembers(s).Some?
    ensures var (ms, rest) := ReadMembers(s).value; GoodMembers(ms) && EmitMembers(ms, rest) == s
    decreases |s|, 2
  {
    TakeBlankExact(s);
    var (before, s1) := TakeBlank(s);
    ReadNameExact(s1);
    var (name, between, gap, s2) := ReadName(s1).value;
    ReadValueExact(s2);
    var (value, s3) := ReadValue(s2).value;
    TakeBlankExact(s3);
    var (after, s4) := TakeBlank(s3);
    ReadMemberCloseExact(s4);
    var (ms, rest) := ReadMembers(s).value;
    assert MemberTail(ms, rest) == s3;
    assert EmitAfterName(ms, rest) == between + (":" + (gap + s2));
  }

  lemma {:induction false} ReadMemberCloseExact(s: string)
    requires ReadMemberClose(s).Some?
    ensures var (more, rest) := ReadMemberClose(s).value; GoodMembers(more) && MemberClose(more, rest) == s
    decreases |s|, 1
  {
    assert s == s[..1] + s[1..];
    if !Starts(s, '}') {
      ReadMembersExact(s[1..]);
    }
  }
}
