/**
 hasLoneSurrogateEscape of canonical.go: one pass over the bytes, outside, inside and escaped, which finds a
 surrogate escape that is no half of a pair.
 */
module SurrogateScan {
  import opened Wrappers
  import opened Unicode
  import opened Number
  import opened Json
  import opened JsonGrammar
  import opened JsonMeaning

  const QUOTE: Byte := 0x22
  const BACKSLASH: Byte := 0x5C
  const LOWER_U: Byte := 0x75

  /** strconv.ParseUint(s, 16, 16) of four bytes. */
  function ParseHex4(b: seq<Byte>): (r: Option<Unit>)
    requires |b| == 4
  {
    if forall i | 0 <= i < 4 :: b[i] < 0x80 && IsHex(b[i] as char)
    then Some(HexUnit([b[0] as char, b[1] as char, b[2] as char, b[3] as char]))
    else None
  }

  // ---------- the verdict on the bytes still to come, by scanner state ----------

  function ScanOutside(b: seq<Byte>): bool
    decreases |b|
  {
    b != [] && (if b[0] == QUOTE then ScanInside(b[1..]) else ScanOutside(b[1..]))
  }

  function ScanInside(b: seq<Byte>): bool
    decreases |b|
  {
    b != [] && (if b[0] == BACKSLASH then ScanEscaped(b[1..])
                else if b[0] == QUOTE then ScanOutside(b[1..])
                else ScanInside(b[1..]))
  }

  function ScanEscaped(b: seq<Byte>): bool
    decreases |b|
  {
    if b == [] then false
    else if b[0] != LOWER_U || |b| <= 4 then ScanInside(b[1..])
    else match ParseHex4(b[1..5])
         case None => ScanInside(b[1..])
         case Some(unit) =>
           if IsHigh(unit) then !LowFollows(b[5..]) || ScanInside(b[11..])
           else IsLow(unit) || ScanInside(b[5..])
  }

  /** A whole low-surrogate escape follows. */
  predicate LowFollows(b: seq<Byte>) {
    |b| >= 6 && b[0] == BACKSLASH && b[1] == LOWER_U
    && ParseHex4(b[2..6]).Some? && IsLow(ParseHex4(b[2..6]).value)
  }

  method HasLoneSurrogateEscape(input: seq<Byte>) returns (lone: bool)
    ensures lone == ScanOutside(input)
  {
    var inString, escaped := false, false;
    var index := 0;
    while index < |input|
      invariant 0 <= index <= |input|
      invariant escaped ==> inString
      invariant ScanOutside(input)
             == if !inString then ScanOutside(input[index..])
                else if escaped then ScanEscaped(input[index..])
                else ScanInside(input[index..])
    {
      var current := input[index];
      ghost var rest := input[index..];
      assert rest[1..] == input[index + 1..];
      if !inString {
        if current == QUOTE {
          inString := true;
        }
        index := index + 1;
        continue;
      }
      if escaped {
        escaped := false;
        if current != LOWER_U || index + 4 >= |input| {
          index := index + 1;
          continue;
        }
        assert rest[1..5] == input[index + 1..index + 5];
        var unit := ParseHex4(input[index + 1..index + 5]);
        if unit.None? {
          index := index + 1;
          continue;
        }
        index := index + 4;
        assert rest[5..] == input[index + 1..];
        if 0xD800 <= unit.value <= 0xDBFF {
          if index + 6 >= |input| || input[index + 1] != BACKSLASH || input[index + 2] != LOWER_U {
            return true;
          }
          assert rest[5..][2..6] == input[index + 3..index + 7];
          var low := ParseHex4(input[index + 3..index + 7]);
          if low.None? || low.value < 0xDC00 || low.value > 0xDFFF {
            return true;
          }
          index := index + 6;
          assert rest[11..] == input[index + 1..];
        } else if 0xDC00 <= unit.value <= 0xDFFF {
          return true;
        }
        index := index + 1;
        continue;
      }
      if current == BACKSLASH {
        escaped := true;
      } else if current == QUOTE {
        inString := false;
      }
      index := index + 1;
    }
    return false;
  }

  // ---------- on a JSON text the verdict is about its string literals ----------

  lemma {:induction false} SkipInside(b: seq<Byte>, rest: seq<Byte>)
    requires forall i | 0 <= i < |b| :: b[i] != QUOTE && b[i] != BACKSLASH
    ensures ScanInside(b + rest) == ScanInside(rest)
  {
    if b == [] {
      assert b + rest == rest;
    } else {
      assert (b + rest)[1..] == b[1..] + rest;
      SkipInside(b[1..], rest);
    }
  }

  lemma {:induction false} SkipOutside(s: string, rest: string)
    requires '"' !in s
    ensures ScanOutside(Encode8(s + rest)) == ScanOutside(Encode8(rest))
  {
    if s == "" {
      assert s + rest == rest;
    } else {
      assert (s + rest)[1..] == s[1..] + rest;
      SkipOutside(s[1..], rest);
      SkipOutsideBytes(BytesOf(s[0]), Encode8(s[1..] + rest));
    }
  }

  lemma {:induction false} SkipOutsideBytes(b: seq<Byte>, rest: seq<Byte>)
    requires forall i | 0 <= i < |b| :: b[i] != QUOTE
    ensures ScanOutside(b + rest) == ScanOutside(rest)
  {
    if b == [] {
      assert b + rest == rest;
    } else {
      assert (b + rest)[1..] == b[1..] + rest;
      SkipOutsideBytes(b[1..], rest);
    }
  }

  lemma Encode8Cons(c: char, rest: string)
    ensures Encode8([c] + rest) == BytesOf(c) + Encode8(rest)
  {
    assert ([c] + rest)[1..] == rest;
  }

  lemma WellFormedCons(c: char, u: seq<Unit>)
    ensures WellFormed16(UnitsOf(c) + u) == WellFormed16(u)
  {
    var n := c as int;
    if n < 0x1_0000 {
      assert (UnitsOf(c) + u)[1..] == u;
    } else {
      assert (UnitsOf(c) + u)[2..] == u;
    }
  }

  lemma {:induction false} AsciiBytes(s: string)
    requires forall i | 0 <= i < |s| :: s[i] as int < 0x80
    ensures |Encode8(s)| == |s| && forall i | 0 <= i < |s| :: Encode8(s)[i] == s[i] as int
  {
    if s != "" {
      AsciiBytes(s[1..]);
    }
  }

  /** The bytes of an escape of four hexadecimal digits. */
  lemma HexBytes(digits: string, rest: string)
    requires GoodPiece(Hex(digits))
    ensures var b := Encode8(PieceText(Hex(digits)) + rest);
            && |b| == 6 + |Encode8(rest)| && b[0] == BACKSLASH && b[1] == LOWER_U
            && ParseHex4(b[2..6]) == Some(HexUnit(digits)) && b[6..] == Encode8(rest)
  {
    var escape := PieceText(Hex(digits));
    assert forall i | 2 <= i < 6 :: escape[i] == digits[i - 2];
    AsciiBytes(escape);
    Encode8Append(escape, rest);
    var b := Encode8(escape + rest);
    assert forall i | 0 <= i < 6 :: b[i] == escape[i] as int;
    ParseHex4Of(b[2..6], digits);
  }

  lemma ParseHex4Of(b: seq<Byte>, digits: string)
    requires |b| == 4 && GoodPiece(Hex(digits)) && forall i | 0 <= i < 4 :: b[i] == digits[i] as int
    ensures ParseHex4(b) == Some(HexUnit(digits))
  {
    assert digits == [b[0] as char, b[1] as char, b[2] as char, b[3] as char];
  }

  lemma NoLowBytes(p: Piece, tail: string)
    requires GoodPiece(p) && !p.Hex?
    ensures !LowFollows(Encode8(PieceText(p) + tail))
  {
    if p.Short? {
      var text := PieceText(p);
      Encode8Append(text, tail);
      AsciiBytes(text);
      assert Encode8(text + tail)[1] == text[1] as int;
    } else {
      Encode8Cons(p.c, tail);
      assert BytesOf(p.c)[0] != BACKSLASH;
    }
  }

  /** The first unit of a raw or short piece, or of the end of a literal, is no low surrogate escape. */
  lemma NoLowFollows(ps: seq<Piece>, rest: string)
    requires GoodPieces(ps) && (ps == [] || !ps[0].Hex?)
    ensures !LowFollows(Encode8(EmitPieces(ps, rest)))
    ensures forall high | IsHigh(high) :: !WellFormed16([high] + Units(ps))
  {
    hide BytesOf, LowFollows, PieceText;
    if ps == [] {
      NoLowAtQuote(rest);
    } else {
      NoLowBytes(ps[0], EmitPieces(ps[1..], rest));
      var first := PieceUnits(ps[0])[0];
      assert Units(ps)[0] == first && !IsLow(first);
    }
  }

  lemma NoLowAtQuote(rest: string)
    ensures !LowFollows(Encode8("\"" + rest))
  {
    Encode8Cons('"', rest);
  }

  /** Scanning a string literal finds a lone surrogate exactly when its code units are not well formed. */
  lemma {:induction false} ScanPieces(ps: seq<Piece>, rest: string)
    requires GoodPieces(ps)
    ensures ScanInside(Encode8(EmitPieces(ps, rest))) == (!CleanString(ps) || ScanOutside(Encode8(rest)))
    decreases |ps|, 2
  {
    hide UnitsOf, ScanOutside;
    if ps == [] {
      Encode8Cons('"', rest);
      assert ([QUOTE] + Encode8(rest))[1..] == Encode8(rest);
    } else {
      var tail := EmitPieces(ps[1..], rest);
      ScanPieces(ps[1..], rest);
      match ps[0]
      case Raw(c) =>
        ScanRaw(c, tail);
        WellFormedCons(c, Units(ps[1..]));
      case Short(e) =>
        ScanShort(e, tail);
        WellFormedCons(ShortChar(e), Units(ps[1..]));
      case Hex(_) =>
        ScanHex(ps, rest);
    }
  }

  lemma ScanRaw(c: char, tail: string)
    requires GoodPiece(Raw(c))
    ensures ScanInside(Encode8([c] + tail)) == ScanInside(Encode8(tail))
  {
    Encode8Cons(c, tail);
    SkipInside(BytesOf(c), Encode8(tail));
  }

  lemma ScanShort(e: char, tail: string)
    requires GoodPiece(Short(e))
    ensures ScanInside(Encode8(PieceText(Short(e)) + tail)) == ScanInside(Encode8(tail))
  {
    assert PieceText(Short(e)) + tail == ['\\'] + ([e] + tail);
    Encode8Cons('\\', [e] + tail);
    Encode8Cons(e, tail);
    var b := [BACKSLASH] + ([e as int] + Encode8(tail));
    assert b[1..][1..] == Encode8(tail);
  }

  lemma {:induction false} ScanHex(ps: seq<Piece>, rest: string)
    requires GoodPieces(ps) && ps != [] && ps[0].Hex?
    requires ScanInside(Encode8(EmitPieces(ps[1..], rest))) == (!CleanString(ps[1..]) || ScanOutside(Encode8(rest)))
    ensures ScanInside(Encode8(EmitPieces(ps, rest))) == (!CleanString(ps) || ScanOutside(Encode8(rest)))
    decreases |ps|, 1
  {
    var unit := HexUnit(ps[0].digits);
    if IsHigh(unit) && |ps| > 1 && ps[1].Hex? {
      HighThenHex(ps, rest);
    } else {
      HexBytes(ps[0].digits, EmitPieces(ps[1..], rest));
      ScanHexBytes(Encode8(EmitPieces(ps, rest)), unit);
      if IsHigh(unit) {
        NoLowFollows(ps[1..], rest);
      } else {
        assert ([unit] + Units(ps[1..]))[1..] == Units(ps[1..]);
      }
    }
  }

  lemma ScanHexBytes(b: seq<Byte>, unit: Unit)
    requires |b| >= 6 && b[0] == BACKSLASH && b[1] == LOWER_U && ParseHex4(b[2..6]) == Some(unit)
    ensures ScanInside(b) == if IsHigh(unit) then !LowFollows(b[6..]) || ScanInside(b[12..])
                             else IsLow(unit) || ScanInside(b[6..])
  {
    var e := b[1..];
    assert e[1..5] == b[2..6] && e[5..] == b[6..];
    if IsHigh(unit) && LowFollows(b[6..]) {
      assert e[11..] == b[12..];
    }
  }

  lemma {:induction false} HighThenHex(ps: seq<Piece>, rest: string)
    requires GoodPieces(ps) && |ps| >= 2 && ps[0].Hex? && ps[1].Hex? && IsHigh(HexUnit(ps[0].digits))
    ensures ScanInside(Encode8(EmitPieces(ps, rest))) == (!CleanString(ps) || ScanOutside(Encode8(rest)))
    decreases |ps|, 0
  {
    hide Encode8, ScanOutside, ScanInside, EmitPieces, CleanString, HexUnit;
    HighThenHexBytes(ps, rest);
    HighThenHexUnits(ps);
    if IsLow(HexUnit(ps[1].digits)) { ScanPieces(ps[2..], rest); }
  }

  lemma HighThenHexBytes(ps: seq<Piece>, rest: string)
    requires GoodPieces(ps) && |ps| >= 2 && ps[0].Hex? && ps[1].Hex? && IsHigh(HexUnit(ps[0].digits))
    ensures ScanInside(Encode8(EmitPieces(ps, rest)))
         == (!IsLow(HexUnit(ps[1].digits)) || ScanInside(Encode8(EmitPieces(ps[2..], rest))))
  {
    hide Encode8, ScanInside, ParseHex4;
    var tail, more := EmitPieces(ps[1..], rest), EmitPieces(ps[2..], rest);
    assert ps[1..][1..] == ps[2..] && ps[1..][0] == ps[1];
    var b := Encode8(EmitPieces(ps, rest));
    HexBytes(ps[0].digits, tail);
    HexBytes(ps[1].digits, more);
    ScanHexBytes(b, HexUnit(ps[0].digits));
    assert b[6..][6..] == b[12..];
  }

  lemma HighThenHexUnits(ps: seq<Piece>)
    requires GoodPieces(ps) && |ps| >= 2 && ps[0].Hex? && ps[1].Hex? && IsHigh(HexUnit(ps[0].digits))
    ensures CleanString(ps) <==> IsLow(HexUnit(ps[1].digits)) && CleanString(ps[2..])
  {
    hide HexUnit;
    assert ps[1..][1..] == ps[2..] && ps[1..][0] == ps[1];
    assert Units(ps) == [HexUnit(ps[0].digits), HexUnit(ps[1].digits)] + Units(ps[2..]);
    assert Units(ps)[2..] == Units(ps[2..]);
  }

  lemma {:induction false} ScanValue(c: Cst, rest: string)
    requires Good(c)
    ensures ScanOutside(Encode8(Emit(c, rest))) == (!Clean(c) || ScanOutside(Encode8(rest)))
    decreases c, 4
  {
    match c
    case CNull => SkipOutside("null", rest);
    case CTrue => SkipOutside("true", rest);
    case CFalse => SkipOutside("false", rest);
    case CNum(l) =>
      NoQuoteInLiteral(l);
      SkipOutside(LiteralText(l), rest);
    case CStr(ps) => ScanQuoted(ps, rest);
    case CArr(blank, items) =>
      if items.NoItems? {
        SkipOutside("[", blank + ("]" + rest));
        SkipOutside(blank, "]" + rest);
        SkipOutside("]", rest);
      } else {
        SkipOutside("[", EmitItems(items, rest));
        ScanItems(items, rest);
      }
    case CObj(blank, ms) =>
      if ms.NoMembers? {
        SkipOutside("{", blank + ("}" + rest));
        SkipOutside(blank, "}" + rest);
        SkipOutside("}", rest);
      } else {
        SkipOutside("{", EmitMembers(ms, rest));
        ScanMembers(ms, rest);
      }
  }

  lemma ScanQuoted(ps: seq<Piece>, rest: string)
    requires GoodPieces(ps)
    ensures ScanOutside(Encode8("\"" + EmitPieces(ps, rest))) == (!CleanString(ps) || ScanOutside(Encode8(rest)))
  {
    Encode8Cons('"', EmitPieces(ps, rest));
    assert ([QUOTE] + Encode8(EmitPieces(ps, rest)))[1..] == Encode8(EmitPieces(ps, rest));
    ScanPieces(ps, rest);
  }

  lemma NoQuoteInDigits(ds: seq<Digit>)
    ensures '"' !in DigitsText(ds)
  {
  }

  lemma NoQuoteInLiteral(l: Literal)
    requires WellFormed(l)
    ensures '"' !in LiteralText(l)
  {
    NoQuoteInDigits(l.whole);
    NoQuoteInDigits(l.frac);
    if l.exp.Exponent? {
      NoQuoteInDigits(l.exp.power);
    }
  }

  lemma {:induction false} ScanItems(items: CItems, rest: string)
    requires items.Item? && GoodItems(items)
    ensures ScanOutside(Encode8(EmitItems(items, rest))) == (!CleanItems(items) || ScanOutside(Encode8(rest)))
    decreases items, 2
  {
    SkipOutside(items.before, Emit(items.value, ItemTail(items, rest)));
    ScanValue(items.value, ItemTail(items, rest));
    SkipOutside(items.after, ItemClose(items.more, rest));
    if items.more.NoItems? {
      SkipOutside("]", rest);
    } else {
      SkipOutside(",", EmitItems(items.more, rest));
      ScanItems(items.more, rest);
    }
  }

  lemma {:induction false} ScanMembers(ms: CMembers, rest: string)
    requires ms.Member? && GoodMembers(ms)
    ensures ScanOutside(Encode8(EmitMembers(ms, rest))) == (!CleanMembers(ms) || ScanOutside(Encode8(rest)))
    decreases ms, 2
  {
    var value := Emit(ms.value, MemberTail(ms, rest));
    SkipOutside(ms.before, "\"" + EmitPieces(ms.name, EmitAfterName(ms, rest)));
    ScanQuoted(ms.name, EmitAfterName(ms, rest));
    SkipOutside(ms.between, ":" + (ms.gap + value));
    SkipOutside(":", ms.gap + value);
    SkipOutside(ms.gap, value);
    ScanValue(ms.value, MemberTail(ms, rest));
    SkipOutside(ms.after, MemberClose(ms.more, rest));
    if ms.more.NoMembers? {
      SkipOutside("}", rest);
    } else {
      SkipOutside(",", EmitMembers(ms.more, rest));
      ScanMembers(ms.more, rest);
    }
  }

  /** On the bytes of any JSON text, the scanner finds a lone surrogate iff some string literal has one. */
  lemma ScanText(text: string, c: Cst)
    requires ReadText(text) == Some(c)
    ensures ScanOutside(Encode8(text)) <==> !Clean(c)
  {
    ReadTextIffSpells(text, c);
    var before, after :| Blanks(before) && Blanks(after) && text == before + Emit(c, after);
    SkipOutside(before, Emit(c, after));
    ScanValue(c, after);
    assert after + "" == after;
    SkipOutside(after, "");
  }
}
