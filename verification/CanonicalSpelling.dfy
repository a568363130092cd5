/** Which spelling the canonical text has: the shortest of every string, in lowercase. */
module CanonicalSpelling {
  import opened Unicode
  import opened Number
  import opened Json
  import opened JsonGrammar
  import opened JsonMeaning

  // ---------- the characters of RFC 8259 ----------

  const LOWER_DIGITS := "0123456789abcdef"
  const UPPER_DIGITS := "0123456789ABCDEF"

  /** Sections 2 and 7: blanks, hexadecimal digits, and what may stand unescaped. */
  lemma Lexemes(c: char)
    ensures IsBlank(c) <==> c as int in {0x20, 0x09, 0x0A, 0x0D}
    ensures IsHex(c) <==> c in LOWER_DIGITS || c in UPPER_DIGITS
    ensures IsDigit(c) <==> c in LOWER_DIGITS[..10]
    ensures GoodPiece(Raw(c)) <==> c as int in {0x20, 0x21} || 0x23 <= c as int <= 0x5B || 0x5D <= c as int
  {
    InDigits(c);
  }

  lemma InDigits(c: char)
    ensures c in LOWER_DIGITS <==> '0' <= c <= '9' || 'a' <= c <= 'f'
    ensures c in UPPER_DIGITS <==> '0' <= c <= '9' || 'A' <= c <= 'F'
    ensures c in LOWER_DIGITS[..10] <==> '0' <= c <= '9'
  {
    var n := c as int;
    if '0' <= c <= '9' {
      assert LOWER_DIGITS[n - 0x30] == c && UPPER_DIGITS[n - 0x30] == c && LOWER_DIGITS[..10][n - 0x30] == c;
    } else if 'a' <= c <= 'f' {
      assert LOWER_DIGITS[n - 0x61 + 10] == c;
    } else if 'A' <= c <= 'F' {
      assert UPPER_DIGITS[n - 0x41 + 10] == c;
    }
  }

  /** The digit characters stand for their places in the alphabet. */
  lemma DigitPlaces(i: nat)
    requires i < 16
    ensures HexDigitValue(LOWER_DIGITS[i]) == i == HexDigitValue(UPPER_DIGITS[i]) && HexChar(i) == LOWER_DIGITS[i]
    ensures i < 10 ==> DigitChar(i) == LOWER_DIGITS[i]
  {
  }

  /** Four digits, the first of which counts most, in either case. */
  lemma FourDigits(a: nat, b: nat, c: nat, d: nat)
    requires a < 16 && b < 16 && c < 16 && d < 16
    ensures var lower := [LOWER_DIGITS[a], LOWER_DIGITS[b], LOWER_DIGITS[c], LOWER_DIGITS[d]];
            var upper := [UPPER_DIGITS[a], UPPER_DIGITS[b], UPPER_DIGITS[c], UPPER_DIGITS[d]];
            GoodPiece(Hex(lower)) && GoodPiece(Hex(upper))
            && HexUnit(lower) == ((a * 16 + b) * 16 + c) * 16 + d == HexUnit(upper)
  {
    DigitPlaces(a);
    DigitPlaces(b);
    DigitPlaces(c);
    DigitPlaces(d);
    IsHexDigits(a);
    IsHexDigits(b);
    IsHexDigits(c);
    IsHexDigits(d);
  }

  lemma IsHexDigits(i: nat)
    requires i < 16
    ensures IsHex(LOWER_DIGITS[i]) && IsHex(UPPER_DIGITS[i])
  {
    Lexemes(LOWER_DIGITS[i]);
    Lexemes(UPPER_DIGITS[i]);
  }

  /** The short escapes of section 7 and what they stand for. */
  lemma ShortEscapes(e: char)
    ensures GoodPiece(Short(e)) <==> e in "\"\\/bfnrt"
    ensures e in "\"\\/" ==> PieceUnits(Short(e)) == [e as int]
    ensures PieceUnits(Short('b')) == [0x08] && PieceUnits(Short('f')) == [0x0C] && PieceUnits(Short('n')) == [0x0A]
    ensures PieceUnits(Short('r')) == [0x0D] && PieceUnits(Short('t')) == [0x09]
  {
  }

  // ---------- the shortest escape ----------

  predicate Lowercase(digits: string) { forall i | 0 <= i < |digits| :: !('A' <= digits[i] <= 'F') }

  /** No piece spells a character in less than the printer writes. */
  lemma EscapeIsShortest(c: char, p: Piece)
    requires GoodPiece(p) && PieceUnits(p) == UnitsOf(c)
    ensures |EscapeChar(c)| <= |PieceText(p)|
  {
    if p.Raw? { SameUnits(c, p.c); }
  }

  lemma SameUnits(c: char, d: char)
    requires UnitsOf(c) == UnitsOf(d)
    ensures c == d
  {
    Decode16Inverts([c]);
    Decode16Inverts([d]);
    Encode16Cons(c, "");
    Encode16Cons(d, "");
  }

  /** And a piece that is as short, with lowercase digits, is what the printer writes. */
  lemma EscapeIsOnly(c: char, p: Piece)
    requires GoodPiece(p) && PieceUnits(p) == UnitsOf(c) && |PieceText(p)| <= |EscapeChar(c)|
    requires p.Hex? ==> Lowercase(p.digits)
    ensures PieceText(p) == EscapeChar(c)
  {
    match p
    case Raw(d) => SameUnits(c, d);
    case Short(_) =>
    case Hex(digits) =>
      assert c as int < 0x20;
      LowerDigits(digits, c as int);
  }

  lemma LowerDigits(digits: string, n: nat)
    requires GoodPiece(Hex(digits)) && Lowercase(digits) && HexUnit(digits) == n < 0x100
    ensures digits == "00" + HexPair(n)
  {
    forall i | 0 <= i < 4 ensures digits[i] == HexChar(HexDigitValue(digits[i])) { LowerDigit(digits[i]); }
    var a, b := HexDigitValue(digits[0]), HexDigitValue(digits[1]);
    var d, e := HexDigitValue(digits[2]), HexDigitValue(digits[3]);
    assert a == 0 && b == 0 && n == d * 16 + e;
    assert n / 16 == d && n % 16 == e;
  }

  lemma LowerDigit(c: char)
    requires IsHex(c) && !('A' <= c <= 'F')
    ensures 0 <= HexDigitValue(c) < 16 && c == HexChar(HexDigitValue(c))
  {
  }

  // ---------- whole literals ----------

  predicate AllLowercase(ps: seq<Piece>) { forall i | 0 <= i < |ps| && ps[i].Hex? :: Lowercase(ps[i].digits) }

  function PiecesText(ps: seq<Piece>): string { if ps == [] then "" else PieceText(ps[0]) + PiecesText(ps[1..]) }

  lemma CharUnits(c: char)
    ensures var u := UnitsOf(c);
            (|u| == 1 && !IsSurrogate(u[0])) || (|u| == 2 && IsHigh(u[0]) && IsLow(u[1]))
  {
  }

  lemma PieceShape(p: Piece)
    requires GoodPiece(p)
    ensures var u := PieceUnits(p);
            if p.Hex? then |u| == 1
            else (|u| == 1 && !IsSurrogate(u[0])) || (|u| == 2 && IsHigh(u[0]) && IsLow(u[1]))
  {
    match p
    case Raw(c) => CharUnits(c);
    case Short(e) => CharUnits(ShortChar(e));
    case _ =>
  }

  lemma UnitsCons(ps: seq<Piece>)
    requires GoodPieces(ps) && ps != []
    ensures GoodPieces(ps[1..]) && Units(ps) == PieceUnits(ps[0]) + Units(ps[1..])
    ensures Units(ps)[..|PieceUnits(ps[0])|] == PieceUnits(ps[0]) && Units(ps)[|PieceUnits(ps[0])|..] == Units(ps[1..])
  {
  }

  /** The first piece is the first character's, or it and the next are the halves of a pair. */
  lemma FirstPiece(ps: seq<Piece>, s: string)
    requires GoodPieces(ps) && s != "" && Units(ps) == Encode16(s)
    ensures ps != []
    ensures || (PieceUnits(ps[0]) == UnitsOf(s[0]) && Units(ps[1..]) == Encode16(s[1..]))
            || (|ps| > 1 && ps[0].Hex? && ps[1].Hex? && |UnitsOf(s[0])| == 2 && Units(ps[2..]) == Encode16(s[1..]))
  {
    hide GoodPiece, PieceUnits, UnitsOf;
    var u, e := Units(ps), UnitsOf(s[0]);
    CharUnits(s[0]);
    assert u == e + Encode16(s[1..]);
    assert u[..|e|] == e && u[|e|..] == Encode16(s[1..]);
    UnitsCons(ps);
    PieceShape(ps[0]);
    if |PieceUnits(ps[0])| != |e| {
      assert PieceUnits(ps[0])[0] == u[0] == e[0];
      SecondHalf(ps, u[1]);
    }
  }

  /** A high surrogate on its own comes from an escape, and so does the low one that follows. */
  lemma SecondHalf(ps: seq<Piece>, low: Unit)
    requires GoodPieces(ps) && ps != [] && |PieceUnits(ps[0])| == 1 && IsHigh(PieceUnits(ps[0])[0])
    requires |Units(ps)| > 1 && Units(ps)[1] == low && IsLow(low)
    ensures |ps| > 1 && ps[0].Hex? && ps[1].Hex? && Units(ps)[2..] == Units(ps[2..])
  {
    hide GoodPiece, PieceUnits;
    PieceShape(ps[0]);
    UnitsCons(ps);
    var rest := ps[1..];
    assert Units(rest)[0] == low;
    UnitsCons(rest);
    PieceShape(rest[0]);
    assert PieceUnits(rest[0])[0] == low;
    assert rest[1..] == ps[2..] && Units(ps)[2..] == Units(rest)[1..];
  }

  lemma {:induction false} PiecesShortest(ps: seq<Piece>, s: string)
    requires GoodPieces(ps) && Units(ps) == Encode16(s)
    ensures |EscapeAll(s)| <= |PiecesText(ps)|
    decreases |s|
  {
    hide EscapeChar, UnitsOf, PieceUnits, PieceText, GoodPiece;
    if s != "" {
      FirstPiece(ps, s);
      if PieceUnits(ps[0]) == UnitsOf(s[0]) && Units(ps[1..]) == Encode16(s[1..]) {
        EscapeIsShortest(s[0], ps[0]);
        PiecesShortest(ps[1..], s[1..]);
      } else {
        PiecesShortest(ps[2..], s[1..]);
        HexPairIsLong(ps, s[0]);
      }
    }
  }

  lemma HexPairIsLong(ps: seq<Piece>, c: char)
    requires GoodPieces(ps) && |ps| > 1 && ps[0].Hex? && ps[1].Hex? && |UnitsOf(c)| == 2
    ensures |EscapeChar(c)| == 1 && |PiecesText(ps)| == 12 + |PiecesText(ps[2..])|
  {
    assert ps[1..][1..] == ps[2..] && ps[1..][0] == ps[1];
  }

  lemma {:induction false} PiecesOnly(ps: seq<Piece>, s: string)
    requires GoodPieces(ps) && Units(ps) == Encode16(s) && AllLowercase(ps) && |PiecesText(ps)| <= |EscapeAll(s)|
    ensures PiecesText(ps) == EscapeAll(s)
    decreases |s|
  {
    hide EscapeChar, UnitsOf, PieceUnits, PieceText, GoodPiece;
    if s == "" {
      assert PiecesText(ps) == "";
    } else {
      FirstPiece(ps, s);
      if PieceUnits(ps[0]) == UnitsOf(s[0]) && Units(ps[1..]) == Encode16(s[1..]) {
        EscapeIsShortest(s[0], ps[0]);
        PiecesShortest(ps[1..], s[1..]);
        EscapeIsOnly(s[0], ps[0]);
        PiecesOnly(ps[1..], s[1..]);
      } else {
        PiecesShortest(ps[2..], s[1..]);
        HexPairIsLong(ps, s[0]);
      }
    }
  }

  lemma {:induction false} EmitIsText(ps: seq<Piece>)
    ensures EmitPieces(ps, "") == PiecesText(ps) + "\""
  {
    if ps == [] {
      assert "\"" + "" == "" + "\"";
    } else {
      EmitIsText(ps[1..]);
      Assoc(PieceText(ps[0]), PiecesText(ps[1..]), "\"");
    }
  }

  /**
   Of all string literals that denote a string, the printed one is the shortest, and it is the only one of its
   length with lowercase hexadecimal digits.
   */
  lemma LiteralIsShortest(ps: seq<Piece>, s: string)
    requires GoodPieces(ps) && CleanString(ps) && StringOf(ps) == s
    ensures var literal := Emit(CStr(ps), "");
            && |PrintString(s)| <= |literal|
            && (|literal| <= |PrintString(s)| && AllLowercase(ps) ==> literal == PrintString(s))
  {
    hide EscapeAll, EmitPieces, PiecesText;
    Encode16Inverts(Units(ps));
    PiecesShortest(ps, s);
    EmitIsText(ps);
    if |PiecesText(ps)| <= |EscapeAll(s)| && AllLowercase(ps) {
      PiecesOnly(ps, s);
      Assoc("\"", EscapeAll(s), "\"");
    }
  }
}
