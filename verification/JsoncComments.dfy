/** The comment stripper of architecture_check.py. */
module JsoncComments {
  import opened Wrappers
  import opened Number
  import opened JsonGrammar
  import opened JsonMeaning

  // ---------- what is left of a text ----------

  predicate StartsComment(s: string) { |s| >= 2 && s[0] == '/' && (s[1] == '/' || s[1] == '*') }

  /** Outside strings and comments. */
  function Strip(s: string): string
    decreases |s|, 1
  {
    if s == "" then ""
    else if s[0] == '"' then "\"" + Inside(s[1..], false)
    else if StartsComment(s) then "  " + (if s[1] == '/' then InLine(s[2..]) else InBlock(s[2..]))
    else [s[0]] + Strip(s[1..])
  }

  /** Inside a string, after a backslash or not. */
  function Inside(s: string, escaped: bool): string
    decreases |s|, 1
  {
    if s == "" then ""
    else [s[0]] + (if !escaped && s[0] == '"' then Strip(s[1..]) else Inside(s[1..], !escaped && s[0] == '\\'))
  }

  function InLine(s: string): string
    decreases |s|, 2
  {
    if s == "" || s[0] == '\n' then Strip(s) else " " + InLine(s[1..])
  }

  function InBlock(s: string): string
    decreases |s|, 1
  {
    if s == "" then ""
    else if |s| >= 2 && s[0] == '*' && s[1] == '/' then "  " + Strip(s[2..])
    else [if s[0] == '\n' then '\n' else ' '] + InBlock(s[1..])
  }

  // ---------- the scanner ----------

  /** The loop over a line comment. */
  method SkipLine(content: string, start: nat, output: string) returns (index: nat, out: string)
    requires start <= |content|
    ensures start <= index <= |content| && out + Strip(content[index..]) == output + InLine(content[start..])
  {
    index, out := start, output;
    while index < |content| && content[index] != '\n'
      invariant start <= index <= |content| && out + InLine(content[index..]) == output + InLine(content[start..])
    {
      Moves(out, " ", content, index, 1);
      out := out + " ";
      index := index + 1;
    }
    assert content[index..] == "" || content[index..][0] == '\n';
  }

  /** The loop over a block comment, to its end or the end of the text. */
  method SkipBlock(content: string, start: nat, output: string) returns (index: nat, out: string)
    requires start <= |content|
    ensures start <= index <= |content| && out + Strip(content[index..]) == output + InBlock(content[start..])
  {
    index, out := start, output;
    while index < |content|
      invariant start <= index <= |content| && out + InBlock(content[index..]) == output + InBlock(content[start..])
    {
      var rest := content[index..];
      if |rest| >= 2 && rest[0] == '*' && rest[1] == '/' {
        Moves(out, "  ", content, index, 2);
        out := out + "  ";
        index := index + 2;
        return;
      }
      var blank := if content[index] == '\n' then "\n" else " ";
      Moves(out, blank, content, index, 1);
      out := out + blank;
      index := index + 1;
    }
  }

  lemma Moves(out: string, step: string, content: string, index: nat, n: nat)
    requires index + n <= |content|
    ensures content[index..][n..] == content[index + n..]
    ensures forall more: string :: (out + step) + more == out + (step + more)
  {
  }

  method StripComments(content: string) returns (output: string)
    ensures output == Strip(content)
  {
    output := "";
    var index, inString, escaped := 0, false, false;
    while index < |content|
      invariant 0 <= index <= |content|
      invariant Strip(content)
                == output + (if inString then Inside(content[index..], escaped) else Strip(content[index..]))
      invariant !inString ==> !escaped
      decreases |content| - index
    {
      var c := content[index];
      if inString {
        Moves(output, [c], content, index, 1);
        output := output + [c];
        if escaped {
          escaped := false;
        } else if c == '\\' {
          escaped := true;
        } else if c == '"' {
          inString := false;
        }
        index := index + 1;
      } else if c == '"' {
        Moves(output, [c], content, index, 1);
        inString := true;
        output := output + [c];
        index := index + 1;
      } else if index + 1 < |content| && c == '/' && content[index + 1] == '/' {
        Moves(output, "  ", content, index, 2);
        index, output := SkipLine(content, index + 2, output + "  ");
      } else if index + 1 < |content| && c == '/' && content[index + 1] == '*' {
        Moves(output, "  ", content, index, 2);
        index, output := SkipBlock(content, index + 2, output + "  ");
      } else {
        Moves(output, [c], content, index, 1);
        output := output + [c];
        index := index + 1;
      }
    }
  }

  // ---------- what stays ----------

  /** Every character is kept at its place or blanked; line ends are always kept. */
  predicate Blanked(s: string, t: string) {
    |t| == |s| && forall i | 0 <= i < |s| :: t[i] == s[i] || (t[i] == ' ' && s[i] != '\n')
  }

  lemma BlankedStep(s: string, head: string, rest: string)
    requires |head| <= |s| && Blanked(s[..|head|], head) && Blanked(s[|head|..], rest)
    ensures Blanked(s, head + rest)
  {
    var t := head + rest;
    forall i | 0 <= i < |s| ensures t[i] == s[i] || (t[i] == ' ' && s[i] != '\n') {
      if i < |head| {
        assert s[..|head|][i] == s[i];
      } else {
        assert s[|head|..][i - |head|] == s[i];
      }
    }
  }

  lemma {:induction false} StripBlanks(s: string)
    ensures Blanked(s, Strip(s))
    decreases |s|, 1
  {
    if s != "" {
      if s[0] == '"' {
        InsideBlanks(s[1..], false);
        BlankedStep(s, "\"", Inside(s[1..], false));
      } else if StartsComment(s) {
        if s[1] == '/' { InLineBlanks(s[2..]); } else { InBlockBlanks(s[2..]); }
        BlankedStep(s, "  ", if s[1] == '/' then InLine(s[2..]) else InBlock(s[2..]));
      } else {
        StripBlanks(s[1..]);
        BlankedStep(s, [s[0]], Strip(s[1..]));
      }
    }
  }

  lemma {:induction false} InsideBlanks(s: string, escaped: bool)
    ensures Blanked(s, Inside(s, escaped))
    decreases |s|, 1
  {
    if s != "" {
      var closes := !escaped && s[0] == '"';
      if closes { StripBlanks(s[1..]); } else { InsideBlanks(s[1..], !escaped && s[0] == '\\'); }
      BlankedStep(s, [s[0]], if closes then Strip(s[1..]) else Inside(s[1..], !escaped && s[0] == '\\'));
    }
  }

  lemma {:induction false} InLineBlanks(s: string)
    ensures Blanked(s, InLine(s))
    decreases |s|, 2
  {
    if s == "" || s[0] == '\n' {
      StripBlanks(s);
    } else {
      InLineBlanks(s[1..]);
      BlankedStep(s, " ", InLine(s[1..]));
    }
  }

  lemma {:induction false} InBlockBlanks(s: string)
    ensures Blanked(s, InBlock(s))
    decreases |s|, 1
  {
    if s != "" {
      if |s| >= 2 && s[0] == '*' && s[1] == '/' {
        StripBlanks(s[2..]);
        BlankedStep(s, "  ", Strip(s[2..]));
      } else {
        InBlockBlanks(s[1..]);
        BlankedStep(s, [if s[0] == '\n' then '\n' else ' '], InBlock(s[1..]));
      }
    }
  }

  // ---------- nothing is left to strip ----------

  lemma StripOne(c: char, rest: string)
    requires c != '"' && !StartsComment([c] + rest)
    ensures Strip([c] + rest) == [c] + Strip(rest)
  {
    assert ([c] + rest)[1..] == rest;
  }

  /** Stripping never brings two characters together that start a comment. */
  lemma {:induction false} StripTwice(s: string)
    ensures Strip(Strip(s)) == Strip(s)
    decreases |s|, 1
  {
    if s != "" {
      if s[0] == '"' {
        InsideTwice(s[1..], false);
        assert Strip(s)[1..] == Inside(s[1..], false);
      } else if StartsComment(s) {
        var rest := if s[1] == '/' then InLine(s[2..]) else InBlock(s[2..]);
        if s[1] == '/' { InLineTwice(s[2..]); } else { InBlockTwice(s[2..]); }
        TwoBlanks(rest);
      } else {
        StripTwice(s[1..]);
        StripBlanks(s[1..]);
        StripOne(s[0], Strip(s[1..]));
      }
    }
  }

  lemma TwoBlanks(rest: string)
    ensures Strip("  " + rest) == "  " + Strip(rest)
  {
    StripOne(' ', " " + rest);
    StripOne(' ', rest);
    assert "  " + rest == [' '] + (" " + rest) && " " + rest == [' '] + rest;
    assert "  " + Strip(rest) == [' '] + ([' '] + Strip(rest));
  }

  lemma {:induction false} InsideTwice(s: string, escaped: bool)
    ensures Inside(Inside(s, escaped), escaped) == Inside(s, escaped)
    decreases |s|, 1
  {
    if s != "" {
      if !escaped && s[0] == '"' { StripTwice(s[1..]); } else { InsideTwice(s[1..], !escaped && s[0] == '\\'); }
      assert Inside(s, escaped)[1..]
          == if !escaped && s[0] == '"' then Strip(s[1..]) else Inside(s[1..], !escaped && s[0] == '\\');
    }
  }

  lemma {:induction false} InLineTwice(s: string)
    ensures Strip(InLine(s)) == InLine(s)
    decreases |s|, 2
  {
    if s == "" || s[0] == '\n' {
      StripTwice(s);
    } else {
      InLineTwice(s[1..]);
      StripOne(' ', InLine(s[1..]));
    }
  }

  lemma {:induction false} InBlockTwice(s: string)
    ensures Strip(InBlock(s)) == InBlock(s)
    decreases |s|, 1
  {
    if s != "" {
      if |s| >= 2 && s[0] == '*' && s[1] == '/' {
        StripTwice(s[2..]);
        TwoBlanks(Strip(s[2..]));
      } else {
        InBlockTwice(s[1..]);
        StripOne(if s[0] == '\n' then '\n' else ' ', InBlock(s[1..]));
      }
    }
  }

  // ---------- JSON texts ----------

  predicate Plain(t: string) { forall i | 0 <= i < |t| :: t[i] != '"' && t[i] != '/' }

  lemma {:induction false} StripPlain(t: string, rest: string)
    requires Plain(t)
    ensures Strip(t + rest) == t + Strip(rest)
  {
    if t == "" {
      assert t + rest == rest;
    } else {
      StripPlain(t[1..], rest);
      assert t + rest == [t[0]] + (t[1..] + rest);
      StripOne(t[0], t[1..] + rest);
      assert t + Strip(rest) == [t[0]] + (t[1..] + Strip(rest));
    }
  }

  /** A string literal is passed over as it stands. */
  lemma {:induction false} InsidePieces(ps: seq<Piece>, rest: string)
    requires GoodPieces(ps)
    ensures Inside(EmitPieces(ps, rest), false) == EmitPieces(ps, Strip(rest))
  {
    if ps == [] {
      assert ("\"" + rest)[1..] == rest;
    } else {
      InsidePieces(ps[1..], rest);
      assert GoodPiece(ps[0]);
      InsidePiece(ps[0], EmitPieces(ps[1..], rest));
    }
  }

  lemma InsidePiece(p: Piece, rest: string)
    requires GoodPiece(p)
    ensures Inside(PieceText(p) + rest, false) == PieceText(p) + Inside(rest, false)
  {
    hide Inside;
    match p
    case Raw(c) => InsideOne(c, rest);
    case Short(e) => InsideEscape(e, rest);
    case Hex(digits) =>
      assert PieceText(p) + rest == ['\\', 'u'] + (digits + rest);
      InsideEscape('u', digits + rest);
      InsideText(digits, rest);
      assert PieceText(p) + Inside(rest, false) == ['\\', 'u'] + (digits + Inside(rest, false));
  }

  lemma InsideOne(c: char, rest: string)
    requires c != '"' && c != '\\'
    ensures Inside([c] + rest, false) == [c] + Inside(rest, false)
  {
    assert ([c] + rest)[1..] == rest;
  }

  lemma InsideEscape(e: char, rest: string)
    ensures Inside(['\\', e] + rest, false) == ['\\', e] + Inside(rest, false)
  {
    var s := ['\\', e] + rest;
    assert s[1..] == [e] + rest && s[1..][1..] == rest;
    assert Inside(s[1..], true) == [e] + Inside(rest, false);
  }

  lemma {:induction false} InsideText(t: string, rest: string)
    requires forall i | 0 <= i < |t| :: IsHex(t[i])
    ensures Inside(t + rest, false) == t + Inside(rest, false)
  {
    hide Inside;
    if t == "" {
      assert t + rest == rest;
    } else {
      InsideText(t[1..], rest);
      assert t + rest == [t[0]] + (t[1..] + rest);
      InsideOne(t[0], t[1..] + rest);
      assert t + Inside(rest, false) == [t[0]] + (t[1..] + Inside(rest, false));
    }
  }

  lemma {:induction false} DigitsPlain(ds: seq<Digit>)
    ensures Plain(DigitsText(ds))
  {
    if ds != [] { DigitsPlain(ds[1..]); }
  }

  lemma PlainAppend(a: string, b: string)
    requires Plain(a) && Plain(b)
    ensures Plain(a + b)
  {
  }

  lemma LiteralPlain(l: Literal)
    requires WellFormed(l)
    ensures Plain(LiteralText(l))
  {
    hide Plain, DigitsText;
    FracPlain(l.frac);
    ExpPlain(l.exp);
    DigitsPlain(l.whole);
    PlainAppend(FracText(l.frac), ExpText(l.exp));
    PlainAppend(DigitsText(l.whole), FracText(l.frac) + ExpText(l.exp));
    assert Plain(MinusText(l.neg)) by { MinusPlain(l.neg); }
    PlainAppend(MinusText(l.neg), DigitsText(l.whole) + (FracText(l.frac) + ExpText(l.exp)));
  }

  lemma MinusPlain(neg: bool)
    ensures Plain(MinusText(neg))
  {
  }

  lemma FracPlain(frac: seq<Digit>)
    ensures Plain(FracText(frac))
  {
    DigitsPlain(frac);
    PlainAppend(".", DigitsText(frac));
  }

  lemma ExpPlain(e: Exponent)
    requires e.Exponent? ==> e.mark in "eE"
    ensures Plain(ExpText(e))
  {
    if e.Exponent? {
      DigitsPlain(e.power);
      PlainAppend(SignText(e.sign), DigitsText(e.power));
      PlainAppend([e.mark], SignText(e.sign) + DigitsText(e.power));
    }
  }

  lemma BlanksPlain(s: string)
    requires Blanks(s)
    ensures Plain(s)
  {
  }

  lemma {:induction false} StripEmit(c: Cst, rest: string)
    requires Good(c)
    ensures Strip(Emit(c, rest)) == Emit(c, Strip(rest))
    decreases c, 3
  {
    match c
    case CNull => StripPlain("null", rest);
    case CTrue => StripPlain("true", rest);
    case CFalse => StripPlain("false", rest);
    case CNum(l) =>
      LiteralPlain(l);
      StripPlain(LiteralText(l), rest);
    case CStr(ps) => StripQuoted(ps, rest);
    case CArr(blank, items) =>
      if items.NoItems? {
        BlanksPlain(blank);
        StripPlain("]", rest);
        StripPlain(blank, "]" + rest);
        StripPlain("[", blank + ("]" + rest));
      } else {
        StripItems(items, rest);
        StripPlain("[", EmitItems(items, rest));
      }
    case CObj(blank, ms) =>
      if ms.NoMembers? {
        BlanksPlain(blank);
        StripPlain("}", rest);
        StripPlain(blank, "}" + rest);
        StripPlain("{", blank + ("}" + rest));
      } else {
        StripMembers(ms, rest);
        StripPlain("{", EmitMembers(ms, rest));
      }
  }

  lemma StripQuoted(ps: seq<Piece>, rest: string)
    requires GoodPieces(ps)
    ensures Strip("\"" + EmitPieces(ps, rest)) == "\"" + EmitPieces(ps, Strip(rest))
  {
    InsidePieces(ps, rest);
    assert ("\"" + EmitPieces(ps, rest))[1..] == EmitPieces(ps, rest);
  }

  lemma {:induction false} StripItems(items: CItems, rest: string)
    requires items.Item? && GoodItems(items)
    ensures Strip(EmitItems(items, rest)) == EmitItems(items, Strip(rest))
    decreases items, 2
  {
    hide Strip, Emit;
    var close := ItemClose(items.more, rest);
    BlanksPlain(items.before);
    BlanksPlain(items.after);
    if items.more.NoItems? {
      StripPlain("]", rest);
    } else {
      StripItems(items.more, rest);
      StripPlain(",", EmitItems(items.more, rest));
    }
    assert Strip(close) == ItemClose(items.more, Strip(rest));
    StripPlain(items.after, close);
    assert Strip(ItemTail(items, rest)) == ItemTail(items, Strip(rest));
    StripEmit(items.value, ItemTail(items, rest));
    StripPlain(items.before, Emit(items.value, ItemTail(items, rest)));
  }

  lemma {:induction false} StripMembers(ms: CMembers, rest: string)
    requires ms.Member? && GoodMembers(ms)
    ensures Strip(EmitMembers(ms, rest)) == EmitMembers(ms, Strip(rest))
    decreases ms, 2
  {
    hide Strip, Emit, EmitPieces;
    var close := MemberClose(ms.more, rest);
    BlanksPlain(ms.before);
    BlanksPlain(ms.between);
    BlanksPlain(ms.gap);
    BlanksPlain(ms.after);
    if ms.more.NoMembers? {
      StripPlain("}", rest);
    } else {
      StripMembers(ms.more, rest);
      StripPlain(",", EmitMembers(ms.more, rest));
    }
    assert Strip(close) == MemberClose(ms.more, Strip(rest));
    StripPlain(ms.after, close);
    var tail := MemberTail(ms, rest);
    assert Strip(tail) == MemberTail(ms, Strip(rest));
    StripEmit(ms.value, tail);
    StripPlain(ms.gap, Emit(ms.value, tail));
    StripPlain(":", ms.gap + Emit(ms.value, tail));
    StripPlain(ms.between, ":" + (ms.gap + Emit(ms.value, tail)));
    assert Strip(EmitAfterName(ms, rest)) == EmitAfterName(ms, Strip(rest));
    StripQuoted(ms.name, EmitAfterName(ms, rest));
    StripPlain(ms.before, "\"" + EmitPieces(ms.name, EmitAfterName(ms, rest)));
  }

  /** A text that is JSON already is left as it is. */
  lemma JsonUnchanged(text: string)
    requires ReadText(text).Some?
    ensures Strip(text) == text
  {
    hide Strip, Emit;
    var c := ReadText(text).value;
    ReadTextIffSpells(text, c);
    var before, after :| Blanks(before) && Blanks(after) && text == before + Emit(c, after);
    BlanksPlain(before);
    BlanksPlain(after);
    StripNothing();
    StripPlain(after, "");
    assert after + "" == after;
    StripEmit(c, after);
    StripPlain(before, Emit(c, after));
  }

  lemma StripNothing()
    ensures Strip("") == ""
  {
  }
}
