/** What becomes of strings, comments and other characters of a config. */
module CommentLaws {
  import opened Number
  import opened JsoncComments

  /** A body that stays inside its string: a backslash takes the next character with it. */
  predicate StaysQuoted(body: string) {
    if body == "" then true
    else if body[0] == '\\' then |body| >= 2 && StaysQuoted(body[2..])
    else body[0] != '"' && StaysQuoted(body[1..])
  }

  lemma InsideStep(c: char, rest: string)
    requires c != '"' && c != '\\'
    ensures Inside([c] + rest, false) == [c] + Inside(rest, false)
  {
    assert ([c] + rest)[1..] == rest;
  }

  lemma InsideEscape(c: char, rest: string)
    ensures Inside(['\\', c] + rest, false) == ['\\', c] + Inside(rest, false)
  {
    var s := ['\\', c] + rest;
    assert s[1..] == [c] + rest && s[1..][1..] == rest;
    assert ['\\'] + ([c] + Inside(rest, false)) == ['\\', c] + Inside(rest, false);
  }

  lemma InsideEnd(rest: string)
    ensures Inside("\"" + rest, false) == "\"" + Strip(rest) && Strip("\"" + rest) == "\"" + Inside(rest, false)
  {
    assert ("\"" + rest)[1..] == rest;
  }

  lemma {:induction false} InsideBody(body: string, rest: string)
    requires StaysQuoted(body)
    ensures Inside(body + rest, false) == body + Inside(rest, false)
    decreases |body|
  {
    hide Inside;
    if body == "" {
      assert body + rest == rest;
      assert "" + Inside(rest, false) == Inside(rest, false);
    } else if body[0] == '\\' {
      InsideBody(body[2..], rest);
      InsideEscape(body[1], body[2..] + rest);
      var head := ['\\', body[1]];
      assert body == head + body[2..];
      Assoc(head, body[2..], rest);
      Assoc(head, body[2..], Inside(rest, false));
    } else {
      InsideBody(body[1..], rest);
      InsideStep(body[0], body[1..] + rest);
      assert body == [body[0]] + body[1..];
      Assoc([body[0]], body[1..], rest);
      Assoc([body[0]], body[1..], Inside(rest, false));
    }
  }

  /** A string literal stays as it is, whatever looks like a comment in it. */
  lemma StripQuoted(body: string, rest: string)
    requires StaysQuoted(body)
    ensures Strip("\"" + (body + ("\"" + rest))) == "\"" + (body + ("\"" + Strip(rest)))
  {
    hide Inside, Strip;
    InsideEnd(body + ("\"" + rest));
    InsideBody(body, "\"" + rest);
    InsideEnd(rest);
  }

  /** So does any other character that starts no comment. */
  lemma StripPlain(c: char, rest: string)
    requires c != '"' && !(c == '/' && rest != "" && (rest[0] == '/' || rest[0] == '*'))
    ensures Strip([c] + rest) == [c] + Strip(rest)
  {
    assert ([c] + rest)[1..] == rest;
  }

  function Spaces(n: nat): (s: string)
    ensures |s| == n && forall i | 0 <= i < n :: s[i] == ' '
  {
    seq(n, _ => ' ')
  }

  lemma {:induction false} LineBody(body: string, rest: string)
    requires '\n' !in body && (rest == "" || rest[0] == '\n')
    ensures InLine(body + rest) == Spaces(|body|) + Strip(rest)
  {
    if body == "" {
      assert body + rest == rest && Spaces(0) == "";
      assert Spaces(0) + Strip(rest) == Strip(rest);
    } else {
      LineBody(body[1..], rest);
      assert (body + rest)[1..] == body[1..] + rest && (body + rest)[0] == body[0];
      assert Spaces(|body|) == " " + Spaces(|body| - 1);
    }
  }

  lemma LineStarts(rest: string)
    ensures Strip("//" + rest) == "  " + InLine(rest)
  {
    assert ("//" + rest)[2..] == rest;
  }

  /** A line comment is blanked up to the end of its line. */
  lemma StripLine(body: string, rest: string)
    requires '\n' !in body && (rest == "" || rest[0] == '\n')
    ensures Strip("//" + (body + rest)) == "  " + (Spaces(|body|) + Strip(rest))
  {
    hide Strip, InLine;
    LineStarts(body + rest);
    LineBody(body, rest);
  }

  /** No star of the body is followed by a solidus, not even across its end. */
  predicate NotClosed(body: string, after: string) {
    forall i | 0 <= i < |body| && body[i] == '*' && i + 1 < |body + after| :: (body + after)[i + 1] != '/'
  }

  function Blanked(body: string): string {
    seq(|body|, i requires 0 <= i < |body| => if body[i] == '\n' then '\n' else ' ')
  }

  lemma {:induction false} BlockBody(body: string, after: string)
    requires NotClosed(body, after)
    ensures InBlock(body + after) == Blanked(body) + InBlock(after)
  {
    var s := body + after;
    if body == "" {
      assert s == after && Blanked(body) == "";
      assert "" + InBlock(after) == InBlock(after);
    } else {
      assert s[1..] == body[1..] + after;
      assert forall i | 0 <= i < |body| - 1 :: body[1..][i] == body[i + 1];
      assert NotClosed(body[1..], after) by {
        forall i | 0 <= i < |body| - 1 && body[1..][i] == '*' && i + 1 < |body[1..] + after|
          ensures (body[1..] + after)[i + 1] != '/'
        {
          assert (body + after)[i + 1 + 1] != '/';
        }
      }
      BlockBody(body[1..], after);
      assert Blanked(body) == [if body[0] == '\n' then '\n' else ' '] + Blanked(body[1..]);
      assert s[0] == body[0];
    }
  }

  lemma BlockStarts(rest: string)
    ensures Strip("/*" + rest) == "  " + InBlock(rest) && InBlock("*/" + rest) == "  " + Strip(rest)
  {
    assert ("/*" + rest)[2..] == rest && ("*/" + rest)[2..] == rest;
  }

  /** A block comment is blanked, line ends apart, up to its first end. */
  lemma StripBlock(body: string, rest: string)
    requires NotClosed(body, "*/")
    ensures Strip("/*" + (body + ("*/" + rest))) == "  " + (Blanked(body) + ("  " + Strip(rest)))
  {
    hide Strip, InBlock;
    var after := "*/" + rest;
    assert NotClosed(body, after) by {
      forall i | 0 <= i < |body| && body[i] == '*' && i + 1 < |body + after| ensures (body + after)[i + 1] != '/' {
        assert (body + "*/")[i + 1] == (body + after)[i + 1];
      }
    }
    BlockBody(body, after);
    BlockStarts(body + after);
    BlockStarts(rest);
  }

  /** One that is never closed is blanked to the end of the text. */
  lemma StripOpenBlock(body: string)
    requires NotClosed(body, "")
    ensures Strip("/*" + body) == "  " + Blanked(body)
  {
    BlockBody(body, "");
    assert ("/*" + body)[2..] == body && body + "" == body;
    assert Blanked(body) + "" == Blanked(body);
  }
}
