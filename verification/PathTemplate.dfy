/** Path rendering in Client.Do of openapi.gen.go, in any order of the map. */
module PathTemplate {
  import opened Wrappers
  import opened Unicode
  import opened StringOrder

  predicate IsBrace(c: char) { c == '{' || c == '}' }
  predicate BraceFree(s: string) { forall i | 0 <= i < |s| :: !IsBrace(s[i]) }

  // ---------- url.PathEscape ----------

  predicate Unescaped(b: Byte) {
    || 'a' as int <= b <= 'z' as int || 'A' as int <= b <= 'Z' as int || '0' as int <= b <= '9' as int
    || (b as char) in "-_.~$&+=:@"
  }

  function UpperHex(d: nat): char
    requires d < 16
  {
    if d < 10 then ('0' as int + d) as char else ('A' as int + (d - 10)) as char
  }

  function EscapeBytes(b: seq<Byte>): string {
    if b == [] then ""
    else
      var first := if Unescaped(b[0]) then [b[0] as char] else ['%', UpperHex(b[0] / 16), UpperHex(b[0] % 16)];
      first + EscapeBytes(b[1..])
  }

  function PathEscape(value: string): string { EscapeBytes(Encode8(value)) }

  lemma {:induction false} EscapedBraceFree(b: seq<Byte>)
    ensures BraceFree(EscapeBytes(b))
  {
    if b != [] { EscapedBraceFree(b[1..]); }
  }

  // ---------- placeholders ----------

  /** strings.ReplaceAll of "{name}". */
  function ReplaceAll(s: string, name: string, value: string): string
    decreases |s|
  {
    var placeholder := "{" + name + "}";
    if s == "" then ""
    else if placeholder <= s then value + ReplaceAll(s[|placeholder|..], name, value)
    else [s[0]] + ReplaceAll(s[1..], name, value)
  }

  /**
   A template in parts: characters, placeholders, and braces that belong to no placeholder. A loose pair
   of braces around placeholders is what makes the order matter.
   */
  datatype Part = Chr(c: char) | Hole(name: string) | Loose(c: char)

  /** The length of the text before the first brace. */
  function Run(s: string): (n: nat)
    ensures n <= |s| && BraceFree(s[..n]) && (n < |s| ==> IsBrace(s[n]))
  {
    if s == "" || IsBrace(s[0]) then 0 else 1 + Run(s[1..])
  }

  predicate StartsHole(s: string) { s != "" && s[0] == '{' && var n := Run(s[1..]); n + 1 < |s| && s[n + 1] == '}' }

  function Parse(s: string): seq<Part>
    decreases |s|
  {
    if s == "" then []
    else if StartsHole(s) then var n := Run(s[1..]); [Hole(s[1..n + 1])] + Parse(s[n + 2..])
    else [if IsBrace(s[0]) then Loose(s[0]) else Chr(s[0])] + Parse(s[1..])
  }

  lemma ParseStep(s: string)
    ensures s == "" ==> Parse(s) == []
    ensures StartsHole(s) ==>
      var n := Run(s[1..]);
      n + 2 <= |s| && Parse(s) == [Hole(s[1..n + 1])] + Parse(s[n + 2..])
    ensures s != "" && !StartsHole(s) ==> Parse(s) == [if IsBrace(s[0]) then Loose(s[0]) else Chr(s[0])] + Parse(s[1..])
  {
    hide Run;
  }

  function Text(p: Part): string { match p case Chr(c) => [c] case Hole(name) => "{" + name + "}" case Loose(c) => [c] }

  function Unparse(ps: seq<Part>): string { if ps == [] then "" else Text(ps[0]) + Unparse(ps[1..]) }

  predicate PartOk(p: Part) {
    match p case Chr(c) => !IsBrace(c) case Hole(name) => BraceFree(name) case Loose(c) => IsBrace(c)
  }

  predicate PartsOk(ps: seq<Part>) { forall i | 0 <= i < |ps| :: PartOk(ps[i]) }

  lemma UnparseCons(p: Part, ps: seq<Part>)
    ensures Unparse([p] + ps) == Text(p) + Unparse(ps)
  {
    assert ([p] + ps)[1..] == ps;
  }

  lemma {:induction false} ParseGives(s: string)
    ensures PartsOk(Parse(s)) && Unparse(Parse(s)) == s
    decreases |s|
  {
    hide Parse, Unparse, StartsHole, Run;
    ParseStep(s);
    UnparseEmpty();
    if s != "" {
      if StartsHole(s) {
        HoleSplits(s);
        var n := Run(s[1..]);
        ParseGives(s[n + 2..]);
        UnparseCons(Hole(s[1..n + 1]), Parse(s[n + 2..]));
        assert s == [s[0]] + s[1..];
      } else {
        ParseGives(s[1..]);
        UnparseCons(Parse(s)[0], Parse(s[1..]));
        assert s == [s[0]] + s[1..];
      }
    }
  }

  lemma UnparseEmpty()
    ensures Unparse([]) == ""
  {
  }

  lemma HoleSplits(s: string)
    requires StartsHole(s)
    ensures var n := Run(s[1..]);
            n + 2 <= |s| && s[0] == '{' && BraceFree(s[1..n + 1]) && s[1..] == s[1..n + 1] + "}" + s[n + 2..]
  {
    var n := Run(s[1..]);
    assert s[1..n + 1] == s[1..][..n];
  }

  // ---------- replacing, on parts ----------

  function Chars(v: string): (ps: seq<Part>)
    ensures |ps| == |v| && forall i | 0 <= i < |v| :: ps[i] == Chr(v[i])
  {
    seq(|v|, i requires 0 <= i < |v| => Chr(v[i]))
  }

  function SubstPart(p: Part, name: string, value: string): seq<Part> {
    if p == Hole(name) then Chars(value) else [p]
  }

  function Subst(ps: seq<Part>, name: string, value: string): seq<Part> {
    if ps == [] then [] else SubstPart(ps[0], name, value) + Subst(ps[1..], name, value)
  }

  lemma {:induction false} UnparseAppend(a: seq<Part>, b: seq<Part>)
    ensures Unparse(a + b) == Unparse(a) + Unparse(b)
  {
    hide Text;
    if a == [] {
      assert a + b == b;
    } else {
      UnparseAppend(a[1..], b);
      assert (a + b)[1..] == a[1..] + b;
      Assoc(Text(a[0]), Unparse(a[1..]), Unparse(b));
    }
  }

  lemma Assoc(a: string, b: string, c: string)
    ensures a + (b + c) == a + b + c
  {
  }

  lemma {:induction false} UnparseChars(v: string)
    ensures Unparse(Chars(v)) == v
  {
    if v != "" {
      assert Chars(v)[1..] == Chars(v[1..]);
      UnparseChars(v[1..]);
    }
  }

  lemma NoMatch(s: string, name: string)
    requires s != "" && s[0] != '{'
    ensures !("{" + name + "}" <= s)
  {
    assert ("{" + name + "}")[0] == '{';
  }

  lemma {:induction false} RunIs(s: string, n: nat)
    requires n < |s| && BraceFree(s[..n]) && IsBrace(s[n])
    ensures Run(s) == n
  {
    if n > 0 {
      assert !IsBrace(s[..n][0]);
      assert s[1..][..n - 1] == s[..n][1..];
      RunIs(s[1..], n - 1);
    }
  }

  lemma ReplaceOne(s: string, name: string, value: string)
    requires s != ""
    ensures var placeholder := "{" + name + "}";
            ReplaceAll(s, name, value)
            == if placeholder <= s then value + ReplaceAll(s[|placeholder|..], name, value)
              else [s[0]] + ReplaceAll(s[1..], name, value)
  {
  }

  /** Text without an opening brace is passed over. */
  lemma {:induction false} SkipText(t: string, rest: string, name: string, value: string)
    requires forall i | 0 <= i < |t| :: t[i] != '{'
    ensures ReplaceAll(t + rest, name, value) == t + ReplaceAll(rest, name, value)
  {
    hide ReplaceAll;
    if t == "" {
      assert t + rest == rest;
    } else {
      var s := t + rest;
      assert s[0] == t[0] && s[1..] == t[1..] + rest;
      NoMatch(s, name);
      ReplaceOne(s, name, value);
      SkipText(t[1..], rest, name, value);
      Assoc([t[0]], t[1..], ReplaceAll(rest, name, value));
      assert t == [t[0]] + t[1..];
    }
  }

  /** A placeholder matches only its own name. */
  lemma MatchIff(s: string, name: string)
    requires BraceFree(name)
    ensures "{" + name + "}" <= s <==> StartsHole(s) && s[1..Run(s[1..]) + 1] == name
  {
    var placeholder := "{" + name + "}";
    if placeholder <= s {
      assert s[0] == placeholder[0] == '{';
      assert s[1..][..|name|] == name by {
        assert forall i | 0 <= i < |name| :: s[1..][i] == placeholder[i + 1] == name[i];
      }
      assert s[|name| + 1] == placeholder[|name| + 1] == '}';
      RunIs(s[1..], |name|);
    }
    if StartsHole(s) && s[1..Run(s[1..]) + 1] == name {
      assert s[..|name| + 2] == placeholder;
    }
  }

  /** On every string, replacing is substituting the placeholders of that name. */
  lemma {:induction false} ReplaceIsSubst(s: string, name: string, value: string)
    requires BraceFree(name)
    ensures ReplaceAll(s, name, value) == Unparse(Subst(Parse(s), name, value))
    decreases |s|
  {
    hide Parse, Subst, Unparse, StartsHole;
    ParseStep(s);
    SubstStep(Parse(s), name, value);
    if s != "" {
      if StartsHole(s) {
        ReplaceIsSubst(s[Run(s[1..]) + 2..], name, value);
      } else {
        ReplaceIsSubst(s[1..], name, value);
      }
      ReplaceStep(s, name, value);
    }
  }

  /** What replacing does to the first part. */
  lemma ReplaceStep(s: string, name: string, value: string)
    requires BraceFree(name) && s != ""
    ensures StartsHole(s) ==>
              var n := Run(s[1..]);
              ReplaceAll(s, name, value)
              == (if s[1..n + 1] == name then value else Text(Hole(s[1..n + 1]))) + ReplaceAll(s[n + 2..], name, value)
    ensures !StartsHole(s) ==> ReplaceAll(s, name, value) == [s[0]] + ReplaceAll(s[1..], name, value)
  {
    hide StartsHole, Run, ReplaceAll;
    MatchIff(s, name);
    ReplaceOne(s, name, value);
    if StartsHole(s) {
      HoleSplits(s);
      var n := Run(s[1..]);
      var hole, rest := s[1..n + 1], s[n + 2..];
      if hole != name {
        SkipText(hole + "}", rest, name, value);
      }
    }
  }

  lemma SubstStep(ps: seq<Part>, name: string, value: string)
    ensures ps == [] ==> Unparse(Subst(ps, name, value)) == ""
    ensures ps != [] ==>
      Unparse(Subst(ps, name, value))
      == (if ps[0] == Hole(name) then value else Text(ps[0])) + Unparse(Subst(ps[1..], name, value))
  {
    if ps != [] {
      UnparseAppend(SubstPart(ps[0], name, value), Subst(ps[1..], name, value));
      UnparseChars(value);
      assert Unparse([ps[0]]) == Text(ps[0]) + "";
    }
  }

  // ---------- flat templates ----------

  const OPEN := Loose('{')
  const CLOSE := Loose('}')

  /** No loose opening brace comes before a loose closing one. */
  predicate Flat(ps: seq<Part>) { forall i, j | 0 <= i < j < |ps| :: !(ps[i] == OPEN && ps[j] == CLOSE) }

  /** Behind the text, the first brace of such parts opens. */
  lemma {:induction false} FirstBrace(ps: seq<Part>)
    requires PartsOk(ps) && CLOSE !in ps
    ensures var s := Unparse(ps); Run(s) < |s| ==> s[Run(s)] == '{'
  {
    if ps != [] {
      assert PartOk(ps[0]) && ps[0] != CLOSE;
      FirstBrace(ps[1..]);
      var rest := Unparse(ps[1..]);
      var s := Text(ps[0]) + rest;
      if ps[0].Chr? {
        assert s[1..] == rest;
      }
    }
  }

  /** Flat parts are what their text parses to. */
  lemma {:induction false} ParseInverts(ps: seq<Part>)
    requires PartsOk(ps) && Flat(ps)
    ensures Parse(Unparse(ps)) == ps
  {
    hide Parse;
    ParseStep(Unparse(ps));
    if ps != [] {
      hide Unparse, Text, PartOk;
      ParseInverts(ps[1..]);
      PartFirst(ps);
      assert ps == [ps[0]] + ps[1..];
    }
  }

  /** The first part is the first that is read. */
  lemma PartFirst(ps: seq<Part>)
    requires ps != [] && PartsOk(ps) && Flat(ps)
    ensures var s, rest := Unparse(ps), Unparse(ps[1..]);
            && s == Text(ps[0]) + rest && (StartsHole(s) <==> ps[0].Hole?)
            && (ps[0].Hole? ==> var n := Run(s[1..]); n + 2 <= |s| && s[1..n + 1] == ps[0].name && s[n + 2..] == rest)
            && (!ps[0].Hole? ==> s[1..] == rest && ps[0] == if IsBrace(s[0]) then Loose(s[0]) else Chr(s[0]))
  {
    var rest := Unparse(ps[1..]);
    assert PartOk(ps[0]);
    if ps[0].Hole? {
      HoleFirst(ps[0].name, rest);
    } else {
      if ps[0] == OPEN {
        assert CLOSE !in ps[1..];
        FirstBrace(ps[1..]);
      }
      OtherFirst(ps[0], rest);
    }
  }

  lemma HoleFirst(name: string, rest: string)
    requires BraceFree(name)
    ensures var s := "{" + name + "}" + rest; var n := Run(s[1..]);
            StartsHole(s) && n + 2 <= |s| && s[1..n + 1] == name && s[n + 2..] == rest
  {
    var s := "{" + name + "}" + rest;
    assert s[1..] == name + ("}" + rest);
    assert s[1..][..|name|] == name;
    RunIs(s[1..], |name|);
  }

  lemma OtherFirst(p: Part, rest: string)
    requires PartOk(p) && !p.Hole? && (p == OPEN && Run(rest) < |rest| ==> rest[Run(rest)] == '{')
    ensures var s := Text(p) + rest;
            !StartsHole(s) && s[1..] == rest && p == if IsBrace(s[0]) then Loose(s[0]) else Chr(s[0])
  {
    hide Run;
    var s := Text(p) + rest;
    assert s[1..] == rest;
  }

  /** The parts with the placeholders of the given names replaced. */
  function Fill(ps: seq<Part>, values: map<string, string>): seq<Part> {
    if ps == [] then [] else FillPart(ps[0], values) + Fill(ps[1..], values)
  }

  function FillPart(p: Part, values: map<string, string>): seq<Part> {
    if p.Hole? && p.name in values then Chars(values[p.name]) else [p]
  }

  predicate AllBraceFree(values: map<string, string>) {
    forall name | name in values :: BraceFree(name) && BraceFree(values[name])
  }

  lemma {:induction false} FillFlat(ps: seq<Part>, values: map<string, string>)
    requires PartsOk(ps) && AllBraceFree(values)
    ensures PartsOk(Fill(ps, values)) && (OPEN in Fill(ps, values) <==> OPEN in ps)
            && (CLOSE in Fill(ps, values) <==> CLOSE in ps)
    ensures Flat(ps) ==> Flat(Fill(ps, values))
  {
    hide FillPart;
    if ps != [] {
      FillFlat(ps[1..], values);
      FillPartFlat(ps[0], values);
      assert ps == [ps[0]] + ps[1..];
      FlatAppend([ps[0]], ps[1..]);
      FlatAppend(FillPart(ps[0], values), Fill(ps[1..], values));
    }
  }

  lemma FillPartFlat(p: Part, values: map<string, string>)
    requires PartOk(p) && AllBraceFree(values)
    ensures var head := FillPart(p, values);
            PartsOk(head) && Flat(head) && (OPEN in head <==> p == OPEN) && (CLOSE in head <==> p == CLOSE)
  {
  }

  lemma FlatAppend(a: seq<Part>, b: seq<Part>)
    ensures Flat(a + b) <==> Flat(a) && Flat(b) && !(OPEN in a && CLOSE in b)
    ensures PartsOk(a) && PartsOk(b) ==> PartsOk(a + b)
    ensures forall p :: p in a + b <==> p in a || p in b
  {
    var c := a + b;
    if Flat(c) {
      assert forall i | 0 <= i < |a| :: a[i] == c[i];
      assert forall i | 0 <= i < |b| :: b[i] == c[|a| + i];
    }
  }

  lemma {:induction false} SubstAppend(a: seq<Part>, b: seq<Part>, name: string, value: string)
    ensures Subst(a + b, name, value) == Subst(a, name, value) + Subst(b, name, value)
  {
    hide SubstPart;
    if a == [] {
      assert a + b == b;
    } else {
      SubstAppend(a[1..], b, name, value);
      assert (a + b)[1..] == a[1..] + b && (a + b)[0] == a[0];
      AssocParts(SubstPart(a[0], name, value), Subst(a[1..], name, value), Subst(b, name, value));
    }
  }

  lemma AssocParts(a: seq<Part>, b: seq<Part>, c: seq<Part>)
    ensures a + (b + c) == a + b + c
  {
  }

  lemma {:induction false} SubstChars(v: string, name: string, value: string)
    ensures Subst(Chars(v), name, value) == Chars(v)
  {
    if v != "" {
      assert Chars(v)[1..] == Chars(v[1..]);
      SubstChars(v[1..], name, value);
      assert Chars(v) == [Chars(v)[0]] + Chars(v)[1..];
    }
  }

  /** Filling one more name. */
  lemma {:induction false} FillOneMore(ps: seq<Part>, values: map<string, string>, name: string, value: string)
    requires name !in values
    ensures Subst(Fill(ps, values), name, value) == Fill(ps, values[name := value])
  {
    if ps != [] {
      var head := FillPart(ps[0], values);
      SubstAppend(head, Fill(ps[1..], values), name, value);
      FillOneMore(ps[1..], values, name, value);
      if ps[0].Hole? && ps[0].name in values {
        SubstChars(values[ps[0].name], name, value);
      } else {
        assert Subst([ps[0]], name, value) == (if ps[0] == Hole(name) then Chars(value) else [ps[0]]) + [];
      }
    }
  }

  // ---------- rendering ----------

  function Escaped(parameters: map<string, string>, names: set<string>): map<string, string> {
    map name | name in parameters && name in names :: PathEscape(parameters[name])
  }

  predicate NamesOk(parameters: map<string, string>) { forall name | name in parameters :: BraceFree(name) }

  function FilledPath(template: string, parameters: map<string, string>): string {
    Unparse(Fill(Parse(template), Escaped(parameters, parameters.Keys)))
  }

  /** One more parameter, on a flat template. */
  lemma ReplaceFills(template: string, values: map<string, string>, name: string, value: string)
    requires Flat(Parse(template)) && AllBraceFree(values) && BraceFree(name) && name !in values
    ensures ReplaceAll(Unparse(Fill(Parse(template), values)), name, value)
         == Unparse(Fill(Parse(template), values[name := value]))
  {
    ParseGives(template);
    FillFlat(Parse(template), values);
    ParseInverts(Fill(Parse(template), values));
    ReplaceIsSubst(Unparse(Fill(Parse(template), values)), name, value);
    FillOneMore(Parse(template), values, name, value);
  }

  lemma EscapedOk(parameters: map<string, string>, names: set<string>)
    requires NamesOk(parameters)
    ensures AllBraceFree(Escaped(parameters, names))
  {
    forall name | name in Escaped(parameters, names) ensures BraceFree(PathEscape(parameters[name])) {
      EscapedBraceFree(Encode8(parameters[name]));
    }
  }

  lemma {:induction false} FillNothing(ps: seq<Part>)
    ensures Fill(ps, map[]) == ps
  {
    if ps != [] { FillNothing(ps[1..]); }
  }

  /** A placeholder of the template that no parameter supplies, or a brace of none. */
  predicate Unsupplied(p: Part, parameters: map<string, string>) {
    p.Loose? || (p.Hole? && p.name !in parameters)
  }

  lemma {:induction false} FilledBraces(ps: seq<Part>, values: map<string, string>)
    requires PartsOk(ps) && AllBraceFree(values)
    ensures BraceFree(Unparse(Fill(ps, values))) <==> forall p | p in ps :: !Unsupplied(p, values)
  {
    if ps != [] {
      FilledBraces(ps[1..], values);
      var rest := Fill(ps[1..], values);
      var head := FillPart(ps[0], values);
      UnparseAppend(head, rest);
      HeadBraces(ps[0], values);
      var (a, b) := (Unparse(head), Unparse(rest));
      BraceFreeAppend(a, b);
      assert ps == [ps[0]] + ps[1..];
    }
  }

  lemma BraceFreeAppend(a: string, b: string)
    ensures BraceFree(a + b) <==> BraceFree(a) && BraceFree(b)
  {
    var c := a + b;
    if BraceFree(c) {
      assert forall i | 0 <= i < |a| :: a[i] == c[i];
      assert forall i | 0 <= i < |b| :: b[i] == c[|a| + i];
    }
  }

  lemma HeadBraces(p: Part, values: map<string, string>)
    requires PartOk(p) && AllBraceFree(values)
    ensures BraceFree(Unparse(FillPart(p, values))) <==> !Unsupplied(p, values)
  {
    if p.Hole? && p.name in values {
      UnparseChars(values[p.name]);
    } else {
      var t := Text(p);
      assert [p][1..] == [] && t + "" == t;
      assert Unparse([p]) == t;
      if !p.Chr? { assert IsBrace(t[0]); }
    }
  }

  /**
   The loop over the parameters, in the order in which the map happens to yield them, and the final check.
   On a flat template the result depends on no order, and it fails exactly when the template has a
   placeholder that was not supplied (or a brace of no placeholder).
   */
  method RenderPath(template: string, parameters: map<string, string>) returns (r: Option<string>)
    ensures Flat(Parse(template)) && NamesOk(parameters) ==>
              && (r.None? <==> exists p :: p in Parse(template) && Unsupplied(p, parameters))
              && (r.Some? ==> r.value == FilledPath(template, parameters))
  {
    hide Parse, Unparse, Fill, Flat, NamesOk, ReplaceAll, Unsupplied, PathEscape;
    var rendered := template;
    var names := parameters.Keys;
    ghost var good := Flat(Parse(template)) && NamesOk(parameters);
    ParseGives(template);
    FillNothing(Parse(template));
    assert Escaped(parameters, {}) == map[];
    while names != {}
      invariant names <= parameters.Keys
      invariant good ==> rendered == Unparse(Fill(Parse(template), Escaped(parameters, parameters.Keys - names)))
      decreases names
    {
      var name :| name in names;
      if good {
        OneMoreName(template, parameters, parameters.Keys - names, name);
        assert parameters.Keys - names + {name} == parameters.Keys - (names - {name});
      }
      rendered := ReplaceAll(rendered, name, PathEscape(parameters[name]));
      names := names - {name};
    }
    assert parameters.Keys - names == parameters.Keys;
    if good { FinalCheck(template, parameters); }
    if Run(rendered) < |rendered| {
      assert !BraceFree(rendered);
      return None;
    }
    assert rendered == rendered[..Run(rendered)];
    return Some(rendered);
  }

  lemma OneMoreName(template: string, parameters: map<string, string>, done: set<string>, name: string)
    requires Flat(Parse(template)) && NamesOk(parameters) && name in parameters && name !in done
    ensures ReplaceAll(Unparse(Fill(Parse(template), Escaped(parameters, done))), name, PathEscape(parameters[name]))
         == Unparse(Fill(Parse(template), Escaped(parameters, done + {name})))
  {
    hide Parse, Unparse, Fill, Flat, ReplaceAll, PathEscape;
    EscapedOk(parameters, done);
    ReplaceFills(template, Escaped(parameters, done), name, PathEscape(parameters[name]));
    assert Escaped(parameters, done)[name := PathEscape(parameters[name])] == Escaped(parameters, done + {name});
  }

  lemma FinalCheck(template: string, parameters: map<string, string>)
    requires NamesOk(parameters)
    ensures BraceFree(FilledPath(template, parameters)) <==>
              !exists p :: p in Parse(template) && Unsupplied(p, parameters)
  {
    hide Parse, Unparse, Fill, PathEscape;
    var values := Escaped(parameters, parameters.Keys);
    ParseGives(template);
    EscapedOk(parameters, parameters.Keys);
    FilledBraces(Parse(template), values);
    assert forall p :: Unsupplied(p, values) <==> Unsupplied(p, parameters);
  }

  // ---------- iteration orders ----------

  /** The loop, with the order of the map's iteration spelled out. */
  function RenderIn(s: string, parameters: map<string, string>, order: seq<string>): string
    requires forall name | name in order :: name in parameters
    decreases |order|
  {
    if order == [] then s
    else RenderIn(ReplaceAll(s, order[0], PathEscape(parameters[order[0]])), parameters, order[1..])
  }

  predicate Distinct(order: seq<string>) { forall i, j | 0 <= i < j < |order| :: order[i] != order[j] }

  /** A possible order of iteration. */
  predicate OrderOf(order: seq<string>, parameters: map<string, string>) {
    && Distinct(order) && (forall name | name in order :: name in parameters)
    && forall name | name in parameters :: name in order
  }

  /** For brace-free names, the rendered path is the same in every order. */
  ghost predicate OrderFree(template: string) {
    forall parameters, a, b | NamesOk(parameters) && OrderOf(a, parameters) && OrderOf(b, parameters) ::
      RenderIn(template, parameters, a) == RenderIn(template, parameters, b)
  }

  lemma {:induction false} RenderInFills(template: string, parameters: map<string, string>, done: set<string>,
                                         order: seq<string>)
    requires Flat(Parse(template)) && NamesOk(parameters) && Distinct(order)
    requires forall name | name in order :: name in parameters && name !in done
    ensures RenderIn(Unparse(Fill(Parse(template), Escaped(parameters, done))), parameters, order)
         == Unparse(Fill(Parse(template), Escaped(parameters, done + set name | name in order)))
    decreases |order|
  {
    hide Parse, Unparse, Fill, Flat, ReplaceAll, PathEscape, Escaped;
    if order == [] {
      assert done + (set name | name in order) == done;
    } else {
      OneMoreName(template, parameters, done, order[0]);
      RenderInFills(template, parameters, done + {order[0]}, order[1..]);
      assert order == [order[0]] + order[1..];
      assert done + {order[0]} + (set name | name in order[1..]) == done + set name | name in order;
    }
  }

  lemma FlatIsOrderFree(template: string)
    requires Flat(Parse(template))
    ensures OrderFree(template)
  {
    hide Parse, Unparse, Fill, Flat, ReplaceAll, PathEscape, RenderIn;
    forall parameters, a, b | NamesOk(parameters) && OrderOf(a, parameters) && OrderOf(b, parameters)
      ensures RenderIn(template, parameters, a) == RenderIn(template, parameters, b)
    {
      ParseGives(template);
      FillNothing(Parse(template));
      assert Escaped(parameters, {}) == map[];
      RenderInFills(template, parameters, {}, a);
      RenderInFills(template, parameters, {}, b);
      assert {} + (set name | name in a) == parameters.Keys == {} + set name | name in b;
    }
  }

  // ---------- templates that are not flat ----------

  /** The innermost loose braces around placeholders. */
  lemma {:induction false} Innermost(ps: seq<Part>, i: nat, j: nat) returns (a: nat, b: nat)
    requires i < j < |ps| && ps[i] == OPEN && ps[j] == CLOSE && PartsOk(ps)
    ensures a < b < |ps| && ps[a] == OPEN && ps[b] == CLOSE && forall k | a < k < b :: !ps[k].Loose?
    decreases j - i
  {
    if k :| i < k < j && ps[k].Loose? {
      assert PartOk(ps[k]);
      if ps[k] == OPEN {
        a, b := Innermost(ps, k, j);
      } else {
        a, b := Innermost(ps, i, k);
      }
    } else {
      a, b := i, j;
    }
  }

  lemma {:induction false} TextThenClose(t: string, k: nat)
    requires k < |Parse(t)| && Parse(t)[k] == CLOSE && forall n | 0 <= n < k :: Parse(t)[n].Chr?
    ensures k < |t| && Run(t) == k && t[k] == '}'
  {
    hide Parse, StartsHole;
    ParseStep(t);
    if k > 0 {
      assert Parse(t)[0].Chr?;
      assert Parse(t)[1..] == Parse(t[1..]);
      assert forall n | 0 <= n < k - 1 :: Parse(t[1..])[n] == Parse(t)[n + 1];
      TextThenClose(t[1..], k - 1);
    }
  }

  /** Between loose braces that face each other there is a placeholder, or they would be one. */
  lemma {:induction false} HoleBetween(s: string, i: nat, j: nat)
    requires i < j < |Parse(s)| && Parse(s)[i] == OPEN && Parse(s)[j] == CLOSE
    requires forall k | i < k < j :: !Parse(s)[k].Loose?
    ensures exists k :: i < k < j && Parse(s)[k].Hole?
    decreases |s|
  {
    hide Parse, Run;
    ParseStep(s);
    var n := if StartsHole(s) then Run(s[1..]) + 2 else 1;
    var rest := Parse(s[n..]);
    assert Parse(s)[1..] == rest;
    if i > 0 {
      assert rest[i - 1] == OPEN && rest[j - 1] == CLOSE;
      assert forall k | i - 1 < k < j - 1 :: rest[k] == Parse(s)[k + 1];
      HoleBetween(s[n..], i - 1, j - 1);
      var k :| i - 1 < k < j - 1 && rest[k].Hole?;
      assert Parse(s)[k + 1].Hole?;
    } else if forall k | 0 < k < j :: !Parse(s)[k].Hole? {
      assert forall k | 0 <= k < j - 1 :: rest[k] == Parse(s)[k + 1];
      TextThenClose(s[1..], j - 1);
      assert false;
    }
  }

  predicate NoLoose(ps: seq<Part>) { forall i | 0 <= i < |ps| :: !ps[i].Loose? }

  lemma {:induction false} ParseRegion(ps: seq<Part>, t: string)
    requires PartsOk(ps) && NoLoose(ps)
    ensures Parse(Unparse(ps) + t) == ps + Parse(t)
  {
    hide Parse, StartsHole, Run, Text;
    if ps == [] {
      assert Unparse(ps) + t == t && ps + Parse(t) == Parse(t);
    } else {
      ParseRegion(ps[1..], t);
      var rest := Unparse(ps[1..]) + t;
      Assoc(Text(ps[0]), Unparse(ps[1..]), t);
      assert PartOk(ps[0]);
      FirstOf(ps[0], rest);
      assert ps + Parse(t) == [ps[0]] + (ps[1..] + Parse(t));
    }
  }

  lemma FirstOf(p: Part, rest: string)
    requires PartOk(p) && !p.Loose?
    ensures Parse(Text(p) + rest) == [p] + Parse(rest)
  {
    hide Parse, StartsHole, Run;
    if p.Hole? { HoleFirst(p.name, rest); } else { OtherFirst(p, rest); }
    ParseStep(Text(p) + rest);
  }

  /** No placeholder reaches across an opening brace. */
  lemma {:induction false} ParseSplits(p: string, t: string)
    requires t != "" && t[0] == '{'
    ensures Parse(p + t) == Parse(p) + Parse(t)
    decreases |p|
  {
    hide Parse, StartsHole, Run;
    var s := p + t;
    ParseStep(s);
    ParseStep(p);
    if p == "" {
      assert s == t;
    } else {
      StartsSplits(p, t);
      if StartsHole(p) {
        var n := Run(p[1..]);
        HoleSplits(p);
        assert s[n + 2..] == p[n + 2..] + t && s[1..n + 1] == p[1..n + 1];
        ParseSplits(p[n + 2..], t);
      } else {
        assert s[1..] == p[1..] + t;
        ParseSplits(p[1..], t);
      }
    }
  }

  lemma StartsSplits(p: string, t: string)
    requires p != "" && t != "" && t[0] == '{'
    ensures StartsHole(p + t) <==> StartsHole(p)
    ensures StartsHole(p) ==> Run((p + t)[1..]) == Run(p[1..])
  {
    RunSplits(p[1..], t);
    assert (p + t)[1..] == p[1..] + t;
  }

  lemma {:induction false} RunSplits(p: string, t: string)
    requires t != "" && t[0] == '{'
    ensures Run(p + t) == Run(p) && (p + t)[Run(p)] == if Run(p) < |p| then p[Run(p)] else '{'
  {
    if p == "" {
      assert p + t == t;
    } else {
      RunSplits(p[1..], t);
      assert (p + t)[1..] == p[1..] + t;
    }
  }

  /** A string with a region of characters and placeholders between braces. */
  function Nested(p: string, region: seq<Part>, t: string): string { p + ("{" + (Unparse(region) + ("}" + t))) }

  /** The braces around a region stay while its text is not the name that is replaced. */
  lemma ReplaceInside(p: string, region: seq<Part>, t: string, name: string, value: string)
    requires PartsOk(region) && NoLoose(region) && BraceFree(name) && Unparse(region) != name
    ensures ReplaceAll(Nested(p, region, t), name, value)
         == Nested(ReplaceAll(p, name, value), Subst(region, name, value), ReplaceAll(t, name, value))
  {
    hide Parse, ReplaceAll, Subst, Unparse;
    var inner := "{" + (Unparse(region) + ("}" + t));
    ParseSplits(p, inner);
    ReplaceIsSubst(p + inner, name, value);
    ReplaceIsSubst(p, name, value);
    SubstAppend(Parse(p), Parse(inner), name, value);
    UnparseAppend(Subst(Parse(p), name, value), Subst(Parse(inner), name, value));
    ReplaceRegion(region, t, name, value);
  }

  lemma ReplaceRegion(region: seq<Part>, t: string, name: string, value: string)
    requires PartsOk(region) && NoLoose(region) && BraceFree(name) && Unparse(region) != name
    ensures Unparse(Subst(Parse("{" + (Unparse(region) + ("}" + t))), name, value))
         == "{" + (Unparse(Subst(region, name, value)) + ("}" + ReplaceAll(t, name, value)))
  {
    hide Parse, ReplaceAll, Subst, Unparse, Text, StartsHole, Run;
    var text, after := Unparse(region), "}" + t;
    var inner := "{" + (text + after);
    ReplaceIsSubst(t, name, value);
    ParseRegion(region, after);
    CloseFirst(t);
    SubstCons(CLOSE, Parse(t), name, value);
    if BraceFree(text) {
      SubstTextOnly(region, name, value);
      HoleFirst(text, t);
      assert inner == "{" + text + "}" + t;
      ParseStep(inner);
      SubstCons(Hole(text), Parse(t), name, value);
      TextOf(text);
      Assoc("{" + text, "}", Unparse(Subst(Parse(t), name, value)));
      Assoc("{", text, "}" + Unparse(Subst(Parse(t), name, value)));
    } else {
      OpenFirst(region, after);
      SubstCons(OPEN, region + Parse(after), name, value);
      SubstAppend(region, Parse(after), name, value);
      UnparseAppend(Subst(region, name, value), Subst(Parse(after), name, value));
      TextOf(text);
    }
  }

  lemma TextOf(name: string)
    ensures Text(Hole(name)) == "{" + name + "}" && Text(OPEN) == "{" && Text(CLOSE) == "}"
  {
  }

  lemma CloseFirst(t: string)
    ensures Parse("}" + t) == [CLOSE] + Parse(t)
  {
    hide Parse;
    ParseStep("}" + t);
    assert ("}" + t)[1..] == t;
  }

  /** Before a region with a placeholder in it, the brace belongs to none. */
  lemma OpenFirst(region: seq<Part>, after: string)
    requires PartsOk(region) && NoLoose(region) && !BraceFree(Unparse(region))
    ensures Parse("{" + (Unparse(region) + after)) == [OPEN] + (region + Parse(after))
  {
    hide Parse, Unparse;
    var text := Unparse(region);
    FirstBrace(region);
    assert text[..|text|] == text;
    RunPrefix(text, after);
    var s := "{" + (text + after);
    assert s[1..] == text + after;
    ParseStep(s);
    ParseRegion(region, after);
  }

  lemma {:induction false} RunPrefix(a: string, b: string)
    requires Run(a) < |a|
    ensures Run(a + b) == Run(a) && (a + b)[Run(a)] == a[Run(a)]
  {
    RunIs(a + b, Run(a)) by { assert (a + b)[..Run(a)] == a[..Run(a)]; }
  }

  lemma SubstCons(p: Part, ps: seq<Part>, name: string, value: string)
    ensures Unparse(Subst([p] + ps, name, value))
         == (if p == Hole(name) then value else Text(p)) + Unparse(Subst(ps, name, value))
  {
    SubstStep([p] + ps, name, value);
    assert ([p] + ps)[1..] == ps;
  }

  lemma HoleBraces(p: Part)
    ensures p.Hole? ==> !BraceFree(Text(p))
  {
    assert Text(p)[0] == '{' || !p.Hole?;
  }

  /** Parts that print no brace hold no placeholder. */
  lemma {:induction false} SubstTextOnly(ps: seq<Part>, name: string, value: string)
    requires PartsOk(ps) && BraceFree(Unparse(ps))
    ensures Unparse(Subst(ps, name, value)) == Unparse(ps)
  {
    if ps != [] {
      BraceFreeAppend(Text(ps[0]), Unparse(ps[1..]));
      SubstTextOnly(ps[1..], name, value);
      SubstStep(ps, name, value);
      HoleBraces(ps[0]);
    }
  }

  // ---------- two orders that differ ----------

  predicate Contains(s: string, name: string) { exists k :: 0 <= k <= |s| && "{" + name + "}" <= s[k..] }

  /** Replacing by something shorter shortens a string that has an occurrence. */
  lemma {:induction false} ReplaceShortens(s: string, name: string, value: string)
    requires |value| < |name| + 2
    ensures |ReplaceAll(s, name, value)| <= |s|
    ensures Contains(s, name) ==> |ReplaceAll(s, name, value)| < |s|
    decreases |s|
  {
    var placeholder := "{" + name + "}";
    if s != "" {
      if placeholder <= s {
        ReplaceShortens(s[|placeholder|..], name, value);
      } else {
        ReplaceShortens(s[1..], name, value);
        if Contains(s, name) {
          assert s[0..] == s;
          var k :| 0 <= k <= |s| && placeholder <= s[k..];
          assert s[k..] == s[1..][k - 1..];
        }
      }
    }
  }

  lemma NestedContains(p: string, region: seq<Part>, t: string)
    ensures Contains(Nested(p, region, t), Unparse(region))
  {
    hide Unparse;
    var s, inner := Nested(p, region, t), "{" + (Unparse(region) + ("}" + t));
    assert s[|p|..] == inner;
    assert inner == "{" + Unparse(region) + "}" + t;
  }

  /** n times the letter a, which is escaped to itself. */
  function Letters(n: nat): string { seq(n, _ => 'a') }

  lemma {:induction false} LettersEscape(n: nat)
    ensures PathEscape(Letters(n)) == Letters(n)
  {
    if n > 0 {
      LettersEscape(n - 1);
      assert Letters(n)[1..] == Letters(n - 1);
      assert Letters(n) == [Letters(n)[0]] + Letters(n)[1..];
    }
  }

  /** Once a placeholder is filled, the text is as long as its value. */
  lemma {:induction false} FillLong(ps: seq<Part>, values: map<string, string>, k: nat)
    requires k < |ps| && ps[k].Hole? && ps[k].name in values
    ensures |Unparse(Fill(ps, values))| >= |values[ps[k].name]|
  {
    var head := FillPart(ps[0], values);
    UnparseAppend(head, Fill(ps[1..], values));
    if k == 0 {
      UnparseChars(values[ps[0].name]);
    } else {
      FillLong(ps[1..], values, k - 1);
    }
  }

  lemma {:induction false} FillNoLoose(ps: seq<Part>, values: map<string, string>)
    requires NoLoose(ps)
    ensures NoLoose(Fill(ps, values))
  {
    if ps != [] { FillNoLoose(ps[1..], values); }
  }

  /** Filling a region with long values never makes its text one of the short names. */
  lemma RegionIsNoName(region: seq<Part>, values: map<string, string>, k: nat, name: string)
    requires PartsOk(region) && AllBraceFree(values) && k < |region| && region[k].Hole? && BraceFree(name)
    requires forall other | other in values :: |name| < |values[other]|
    ensures Unparse(Fill(region, values)) != name
  {
    FilledBraces(region, values);
    if BraceFree(Unparse(Fill(region, values))) {
      assert region[k] in region && !Unsupplied(region[k], values);
      FillLong(region, values, k);
    }
  }

  /** The names of an order are shorter than the escaped values of the given names. */
  predicate AllLong(parameters: map<string, string>, names: set<string>, order: seq<string>) {
    forall name, other | name in order && other in names && other in parameters ::
      |name| < |PathEscape(parameters[other])|
  }

  /** A region between braces stays there while its placeholders are filled. */
  lemma {:induction false} NestedRun(p: string, region: seq<Part>, t: string, parameters: map<string, string>,
                                     done: set<string>, order: seq<string>, k: nat) returns (q: string, u: string)
    requires PartsOk(region) && NoLoose(region) && k < |region| && region[k].Hole? && NamesOk(parameters)
    requires Distinct(order) && forall name | name in order :: name in parameters && name !in done
    requires AllLong(parameters, done + (set name | name in order), order)
    ensures RenderIn(Nested(p, Fill(region, Escaped(parameters, done)), t), parameters, order)
         == Nested(q, Fill(region, Escaped(parameters, done + set name | name in order)), u)
    decreases |order|
  {
    hide Unparse, Fill, ReplaceAll, PathEscape, Escaped, Nested;
    if order == [] {
      q, u := p, t;
      assert done + (set name | name in order) == done;
    } else {
      var name, value := order[0], PathEscape(parameters[order[0]]);
      NestedStep(p, region, t, parameters, done, name, k);
      assert order == [name] + order[1..];
      assert done + {name} + (set n | n in order[1..]) == done + set n | n in order;
      q, u := NestedRun(ReplaceAll(p, name, value), region, ReplaceAll(t, name, value), parameters,
                        done + {name}, order[1..], k);
    }
  }

  lemma NestedStep(p: string, region: seq<Part>, t: string, parameters: map<string, string>, done: set<string>,
                   name: string, k: nat)
    requires PartsOk(region) && NoLoose(region) && k < |region| && region[k].Hole? && NamesOk(parameters)
    requires name in parameters && name !in done
    requires forall other | other in done && other in parameters :: |name| < |PathEscape(parameters[other])|
    ensures var value := PathEscape(parameters[name]);
            ReplaceAll(Nested(p, Fill(region, Escaped(parameters, done)), t), name, value)
            == Nested(ReplaceAll(p, name, value), Fill(region, Escaped(parameters, done + {name})),
                      ReplaceAll(t, name, value))
  {
    hide Unparse, Fill, ReplaceAll, PathEscape, Nested;
    var value, values := PathEscape(parameters[name]), Escaped(parameters, done);
    EscapedOk(parameters, done);
    FillFlat(region, values);
    FillNoLoose(region, values);
    RegionIsNoName(region, values, k, name);
    ReplaceInside(p, Fill(region, values), t, name, value);
    FillOneMore(region, values, name, value);
    assert values[name := value] == Escaped(parameters, done + {name});
  }

  function HoleNames(ps: seq<Part>): set<string> { set i | 0 <= i < |ps| && ps[i].Hole? :: ps[i].name }

  lemma {:induction false} NamesAreShort(ps: seq<Part>)
    ensures forall name | name in HoleNames(ps) :: |name| < |Unparse(ps)|
  {
    if ps != [] {
      NamesAreShort(ps[1..]);
      forall name | name in HoleNames(ps) ensures |name| < |Unparse(ps)| {
        var i :| 0 <= i < |ps| && ps[i].Hole? && ps[i].name == name;
        if i > 0 {
          assert ps[1..][i - 1].name == name;
          assert name in HoleNames(ps[1..]);
        }
      }
    }
  }

  lemma {:induction false} NoSuchHole(ps: seq<Part>, name: string, value: string)
    requires name !in HoleNames(ps)
    ensures Subst(ps, name, value) == ps
  {
    if ps != [] {
      assert ps[0] == Hole(name) ==> name in HoleNames(ps);
      forall i | 0 <= i < |ps[1..]| && ps[1..][i].Hole? ensures ps[1..][i].name in HoleNames(ps) {
        assert ps[i + 1].name == ps[1..][i].name;
      }
      NoSuchHole(ps[1..], name, value);
    }
  }

  lemma {:induction false} RenderLast(s: string, parameters: map<string, string>, order: seq<string>, last: string)
    requires last in parameters && forall name | name in order :: name in parameters
    ensures RenderIn(s, parameters, order + [last])
            == ReplaceAll(RenderIn(s, parameters, order), last, PathEscape(parameters[last]))
    decreases |order|
  {
    hide ReplaceAll, PathEscape;
    if order == [] {
      assert ([] + [last])[1..] == [];
    } else {
      assert (order + [last])[1..] == order[1..] + [last];
      RenderLast(ReplaceAll(s, order[0], PathEscape(parameters[order[0]])), parameters, order[1..], last);
    }
  }

  lemma {:induction false} AllFilled(ps: seq<Part>, values: map<string, string>)
    requires PartsOk(ps) && NoLoose(ps) && AllBraceFree(values) && forall name | name in HoleNames(ps) :: name in values
    ensures BraceFree(Unparse(Fill(ps, values)))
  {
    FilledBraces(ps, values);
    forall p | p in ps ensures !Unsupplied(p, values) {
      var i :| 0 <= i < |ps| && ps[i] == p;
      assert p.Hole? ==> p.name in HoleNames(ps);
    }
  }

  /** Long values for the placeholders of a region. */
  function LongValues(region: seq<Part>, n: nat): map<string, string> {
    map name | name in HoleNames(region) :: Letters(n)
  }

  /** What the region then says. */
  function Trap(region: seq<Part>, n: nat): string { Unparse(Fill(region, LongValues(region, n))) }

  lemma LongValuesOk(region: seq<Part>, n: nat)
    requires PartsOk(region)
    ensures AllBraceFree(LongValues(region, n))
  {
    forall name | name in HoleNames(region) ensures BraceFree(name) {
      var i :| 0 <= i < |region| && region[i].Hole? && region[i].name == name;
      assert PartOk(region[i]);
    }
  }

  lemma TrapOk(region: seq<Part>, n: nat, k: nat)
    requires PartsOk(region) && NoLoose(region) && k < |region| && region[k].Hole?
    ensures BraceFree(Trap(region, n)) && |Trap(region, n)| >= n
  {
    LongValuesOk(region, n);
    AllFilled(region, LongValues(region, n));
    assert region[k].name in HoleNames(region);
    FillLong(region, LongValues(region, n), k);
  }

  /** A parameter named like the trap joins the long values. */
  function TrapParameters(region: seq<Part>, n: nat): map<string, string> {
    LongValues(region, n)[Trap(region, n) := "b"]
  }

  lemma TrapEscaped(region: seq<Part>, n: nat)
    requires Trap(region, n) !in HoleNames(region)
    ensures Escaped(TrapParameters(region, n), HoleNames(region)) == LongValues(region, n)
    ensures PathEscape("b") == "b"
  {
    LettersEscape(n);
    assert BytesOf('b') == ['b' as int] && EscapeBytes(['b' as int]) == "b";
    assert Encode8("b") == BytesOf('b') + Encode8("");
  }

  lemma TemplateNests(ps: seq<Part>, i: nat, j: nat)
    requires i < j < |ps| && ps[i] == OPEN && ps[j] == CLOSE
    ensures Unparse(ps) == Nested(Unparse(ps[..i]), ps[i + 1..j], Unparse(ps[j + 1..]))
  {
    hide Unparse;
    var region, tail := ps[i + 1..j], ps[j + 1..];
    assert ps == ps[..i] + ([OPEN] + (region + ([CLOSE] + tail)));
    UnparseAppend(ps[..i], [OPEN] + (region + ([CLOSE] + tail)));
    UnparseCons(OPEN, region + ([CLOSE] + tail));
    UnparseAppend(region, [CLOSE] + tail);
    UnparseCons(CLOSE, tail);
  }

  /** In a template with loose braces around a placeholder, the order of the trap's parameters matters. */
  lemma TrapSprings(template: string, i: nat, j: nat, k: nat)
    returns (parameters: map<string, string>, a: seq<string>, b: seq<string>)
    requires var ps := Parse(template);
             i < k < j < |ps| && ps[i] == OPEN && ps[j] == CLOSE && ps[k].Hole? && forall n | i < n < j :: !ps[n].Loose?
    ensures NamesOk(parameters) && OrderOf(a, parameters) && OrderOf(b, parameters)
    ensures RenderIn(template, parameters, a) != RenderIn(template, parameters, b)
  {
    hide Parse, Unparse, Fill, ReplaceAll, PathEscape, Nested, RenderIn, Escaped, Trap, LongValues, Contains;
    var ps := Parse(template);
    ParseGives(template);
    var region, long := ps[i + 1..j], |template| + 1;
    var inside, trap := HoleNames(region), Trap(region, long);
    TrapOk(region, long, k - i - 1);
    NamesAreShort(ps);
    forall name | name in inside ensures name in HoleNames(ps) {
      var n :| 0 <= n < |region| && region[n].Hole? && region[n].name == name;
      assert ps[i + 1 + n] == region[n];
    }
    TrapEscaped(region, long);
    parameters := TrapParameters(region, long);
    var names := Sorted(inside);
    a, b := names + [trap], [trap] + names;
    TrapOrders(region, long, names);
    NoSuchHole(ps, trap, "b");
    ReplaceIsSubst(template, trap, "b");
    RenderFirst(template, parameters, trap, names);
    RenderLast(template, parameters, names, trap);
    TemplateNests(ps, i, j);
    FillNothing(region);
    TrapRun(region, long, Unparse(ps[..i]), Unparse(ps[j + 1..]), names, k - i - 1);
    ReplaceShortens(RenderIn(template, parameters, names), trap, "b");
  }

  lemma RenderFirst(s: string, parameters: map<string, string>, first: string, rest: seq<string>)
    requires first in parameters && forall name | name in rest :: name in parameters
    ensures RenderIn(s, parameters, [first] + rest)
            == RenderIn(ReplaceAll(s, first, PathEscape(parameters[first])), parameters, rest)
  {
    hide ReplaceAll, PathEscape;
    assert ([first] + rest)[1..] == rest;
  }

  lemma TrapOrders(region: seq<Part>, n: nat, names: seq<string>)
    requires PartsOk(region) && names == Sorted(HoleNames(region))
    requires Trap(region, n) !in HoleNames(region) && BraceFree(Trap(region, n))
    ensures var parameters, trap := TrapParameters(region, n), Trap(region, n);
            && NamesOk(parameters) && OrderOf(names + [trap], parameters) && OrderOf([trap] + names, parameters)
            && Distinct(names) && parameters[trap] == "b"
            && (forall name | name in names :: name in parameters) && (set name | name in names) == HoleNames(region)
  {
    hide Trap;
    LongValuesOk(region, n);
    forall x, y | 0 <= x < y < |names| ensures names[x] != names[y] {
      LessOrder(names[x], names[y]);
    }
  }

  /** Filling the region spells the trap's placeholder. */
  lemma TrapRun(region: seq<Part>, n: nat, p: string, t: string, names: seq<string>, k: nat)
    requires PartsOk(region) && NoLoose(region) && k < |region| && region[k].Hole?
    requires names == Sorted(HoleNames(region)) && forall name | name in HoleNames(region) :: |name| < n
    requires Trap(region, n) !in HoleNames(region) && BraceFree(Trap(region, n))
    ensures var parameters := TrapParameters(region, n);
            (forall name | name in names :: name in parameters)
            && Contains(RenderIn(Nested(p, region, t), parameters, names), Trap(region, n))
  {
    hide Unparse, Fill, ReplaceAll, PathEscape, Nested, RenderIn, Contains, Escaped;
    hide HoleNames, Trap;
    var parameters := TrapParameters(region, n);
    TrapOrders(region, n, names);
    TrapEscaped(region, n);
    FillNothing(region);
    NothingEscaped(parameters);
    TrapValues(region, n);
    assert {} + (set name | name in names) == HoleNames(region);
    var q, u := NestedRun(p, region, t, parameters, {}, names, k);
    TrapIs(region, n);
    NestedContains(q, Fill(region, LongValues(region, n)), u);
  }

  lemma TrapIs(region: seq<Part>, n: nat)
    ensures Trap(region, n) == Unparse(Fill(region, LongValues(region, n)))
  {
  }

  lemma TrapValues(region: seq<Part>, n: nat)
    requires Trap(region, n) !in HoleNames(region)
    ensures forall name | name in HoleNames(region) ::
              name in TrapParameters(region, n) && |PathEscape(TrapParameters(region, n)[name])| == n
  {
    hide Trap, PathEscape, HoleNames;
    LettersEscape(n);
  }

  lemma NothingEscaped(parameters: map<string, string>)
    ensures Escaped(parameters, {}) == map[]
  {
  }

  /** Rendering is independent of the map's order exactly on the flat templates. */
  lemma OrderFreeIffFlat(template: string)
    ensures OrderFree(template) <==> Flat(Parse(template))
  {
    hide Parse, RenderIn;
    var ps := Parse(template);
    if Flat(ps) {
      FlatIsOrderFree(template);
    } else {
      ParseGives(template);
      var i, j :| 0 <= i < j < |ps| && ps[i] == OPEN && ps[j] == CLOSE;
      i, j := Innermost(ps, i, j);
      HoleBetween(template, i, j);
      var k :| i < k < j && ps[k].Hole?;
      var parameters, a, b := TrapSprings(template, i, j, k);
    }
  }

  /** For example, it matters for a placeholder within braces. */
  lemma NestedTemplateDepends()
    ensures !OrderFree("{{a}}")
  {
    hide Parse, OrderFree, Run;
    var region := [Hole("a")];
    assert region == [Hole("a")] + [];
    UnparseCons(Hole("a"), []);
    assert Unparse(region) == "{a}";
    assert IsBrace("{a}"[0]);
    OpenFirst(region, "}");
    CloseFirst("");
    assert "{" + ("{a}" + "}") == "{{a}}" && "}" + "" == "}";
    var ps := Parse("{{a}}");
    assert ps[0] == OPEN && ps[2] == CLOSE;
    OrderFreeIffFlat("{{a}}");
  }
}
