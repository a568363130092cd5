/** Canonical bytes: one string for each value, the same from both runtimes. */
module CanonicalTheorems {
  import opened Wrappers
  import opened Unicode
  import opened Number
  import opened CanonicalNumber
  import opened Json
  import opened JsonGrammar
  import opened JsonMeaning
  import opened GoCanonical
  import TsCanonical

  /** The value that accepted bytes stand for. */
  function InputValue(round: Rounding, input: seq<Byte>): Option<Value> {
    match Decode8(input) case None => None case Some(text) => Meaning(round, text)
  }

  lemma CanonMeaning(round: Rounding, v: Value)
    requires Settled(round, v)
    ensures Good(CanonCst(v)) && MeaningOf(round, CanonCst(v)) == Some(v)
  {
    hide Emit, Print, CanonCst, Good;
    CanonMeans(round, v);
  }

  lemma CanonSpells(v: Value)
    requires Good(CanonCst(v))
    ensures ReadText(Print(v)) == Some(CanonCst(v))
  {
    hide Emit, Print, CanonCst, Good, ReadText;
    CanonText(v, "");
    assert Print(v) + "" == Print(v);
    var before, after := "", "";
    assert Blanks(before) && Blanks(after) && Print(v) == before + Emit(CanonCst(v), after);
    ReadTextIffSpells(Print(v), CanonCst(v));
  }

  /** The canonical text of a value is a JSON text that means the value. */
  lemma PrintReads(round: Rounding, v: Value)
    requires Settled(round, v)
    ensures Meaning(round, Print(v)) == Some(v)
  {
    hide Print, CanonCst, Good, MeaningOf, ReadText;
    CanonMeaning(round, v);
    CanonSpells(v);
  }

  predicate SettledById(v: Value) { Settled((n: Number) => Some(n), v) }

  lemma {:induction false} AlwaysSettledById(v: Value)
    ensures SettledById(v)
  {
    match v
    case Arr(items) => forall i | 0 <= i < |items| ensures SettledById(items[i]) { AlwaysSettledById(items[i]); }
    case Obj(members) => forall k | k in members ensures SettledById(members[k]) { AlwaysSettledById(members[k]); }
    case _ =>
  }

  /** The printer is uniquely decodable: different values have different canonical texts. */
  lemma PrintInjective(a: Value, b: Value)
    requires Print(a) == Print(b)
    ensures a == b
  {
    AlwaysSettledById(a);
    AlwaysSettledById(b);
    PrintReads((n: Number) => Some(n), a);
    PrintReads((n: Number) => Some(n), b);
  }

  /** Canonical bytes are accepted, keep the value, and canonicalize to themselves. */
  lemma FixedPoint(round: Rounding, input: seq<Byte>)
    requires IsRounding(round) && CanonicalBytes(round, input).Some?
    ensures var out := CanonicalBytes(round, input).value;
            InputValue(round, out) == InputValue(round, input) && CanonicalBytes(round, out) == Some(out)
  {
    var text := Decode8(input).value;
    var v := Meaning(round, text).value;
    DenoteSettles(round, TreeOf(ReadText(text).value));
    PrintReads(round, v);
    Decode8Inverts(Print(v));
  }

  /** json.Marshal, whose bytes stand for the value, with the names in its own order and its own escapes. */
  ghost predicate Marshals(round: Rounding, marshal: Value -> seq<Byte>) {
    forall v | Settled(round, v) :: InputValue(round, marshal(v)) == Some(v)
  }

  /** However a settled value is spelled, its canonical bytes are those of its printed text. */
  lemma MarshalledBytes(round: Rounding, marshal: Value -> seq<Byte>, v: Value)
    requires Marshals(round, marshal) && Settled(round, v)
    ensures CanonicalBytes(round, marshal(v)) == Some(Encode8(Print(v)))
  {
    assert InputValue(round, marshal(v)) == Some(v);
  }

  function PrintBytes(v: Value): seq<Byte> { Encode8(Print(v)) }

  /** The canonical bytes themselves are one such spelling. */
  lemma PrintMarshals(round: Rounding)
    ensures Marshals(round, PrintBytes)
  {
    hide Print, Decode8, Meaning;
    forall v | Settled(round, v) ensures InputValue(round, PrintBytes(v)) == Some(v) {
      PrintReads(round, v);
      Decode8Inverts(Print(v));
    }
  }

  /** Two accepted inputs have the same canonical bytes exactly when they stand for the same value. */
  lemma BytesDecideValues(round: Rounding, a: seq<Byte>, b: seq<Byte>)
    requires CanonicalBytes(round, a).Some? && CanonicalBytes(round, b).Some?
    ensures CanonicalBytes(round, a) == CanonicalBytes(round, b) <==> InputValue(round, a) == InputValue(round, b)
  {
    if CanonicalBytes(round, a) == CanonicalBytes(round, b) {
      var v, w := InputValue(round, a).value, InputValue(round, b).value;
      Encode8Injective(Print(v), Print(w));
      PrintInjective(v, w);
    }
  }

  /**
   An input is accepted exactly when it is the UTF-8 of blanks, one value of the grammar and blanks,
   without lone surrogates, repeated member names or numbers beyond the doubles.
   */
  lemma AcceptedIff(round: Rounding, input: seq<Byte>)
    ensures CanonicalBytes(round, input).Some? <==>
            exists text, c :: input == Encode8(text) && Spells(text, c) && MeaningOf(round, c).Some?
  {
    if CanonicalBytes(round, input).Some? {
      var text := Decode8(input).value;
      Decode8Exact(input);
      ReadTextIffSpells(text, ReadText(text).value);
    }
    if exists text, c :: input == Encode8(text) && Spells(text, c) && MeaningOf(round, c).Some? {
      var text, c :| input == Encode8(text) && Spells(text, c) && MeaningOf(round, c).Some?;
      Decode8Inverts(text);
      ReadTextIffSpells(text, c);
    }
  }

  /** The Go decoder and printer and the TypeScript parser and printer agree on every text. */
  method TwinsAgree(text: string, round: Rounding) returns (go: Option<seq<Byte>>, ts: Option<string>)
    requires IsRounding(round)
    ensures go == match ts case None => None case Some(out) => Some(Encode8(out))
    ensures go == CanonicalBytes(round, Encode8(text))
  {
    Decode8Inverts(text);
    go := CanonicalizeJSON(Encode8(text), round);
    ts := TsCanonical.CanonicalizeJson(text, round);
  }
}
