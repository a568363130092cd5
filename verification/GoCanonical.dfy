/** The printer of canonical.go, and CanonicalizeJSON: check the bytes, decode, print. */
module GoCanonical {
  import opened Wrappers
  import opened Unicode
  import opened Number
  import opened CanonicalNumber
  import opened Json
  import opened JsonGrammar
  import opened JsonMeaning
  import opened GoDecoder
  import SurrogateScan

  /** bytes.Buffer, holding text. */
  class Buffer {
    var text: string

    constructor ()
      ensures text == ""
    {
      text := "";
    }

    method WriteString(s: string)
      modifies this
      ensures text == old(text) + s
    {
      text := text + s;
    }
  }

  // ---------- utf16Less ----------

  lemma {:induction false} UnitsLessAt(a: seq<Unit>, b: seq<Unit>, i: nat)
    requires i <= |a| && i <= |b| && a[..i] == b[..i]
    ensures UnitsLess(a, b) == UnitsLess(a[i..], b[i..])
  {
    if i > 0 {
      assert a[0] == a[..i][0] == b[..i][0] == b[0];
      assert a[1..][..i - 1] == a[..i][1..] == b[..i][1..] == b[1..][..i - 1];
      UnitsLessAt(a[1..], b[1..], i - 1);
      assert a[1..][i - 1..] == a[i..] && b[1..][i - 1..] == b[i..];
    }
  }

  method Utf16Less(left: string, right: string) returns (less: bool)
    ensures less == KeyLess(left, right)
  {
    var leftUnits, rightUnits := Encode16(left), Encode16(right);
    var limit := |leftUnits|;
    if |rightUnits| < limit {
      limit := |rightUnits|;
    }
    var index := 0;
    while index < limit
      invariant 0 <= index <= limit && leftUnits[..index] == rightUnits[..index]
    {
      if leftUnits[index] != rightUnits[index] {
        UnitsLessAt(leftUnits, rightUnits, index);
        return leftUnits[index] < rightUnits[index];
      }
      index := index + 1;
    }
    UnitsLessAt(leftUnits, rightUnits, limit);
    return |leftUnits| < |rightUnits|;
  }

  // ---------- the member names in order ----------

  predicate NoRepeats(keys: seq<string>) {
    forall i, j | 0 <= i < j < |keys| :: keys[i] != keys[j]
  }

  /** The names in the unspecified order of a map iteration. */
  method MapKeys(members: map<string, Tree>) returns (keys: seq<string>)
    ensures NoRepeats(keys) && Lists(keys, members.Keys)
  {
    keys := [];
    var remaining := members.Keys;
    while remaining != {}
      invariant remaining <= members.Keys && NoRepeats(keys) && Lists(keys, members.Keys - remaining)
      decreases remaining
    {
      var key :| key in remaining;
      keys := keys + [key];
      remaining := remaining - {key};
    }
  }

  /** sort.Slice with utf16Less: any algorithm has this result, since one ascending listing exists. */
  method SortSlice(keys: seq<string>, ghost names: set<string>) returns (sorted: seq<string>)
    requires NoRepeats(keys) && Lists(keys, names)
    ensures sorted == SortKeys(names)
  {
    sorted := [];
    var count := 0;
    while count < |keys|
      invariant 0 <= count <= |keys| && Ascending(sorted)
      invariant Lists(sorted, set i | 0 <= i < count :: keys[i])
    {
      ghost var before := set i | 0 <= i < count :: keys[i];
      assert keys[count] !in before;
      sorted := Insert(sorted, keys[count], before);
      assert before + {keys[count]} == set i | 0 <= i < count + 1 :: keys[i];
      count := count + 1;
    }
    assert (set i | 0 <= i < |keys| :: keys[i]) == names;
    AscendingUnique(sorted, names);
  }

  method Insert(sorted: seq<string>, key: string, ghost names: set<string>) returns (r: seq<string>)
    requires Ascending(sorted) && Lists(sorted, names) && key !in names
    ensures Ascending(r) && Lists(r, names + {key})
  {
    hide UnitsLess, Encode16, KeyLess;
    var at := 0;
    while at < |sorted|
      invariant 0 <= at <= |sorted|
      invariant forall i | 0 <= i < at :: KeyLess(sorted[i], key)
    {
      var less := Utf16Less(sorted[at], key);
      if !less { break; }
      at := at + 1;
    }
    forall i | at <= i < |sorted| ensures KeyLess(key, sorted[i]) {
      KeyLessOrder(sorted[at], key);
      if at < i {
        KeyLessTransitive(key, sorted[at], sorted[i]);
      }
    }
    r := sorted[..at] + [key] + sorted[at..];
    forall k | k in names + {key} ensures k in r {
      if k != key {
        var i :| 0 <= i < |sorted| && sorted[i] == k;
        assert if i < at then r[i] == k else r[i + 1] == k;
      } else {
        assert r[at] == key;
      }
    }
  }

  // ---------- the printer ----------

  method AppendString(output: Buffer, value: string)
    modifies output
    ensures output.text == old(output.text) + PrintString(value)
  {
    hide EscapeChar;
    output.WriteString("\"");
    var index := 0;
    while index < |value|
      invariant 0 <= index <= |value|
      invariant output.text + EscapeAll(value[index..]) == old(output.text) + "\"" + EscapeAll(value)
    {
      assert value[index..][1..] == value[index + 1..];
      Assoc(output.text, EscapeChar(value[index]), EscapeAll(value[index + 1..]));
      output.WriteString(EscapeChar(value[index]));
      index := index + 1;
    }
    assert output.text + "" == output.text;
    output.WriteString("\"");
  }

  method AppendCanonical(output: Buffer, value: Tree, round: Rounding) returns (ok: bool)
    requires IsRounding(round)
    modifies output
    ensures ok == Denote(round, value).Some?
    ensures ok ==> output.text == old(output.text) + Print(Denote(round, value).value)
    decreases value, 1
  {
    match value
    case Null =>
      output.WriteString("null");
      ok := true;
    case Bool(b) =>
      output.WriteString(if b then "true" else "false");
      ok := true;
    case Str(s) =>
      AppendString(output, s);
      ok := true;
    case Num(raw) =>
      CanonicalNumberIsLayout(round, raw);
      var number := CanonicalNumberText(round, raw);
      if number.Some? {
        output.WriteString(number.value);
      }
      ok := number.Some?;
    case Arr(_) =>
      ok := AppendArray(output, value, round);
    case Obj(_) =>
      ok := AppendObject(output, value, round);
  }

  method AppendArray(output: Buffer, value: Tree, round: Rounding) returns (ok: bool)
    requires value.Arr? && IsRounding(round)
    modifies output
    ensures ok == Denote(round, value).Some?
    ensures ok ==> output.text == old(output.text) + Print(Denote(round, value).value)
    decreases value, 0, 1
  {
    output.WriteString("[");
    ok := AppendElements(output, value, round);
    if !ok { return false; }
    ArrayDenotes(round, value.items);
    output.WriteString("]");
    ghost var text := PrintItems(DenotedItems(round, value.items));
    Assoc(old(output.text), "[", text);
    Assoc(old(output.text), "[" + text, "]");
  }

  /** The elements' values, with null for one that has none. */
  ghost function DenotedItems(round: Rounding, items: seq<Tree>): seq<Value> {
    seq(|items|, i requires 0 <= i < |items| => Denote(round, items[i]).GetOr(Null))
  }

  lemma ArrayDenotes(round: Rounding, items: seq<Tree>)
    requires forall i | 0 <= i < |items| :: Denote(round, items[i]).Some?
    ensures Denote(round, Arr(items)) == Some(Arr(DenotedItems(round, items)))
  {
    assert DenotedItems(round, items) == seq(|items|, i requires 0 <= i < |items| => Denote(round, items[i]).value);
  }

  method AppendElements(output: Buffer, value: Tree, round: Rounding) returns (ok: bool)
    requires value.Arr? && IsRounding(round)
    modifies output
    ensures ok == forall i | 0 <= i < |value.items| :: Denote(round, value.items[i]).Some?
    ensures ok ==> output.text == old(output.text) + PrintItems(DenotedItems(round, value.items))
    decreases value, 0, 0
  {
    hide Denote, Print;
    var items := value.items;
    ghost var denoted := DenotedItems(round, items);
    var index := 0;
    while index < |items|
      invariant 0 <= index <= |items|
      invariant forall i | 0 <= i < index :: Denote(round, items[i]).Some?
      invariant output.text + Separator(index, |items|) + PrintItems(denoted[index..])
             == old(output.text) + PrintItems(denoted)
    {
      ghost var before := output.text;
      if index > 0 {
        output.WriteString(",");
      }
      assert output.text == before + Separator(index, |items|);
      var child := AppendCanonical(output, items[index], round);
      if !child { return false; }
      ItemsPrintStep(denoted, index, before);
      index := index + 1;
    }
    assert output.text + "" + "" == output.text;
    return true;
  }

  /** The comma that precedes an element, once there is one before it. */
  function Separator(index: int, count: int): string { if 0 < index < count then "," else "" }

  lemma ItemsPrintStep(items: seq<Value>, index: nat, before: string)
    requires index < |items|
    ensures before + Separator(index, |items|) + PrintItems(items[index..])
         == before + Separator(index, |items|) + Print(items[index])
            + Separator(index + 1, |items|) + PrintItems(items[index + 1..])
  {
    var head, sep, rest := Print(items[index]), Separator(index + 1, |items|), PrintItems(items[index + 1..]);
    assert items[index..][1..] == items[index + 1..];
    assert PrintItems(items[index..]) == head + (sep + rest);
    var b := before + Separator(index, |items|);
    Assoc(b + head, sep, rest);
    Assoc(b, head, sep + rest);
  }

  /** The members' values, with null for one that has none. */
  ghost function Denoted(round: Rounding, members: map<string, Tree>): (v: Value)
    ensures v.Obj? && v.members.Keys == members.Keys
    ensures forall k | k in members && Denote(round, members[k]).Some? ::
              Denote(round, members[k]).value == v.members[k]
  {
    Obj(map k | k in members :: Denote(round, members[k]).GetOr(Null))
  }

  lemma DenotedIs(round: Rounding, members: map<string, Tree>)
    ensures Denote(round, Obj(members)).Some? <==> forall k | k in members :: Denote(round, members[k]).Some?
    ensures Denote(round, Obj(members)).Some? ==> Denote(round, Obj(members)) == Some(Denoted(round, members))
  {
    if forall k | k in members :: Denote(round, members[k]).Some? {
      assert Denoted(round, members).members == map k | k in members :: Denote(round, members[k]).value;
    }
  }

  lemma ObjectDenotes(round: Rounding, members: map<string, Tree>)
    ensures var keys := SortKeys(members.Keys);
            && (forall k | k in keys :: k in members)
            && (Denote(round, Obj(members)).Some? <==>
                forall i | 0 <= i < |keys| :: Denote(round, members[keys[i]]).Some?)
            && (Denote(round, Obj(members)).Some? ==>
                  && Denote(round, Obj(members)) == Some(Denoted(round, members))
                  && Print(Denoted(round, members)) == "{" + PrintMembers(Denoted(round, members), keys) + "}")
  {
    hide PrintMembers, Denote, Denoted, SortKeys;
    DenotedIs(round, members);
    var keys := SortKeys(members.Keys);
    assert forall i | 0 <= i < |keys| :: keys[i] in members;
    if forall i | 0 <= i < |keys| :: Denote(round, members[keys[i]]).Some? {
      forall k | k in members ensures Denote(round, members[k]).Some? {
        assert k in keys;
        var i :| 0 <= i < |keys| && keys[i] == k;
      }
    }
  }

  /** Writes a member: its separator, name, colon and value. */
  method AppendMember(output: Buffer, first: bool, key: string, value: Tree, round: Rounding) returns (ok: bool)
    requires IsRounding(round)
    modifies output
    ensures ok == Denote(round, value).Some?
    ensures ok ==> output.text == old(output.text) + (if first then "" else ",") + PrintString(key) + ":"
                                  + Print(Denote(round, value).value)
    decreases value, 2
  {
    ghost var before := output.text;
    if !first {
      output.WriteString(",");
    }
    assert output.text == before + (if first then "" else ",");
    AppendString(output, key);
    output.WriteString(":");
    ok := AppendCanonical(output, value, round);
  }

  method AppendObject(output: Buffer, value: Tree, round: Rounding) returns (ok: bool)
    requires value.Obj? && IsRounding(round)
    modifies output
    ensures ok == Denote(round, value).Some?
    ensures ok ==> output.text == old(output.text) + Print(Denote(round, value).value)
    decreases value, 0, 1
  {
    hide Denote, Print, PrintMembers, Denoted;
    var members := value.members;
    var keys := MapKeys(members);
    keys := SortSlice(keys, members.Keys);
    output.WriteString("{");
    ObjectDenotes(round, members);
    ok := AppendMembers(output, value, keys, round);
    if !ok { return false; }
    output.WriteString("}");
    ghost var text := PrintMembers(Denoted(round, members), keys);
    Assoc(old(output.text), "{", text);
    Assoc(old(output.text), "{" + text, "}");
  }

  method AppendMembers(output: Buffer, value: Tree, keys: seq<string>, round: Rounding) returns (ok: bool)
    requires value.Obj? && IsRounding(round) && forall k | k in keys :: k in value.members
    modifies output
    ensures ok == forall i | 0 <= i < |keys| :: Denote(round, value.members[keys[i]]).Some?
    ensures ok ==> output.text == old(output.text) + PrintMembers(Denoted(round, value.members), keys)
    decreases value, 0, 0
  {
    ghost var v := Denoted(round, value.members);
    var index := 0;
    while index < |keys|
      invariant 0 <= index <= |keys|
      invariant forall i | 0 <= i < index :: Denote(round, value.members[keys[i]]).Some?
      invariant output.text + Separator(index, |keys|) + PrintMembers(v, keys[index..])
             == old(output.text) + PrintMembers(v, keys)
    {
      ghost var before := output.text;
      var key := keys[index];
      var child := AppendMember(output, index == 0, key, value.members[key], round);
      if !child { return false; }
      MembersPrintStep(v, keys, index, before);
      index := index + 1;
    }
    assert output.text + "" + "" == output.text;
    return true;
  }

  lemma MembersPrintStep(v: Value, keys: seq<string>, index: nat, before: string)
    requires v.Obj? && index < |keys| && forall k | k in keys :: k in v.members
    ensures before + Separator(index, |keys|) + PrintMembers(v, keys[index..])
         == before + Separator(index, |keys|) + PrintString(keys[index]) + ":" + Print(v.members[keys[index]])
            + Separator(index + 1, |keys|) + PrintMembers(v, keys[index + 1..])
  {
    var name, head := PrintString(keys[index]), Print(v.members[keys[index]]);
    var sep, rest := Separator(index + 1, |keys|), PrintMembers(v, keys[index + 1..]);
    assert keys[index..][1..] == keys[index + 1..];
    assert PrintMembers(v, keys[index..]) == name + (":" + (head + (sep + rest)));
    var b := before + Separator(index, |keys|);
    Assoc(b + name + ":" + head, sep, rest);
    Assoc(b + name + ":", head, sep + rest);
    Assoc(b + name, ":", head + (sep + rest));
    Assoc(b, name, ":" + (head + (sep + rest)));
  }

  // ---------- CanonicalizeJSON ----------

  /** The canonical text of a JSON text, if it is an accepted one. */
  function CanonicalText(round: Rounding, text: string): Option<string> {
    match Meaning(round, text) case None => None case Some(v) => Some(Print(v))
  }

  /** The canonical bytes: the input must be UTF-8 and an accepted text. */
  function CanonicalBytes(round: Rounding, input: seq<Byte>): Option<seq<Byte>> {
    match Decode8(input)
    case None => None
    case Some(text) =>
      match CanonicalText(round, text) case None => None case Some(out) => Some(Encode8(out))
  }

  /** What the scan for lone surrogates, the decoder and the checks behind it make of a text. */
  lemma MeaningByDecoder(round: Rounding, text: string, lone: bool)
    requires lone == SurrogateScan.ScanOutside(Encode8(text))
    ensures Meaning(round, text)
         == match ValueOutcome(SkipBlank(text))
            case None => None
            case Some((t, rest)) => if lone || SkipBlank(rest) != "" then None else Denote(round, t)
  {
    hide ReadValue, Denote, Clean, Distinct, TreeOf, Encode8, SurrogateScan.ScanOutside;
    if ReadText(text).Some? {
      SurrogateScan.ScanText(text, ReadText(text).value);
    }
  }

  method CanonicalizeJSON(input: seq<Byte>, round: Rounding) returns (r: Option<seq<Byte>>)
    requires IsRounding(round)
    ensures r == CanonicalBytes(round, input)
  {
    hide Meaning, ValueOutcome, Denote, Print, Encode8, SurrogateScan.ScanOutside;
    var text := Decode8(input);
    if text.None? {
      return None;
    }
    Decode8Exact(input);
    var lone := SurrogateScan.HasLoneSurrogateEscape(input);
    MeaningByDecoder(round, text.value, lone);
    if lone {
      return None;
    }
    var decoder := new Decoder(text.value);
    var value := DecodeValue(decoder);
    if value.None? {
      return None;
    }
    var more := decoder.More();
    if more || decoder.Rest() != "" {
      return None;
    }
    var output := new Buffer();
    var ok := AppendCanonical(output, value.value, round);
    if !ok {
      return None;
    }
    assert "" + Print(Denote(round, value.value).value) == Print(Denote(round, value.value).value);
    return Some(Encode8(output.text));
  }
}
