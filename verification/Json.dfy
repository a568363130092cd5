/**
 JSON values, the member order of section 3.2.3 of RFC 8785, and the canonical text of a value as the printers
 of both runtimes write it.
 */
module Json {
  import opened Wrappers
  import opened Unicode
  import opened Number
  import opened CanonicalNumber

  datatype Json<N> =
    | Null
    | Bool(b: bool)
    | Num(n: N)
    | Str(s: string)
    | Arr(items: seq<Json<N>>)
    | Obj(members: map<string, Json<N>>)

  /** Go's decoded tree keeps number literals; a value holds decimals. */
  type Tree = Json<Literal>
  type Value = Json<Number>

  // ---------- from number literals to doubles ----------

  /** The value a decoded tree denotes; None when a number is beyond the doubles. */
  function Denote(round: Rounding, t: Tree): Option<Value> {
    match t
    case Null => Some(Null)
    case Bool(b) => Some(Bool(b))
    case Num(raw) => (match round(Exact(raw)) case None => None case Some(n) => Some(Num(n)))
    case Str(s) => Some(Str(s))
    case Arr(items) =>
      if forall i | 0 <= i < |items| :: Denote(round, items[i]).Some?
      then Some(Arr(seq(|items|, i requires 0 <= i < |items| => Denote(round, items[i]).value)))
      else None
    case Obj(members) =>
      if forall k | k in members :: Denote(round, members[k]).Some?
      then Some(Obj(map k | k in members :: Denote(round, members[k]).value))
      else None
  }

  /** Every number of the value is a shortest decimal of a double. */
  predicate Settled(round: Rounding, v: Value) {
    match v
    case Num(n) => round(n) == Some(n)
    case Arr(items) => forall i | 0 <= i < |items| :: Settled(round, items[i])
    case Obj(members) => forall k | k in members :: Settled(round, members[k])
    case _ => true
  }

  lemma {:induction false} DenoteSettles(round: Rounding, t: Tree)
    requires IsRounding(round) && Denote(round, t).Some?
    ensures Settled(round, Denote(round, t).value)
  {
    match t
    case Arr(items) =>
      forall i | 0 <= i < |items| ensures Settled(round, Denote(round, items[i]).value) {
        DenoteSettles(round, items[i]);
      }
    case Obj(members) =>
      forall k | k in members ensures Settled(round, Denote(round, members[k]).value) {
        DenoteSettles(round, members[k]);
      }
    case _ =>
  }

  // ---------- member order ----------

  predicate UnitsLess(a: seq<Unit>, b: seq<Unit>) {
    b != [] && (a == [] || a[0] < b[0] || (a[0] == b[0] && UnitsLess(a[1..], b[1..])))
  }

  predicate KeyLess(a: string, b: string) { UnitsLess(Encode16(a), Encode16(b)) }

  lemma {:induction false} UnitsLessOrder(a: seq<Unit>, b: seq<Unit>)
    ensures !(UnitsLess(a, b) && UnitsLess(b, a)) && (UnitsLess(a, b) || a == b || UnitsLess(b, a))
    ensures a == b ==> !UnitsLess(a, b)
  {
    if a != [] && b != [] {
      UnitsLessOrder(a[1..], b[1..]);
      if a[0] == b[0] && a[1..] == b[1..] {
        assert a == [a[0]] + a[1..] == b;
      }
    }
  }

  lemma {:induction false} UnitsLessTransitive(a: seq<Unit>, b: seq<Unit>, c: seq<Unit>)
    requires UnitsLess(a, b) && UnitsLess(b, c)
    ensures UnitsLess(a, c)
  {
    if a != [] && a[0] == b[0] == c[0] {
      UnitsLessTransitive(a[1..], b[1..], c[1..]);
    }
  }

  /** The UTF-16 order of member names is a strict total order: equal units only for equal names. */
  lemma KeyLessOrder(a: string, b: string)
    ensures !KeyLess(a, a) && !(KeyLess(a, b) && KeyLess(b, a))
    ensures KeyLess(a, b) || a == b || KeyLess(b, a)
  {
    UnitsLessOrder(Encode16(a), Encode16(b));
    UnitsLessOrder(Encode16(a), Encode16(a));
    if Encode16(a) == Encode16(b) {
      Encode16Injective(a, b);
    }
  }

  lemma KeyLessTransitive(a: string, b: string, c: string)
    requires KeyLess(a, b) && KeyLess(b, c)
    ensures KeyLess(a, c)
  {
    UnitsLessTransitive(Encode16(a), Encode16(b), Encode16(c));
  }

  // ---------- sorted names ----------

  predicate Ascending(keys: seq<string>) {
    forall i, j | 0 <= i < j < |keys| :: KeyLess(keys[i], keys[j])
  }

  predicate Lists(keys: seq<string>, names: set<string>) {
    (forall i | 0 <= i < |keys| :: keys[i] in names) && (forall k | k in names :: k in keys)
  }

  predicate Least(l: string, names: set<string>) {
    l in names && forall k | k in names :: k == l || KeyLess(l, k)
  }

  lemma {:induction false} LeastExists(names: set<string>) returns (l: string)
    requires names != {}
    ensures Least(l, names)
    decreases names
  {
    var x :| x in names;
    if names == {x} {
      l := x;
    } else {
      var m := LeastExists(names - {x});
      KeyLessOrder(x, m);
      l := if KeyLess(x, m) then x else m;
      forall k | k in names ensures k == l || KeyLess(l, k) {
        if KeyLess(x, m) && k != x && k != m {
          KeyLessTransitive(x, m, k);
        }
      }
    }
  }

  lemma LeastUnique(a: string, b: string, names: set<string>)
    requires Least(a, names) && Least(b, names)
    ensures a == b
  {
    KeyLessOrder(a, b);
  }

  function SortKeys(names: set<string>): (keys: seq<string>)
    ensures Ascending(keys) && Lists(keys, names)
    decreases names
  {
    if names == {} then []
    else
      assert exists l :: l in names && Least(l, names) by { var l := LeastExists(names); }
      assert forall a, b | Least(a, names) && Least(b, names) :: a == b by {
        forall a, b | Least(a, names) && Least(b, names) ensures a == b { LeastUnique(a, b, names); }
      }
      var l :| l in names && Least(l, names);
      [l] + SortKeys(names - {l})
  }

  lemma SortKeysSplits(names: set<string>)
    requires names != {}
    ensures var keys := SortKeys(names);
            keys != [] && Least(keys[0], names) && keys[1..] == SortKeys(names - {keys[0]})
  {
  }

  lemma HeadIsLeast(keys: seq<string>, names: set<string>)
    requires names != {} && Ascending(keys) && Lists(keys, names)
    ensures keys != [] && Least(keys[0], names)
  {
    var k :| k in names;
    assert k in keys;
    forall k | k in names ensures k == keys[0] || KeyLess(keys[0], k) {
      assert k in keys;
    }
  }

  lemma TailLists(keys: seq<string>, names: set<string>)
    requires keys != [] && Ascending(keys) && Lists(keys, names)
    ensures Ascending(keys[1..]) && Lists(keys[1..], names - {keys[0]})
  {
    forall i | 0 <= i < |keys[1..]| ensures keys[1..][i] in names - {keys[0]} {
      KeyLessOrder(keys[0], keys[i + 1]);
    }
    forall k | k in names - {keys[0]} ensures k in keys[1..] {
      assert k in keys;
    }
  }

  /** There is one ascending listing of a set of names. */
  lemma {:induction false} AscendingUnique(keys: seq<string>, names: set<string>)
    requires Ascending(keys) && Lists(keys, names)
    ensures keys == SortKeys(names)
    decreases names
  {
    if names == {} {
      assert keys == [];
    } else {
      HeadIsLeast(keys, names);
      SortKeysSplits(names);
      LeastUnique(keys[0], SortKeys(names)[0], names);
      TailLists(keys, names);
      AscendingUnique(keys[1..], names - {keys[0]});
      assert keys == [keys[0]] + keys[1..];
    }
  }

  // ---------- the canonical text ----------

  function HexChar(d: nat): char
    requires d < 16
  {
    if d < 10 then ('0' as int + d) as char else ('a' as int + (d - 10)) as char
  }

  /** The two hexadecimal digits of a byte. */
  function HexPair(n: nat): (r: string)
    requires n < 0x100
    ensures |r| == 2
  {
    [HexChar(n / 16), HexChar(n % 16)]
  }

  /** What appendString writes for one rune; the same table is QuoteJSONString of ECMAScript. */
  function EscapeChar(c: char): string {
    if c == '"' then "\\\""
    else if c == '\\' then "\\\\"
    else if c as int == 0x08 then "\\b"
    else if c as int == 0x09 then "\\t"
    else if c as int == 0x0A then "\\n"
    else if c as int == 0x0C then "\\f"
    else if c as int == 0x0D then "\\r"
    else if c as int < 0x20 then "\\u00" + HexPair(c as int)
    else [c]
  }

  function EscapeAll(s: string): string {
    if s == "" then "" else EscapeChar(s[0]) + EscapeAll(s[1..])
  }

  function PrintString(s: string): string { "\"" + EscapeAll(s) + "\"" }

  function Print(v: Value): string
    decreases v, 1, 0
  {
    match v
    case Null => "null"
    case Bool(b) => if b then "true" else "false"
    case Num(n) => NumberText(n)
    case Str(s) => PrintString(s)
    case Arr(items) => "[" + PrintItems(items) + "]"
    case Obj(members) => "{" + PrintMembers(v, SortKeys(members.Keys)) + "}"
  }

  function PrintItems(items: seq<Value>): string
    decreases items, 0, 0
  {
    if items == [] then ""
    else Print(items[0]) + ((if |items| == 1 then "" else ",") + PrintItems(items[1..]))
  }

  function PrintMembers(v: Value, keys: seq<string>): string
    requires v.Obj? && forall k | k in keys :: k in v.members
    decreases v, 0, |keys|
  {
    if keys == [] then ""
    else PrintString(keys[0]) + (":" + (Print(v.members[keys[0]])
         + ((if |keys| == 1 then "" else ",") + PrintMembers(v, keys[1..]))))
  }
}
