/** Hexadecimal and the parts of a typed digest's domain, by what they stand for. */
module HexLaws {
  import opened Wrappers
  import opened Unicode
  import opened Number
  import opened Json
  import JsonGrammar
  import opened JsonMeaning
  import opened CanonicalSpelling
  import opened TypedDigest
  import KeyRegistry

  // ---------- hex.DecodeString ----------

  /** The digit at this place of either alphabet. */
  ghost predicate IsDigitOf(c: char, d: nat) { d < 16 && (LOWER_DIGITS[d] == c || UPPER_DIGITS[d] == c) }

  /** Two digits for each byte, in the order of the bytes and the high one first. */
  ghost predicate Spells(s: string, b: seq<Byte>) {
    |s| == 2 * |b| && forall i | 0 <= i < |b| ::
      IsDigitOf(s[2 * i], b[i] / 16) && IsDigitOf(s[2 * i + 1], b[i] % 16)
  }

  ghost predicate LowerSpells(s: string, b: seq<Byte>) {
    |s| == 2 * |b| && forall i | 0 <= i < |b| ::
      s[2 * i] == LOWER_DIGITS[b[i] / 16] && s[2 * i + 1] == LOWER_DIGITS[b[i] % 16]
  }

  lemma PairSpells(b: Byte)
    ensures HexPair(b)[0] == LOWER_DIGITS[b / 16] && HexPair(b)[1] == LOWER_DIGITS[b % 16]
  {
    DigitPlaces(b / 16);
    DigitPlaces(b % 16);
  }

  /** The hexadecimal form spells the bytes in their order. */
  lemma {:induction false} HexSpells(b: seq<Byte>)
    ensures LowerSpells(Hex(b), b)
  {
    hide HexPair;
    if b != [] {
      HexSpells(b[1..]);
      PairSpells(b[0]);
      var s := Hex(b);
      forall i | 0 <= i < |b|
        ensures s[2 * i] == LOWER_DIGITS[b[i] / 16] && s[2 * i + 1] == LOWER_DIGITS[b[i] % 16]
      {
        if i > 0 { assert s[2 * i] == Hex(b[1..])[2 * (i - 1)] && s[2 * i + 1] == Hex(b[1..])[2 * (i - 1) + 1]; }
      }
    }
  }

  lemma HexOnly(s: string, b: seq<Byte>)
    requires LowerSpells(s, b)
    ensures s == Hex(b)
  {
    HexSpells(b);
    forall k | 0 <= k < |s| ensures s[k] == Hex(b)[k] {
      var i := k / 2;
      assert 0 <= i < |b|;
      assert s[2 * i] == Hex(b)[2 * i] && s[2 * i + 1] == Hex(b)[2 * i + 1];
      assert k == 2 * i || k == 2 * i + 1;
    }
  }

  function ValueAt(c: char): (d: nat)
    requires JsonGrammar.IsHex(c)
    ensures IsDigitOf(c, d)
    ensures !('A' <= c <= 'F') ==> LOWER_DIGITS[d] == c
  {
    var n := c as int;
    if '0' <= c <= '9' then n - 0x30 else if 'a' <= c <= 'f' then n - 0x61 + 10 else n - 0x41 + 10
  }

  /** hex.DecodeString, of an even number of digits. */
  function UnHex(s: string): (b: seq<Byte>)
    requires |s| % 2 == 0 && forall i | 0 <= i < |s| :: JsonGrammar.IsHex(s[i])
    ensures |b| == |s| / 2
  {
    seq(|s| / 2, i requires 0 <= i < |s| / 2 => ValueAt(s[2 * i]) * 16 + ValueAt(s[2 * i + 1]))
  }

  lemma UnHexSpells(s: string)
    requires |s| % 2 == 0 && forall i | 0 <= i < |s| :: JsonGrammar.IsHex(s[i])
    ensures Spells(s, UnHex(s))
    ensures (forall i | 0 <= i < |s| :: !('A' <= s[i] <= 'F')) ==> LowerSpells(s, UnHex(s))
  {
    var b := UnHex(s);
    forall i | 0 <= i < |b| ensures b[i] / 16 == ValueAt(s[2 * i]) && b[i] % 16 == ValueAt(s[2 * i + 1]) {
      Nibbles(ValueAt(s[2 * i]), ValueAt(s[2 * i + 1]));
    }
  }

  lemma Nibbles(d: nat, e: nat)
    requires d < 16 && e < 16
    ensures (d * 16 + e) / 16 == d && (d * 16 + e) % 16 == e
  {
  }

  lemma SpelledIsHex(s: string, b: seq<Byte>)
    requires Spells(s, b)
    ensures |s| % 2 == 0 && forall k | 0 <= k < |s| :: JsonGrammar.IsHex(s[k])
    ensures LowerSpells(s, b) ==> forall k | 0 <= k < |s| :: IsHexDigit(s[k])
  {
    forall k | 0 <= k < |s| ensures JsonGrammar.IsHex(s[k]) && (LowerSpells(s, b) ==> IsHexDigit(s[k])) {
      var i := k / 2;
      assert k == 2 * i || k == 2 * i + 1;
      var d := if k == 2 * i then b[i] / 16 else b[i] % 16;
      assert IsDigitOf(s[k], d);
      Lexemes(s[k]);
      InDigits(s[k]);
      InDigits(LOWER_DIGITS[d]);
      DigitPlaces(d);
    }
  }

  /** isSHA256Hex takes exactly the hexadecimal forms of 32 bytes. */
  lemma Sha256HexIff(s: string)
    ensures IsSha256Hex(s) <==> exists b: seq<Byte> :: |b| == 32 && s == Hex(b)
  {
    if IsSha256Hex(s) {
      UnHexSpells(s);
      HexOnly(s, UnHex(s));
    }
    if b: seq<Byte> :| |b| == 32 && s == Hex(b) {
      HexDigits(b);
    }
  }

  /** A registry hash decodes to 32 bytes, in either case. */
  lemma Hash32Iff(s: string)
    ensures KeyRegistry.IsHash32(s) <==> exists b: seq<Byte> :: |b| == 32 && Spells(s, b)
  {
    if KeyRegistry.IsHash32(s) { UnHexSpells(s); }
    if b: seq<Byte> :| |b| == 32 && Spells(s, b) { SpelledIsHex(s, b); }
  }

  // ---------- the domain ----------

  const LETTERS := "abcdefghijklmnopqrstuvwxyz"

  lemma LetterIff(c: char)
    ensures c in LETTERS <==> 'a' <= c <= 'z'
  {
    if 'a' <= c <= 'z' { assert LETTERS[c as int - 0x61] == c; }
  }

  /** A letter, a digit, or one of `_-`. */
  predicate TokenSymbol(c: char) { c in LETTERS || c in LOWER_DIGITS[..10] || c in "_-" }

  lemma TokenCharIff(c: char)
    ensures TokenChar(c) <==> TokenSymbol(c)
  {
    LetterIff(c);
    InDigits(c);
  }

  /** A domain token has 1 to 96 of the token characters. */
  lemma DomainTokenIff(s: string)
    ensures ValidDomainToken(s) <==> 1 <= |s| <= 96 && forall i | 0 <= i < |s| :: TokenSymbol(s[i])
  {
    forall i | 0 <= i < |s| ensures TokenChar(s[i]) <==> TokenSymbol(s[i]) { TokenCharIff(s[i]); }
  }

  function Decimal(n: nat): string { DigitsText(DigitsOf(n)) }

  function VersionText(a: nat, b: nat, c: nat): string { Decimal(a) + "." + Decimal(b) + "." + Decimal(c) }

  lemma {:induction false} DigitsPlain(ds: seq<Digit>)
    ensures forall i | 0 <= i < |ds| :: '0' <= DigitsText(ds)[i] <= '9' && DigitsText(ds)[i] == DigitChar(ds[i])
  {
    if ds != [] {
      DigitsPlain(ds[1..]);
      forall i | 0 <= i < |ds| ensures DigitsText(ds)[i] == DigitChar(ds[i]) {
        if i > 0 { assert DigitsText(ds)[i] == DigitsText(ds[1..])[i - 1]; }
      }
    }
  }

  lemma DecimalIsPart(n: nat)
    ensures VersionPart(Decimal(n))
  {
    DigitsPlain(DigitsOf(n));
    DigitsShort(n);
  }

  lemma DigitsShort(n: nat)
    ensures |DigitsOf(n)| > 1 ==> DigitsOf(n)[0] != 0
  {
  }

  function DigitsIn(p: string): (ds: seq<Digit>)
    requires forall i | 0 <= i < |p| :: '0' <= p[i] <= '9'
    ensures |ds| == |p|
  {
    seq(|p|, i requires 0 <= i < |p| => p[i] as int - '0' as int)
  }

  lemma PartIsDecimal(p: string)
    requires VersionPart(p)
    ensures p == Decimal(NatOf(DigitsIn(p)))
  {
    var ds := DigitsIn(p);
    DigitsPlain(ds);
    assert DigitsText(ds) == p;
    OneDigits(ds);
  }

  /** Digits without a leading zero are those of their number. */
  lemma {:induction false} OneDigits(ds: seq<Digit>)
    requires ds != [] && (|ds| > 1 ==> ds[0] != 0)
    ensures DigitsOf(NatOf(ds)) == ds
  {
    hide NatOf, DigitsOf;
    var init, last := ds[..|ds| - 1], ds[|ds| - 1];
    LastDigit(ds);
    DigitsOfTen(NatOf(init), last);
    assert ds == init + [last];
    if |ds| > 1 {
      OneDigits(init);
      LeadsPositive(init);
    } else {
      assert init == [];
      NatOfNone();
    }
  }

  lemma LastDigit(ds: seq<Digit>)
    requires ds != []
    ensures NatOf(ds) == NatOf(ds[..|ds| - 1]) * 10 + ds[|ds| - 1]
  {
  }

  lemma NatOfNone()
    ensures NatOf([]) == 0
  {
  }

  lemma DigitsOfTen(n: nat, d: Digit)
    ensures DigitsOf(n * 10 + d) == if n == 0 then [d] else DigitsOf(n) + [d]
  {
    assert (n * 10 + d) / 10 == n && (n * 10 + d) % 10 == d;
  }

  lemma {:induction false} LeadsPositive(ds: seq<Digit>)
    requires ds != [] && ds[0] != 0
    ensures NatOf(ds) > 0
  {
    if |ds| > 1 { LeadsPositive(ds[..|ds| - 1]); }
  }

  // ---------- strings.Split ----------

  lemma {:induction false} SplitPlain(p: string, rest: string, sep: char)
    requires sep !in p
    ensures Split(p + [sep] + rest, sep) == [p] + Split(rest, sep)
    ensures Split(p, sep) == [p]
  {
    if p == "" {
      assert (p + [sep] + rest)[1..] == rest;
    } else {
      SplitPlain(p[1..], rest, sep);
      assert (p + [sep] + rest)[1..] == p[1..] + [sep] + rest;
      assert [p[0]] + p[1..] == p;
    }
  }

  /** Joined again, the parts are the text. */
  lemma {:induction false} SplitJoins(s: string, sep: char)
    ensures var parts := Split(s, sep);
            if |parts| == 1 then s == parts[0] && sep !in s
            else exists rest :: s == parts[0] + [sep] + rest && Split(rest, sep) == parts[1..] && sep !in parts[0]
  {
    if s != "" {
      var tail := Split(s[1..], sep);
      SplitJoins(s[1..], sep);
      if s[0] == sep {
        assert s == "" + [sep] + s[1..];
      } else if |tail| > 1 {
        var rest :| s[1..] == tail[0] + [sep] + rest && Split(rest, sep) == tail[1..] && sep !in tail[0];
        assert s == ([s[0]] + tail[0]) + [sep] + rest;
      } else {
        assert s == [s[0]] + s[1..];
      }
    }
  }

  lemma NoDot(n: nat)
    ensures '.' !in Decimal(n)
  {
    DigitsPlain(DigitsOf(n));
  }

  /** A schema version is three decimal numbers between dots, as they are written in canonical form. */
  lemma SchemaVersionIff(s: string)
    ensures ValidSchemaVersion(s) <==> exists a, b, c :: s == VersionText(a, b, c)
  {
    hide Split, VersionPart, Decimal;
    if ValidSchemaVersion(s) {
      var parts := Split(s, '.');
      SplitJoins(s, '.');
      var rest :| s == parts[0] + ['.'] + rest && Split(rest, '.') == parts[1..];
      SplitJoins(rest, '.');
      var last :| rest == parts[1] + ['.'] + last && Split(last, '.') == parts[1..][1..];
      SplitJoins(last, '.');
      var a := PartNumber(parts[0]);
      var b := PartNumber(parts[1]);
      var c := PartNumber(parts[2]);
      assert s == VersionText(a, b, c);
    }
    if a, b, c :| s == VersionText(a, b, c) {
      SplitVersion(a, b, c);
      DecimalIsPart(a);
      DecimalIsPart(b);
      DecimalIsPart(c);
    }
  }

  lemma PartNumber(p: string) returns (n: nat)
    requires VersionPart(p)
    ensures p == Decimal(n)
  {
    PartIsDecimal(p);
    n := NatOf(DigitsIn(p));
  }

  lemma SplitVersion(a: nat, b: nat, c: nat)
    ensures Split(VersionText(a, b, c), '.') == [Decimal(a), Decimal(b), Decimal(c)]
  {
    hide Split, Decimal;
    NoDot(a);
    NoDot(b);
    NoDot(c);
    var rest := Decimal(b) + "." + Decimal(c);
    assert VersionText(a, b, c) == Decimal(a) + ['.'] + rest;
    SplitPlain(Decimal(a), rest, '.');
    SplitPlain(Decimal(b), Decimal(c), '.');
    SplitPlain(Decimal(c), "", '.');
  }
}
