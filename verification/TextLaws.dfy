/** The base64 alphabet and path escapes, by what they stand for. */
module TextLaws {
  import opened Unicode
  import opened CanonicalSpelling
  import HexLaws
  import Base64
  import PathTemplate

  const CAPITALS := "ABCDEFGHIJKLMNOPQRSTUVWXYZ"

  lemma CapitalIff(c: char)
    ensures c in CAPITALS <==> 'A' <= c <= 'Z'
  {
    if 'A' <= c <= 'Z' { assert CAPITALS[c as int - 0x41] == c; }
  }

  // ---------- base64 ----------

  /** Table 1 of RFC 4648. */
  const ALPHABET := CAPITALS + HexLaws.LETTERS + LOWER_DIGITS[..10] + "+/"

  lemma AlphabetIs(s: Base64.Sextet)
    ensures |ALPHABET| == 64 && Base64.CharOf(s) == ALPHABET[s]
  {
    if s < 26 { assert CAPITALS[s] == (0x41 + s as int) as char; }
    if 26 <= s < 52 { assert HexLaws.LETTERS[s - 26] == (0x61 + s as int - 26) as char; }
    if 52 <= s < 62 { assert LOWER_DIGITS[s - 52] == (0x30 + s as int - 52) as char; }
  }

  predicate Alphabetic(c: char) {
    c in CAPITALS || c in HexLaws.LETTERS || c in LOWER_DIGITS[..10] || c == '+' || c == '/'
  }

  lemma AlphabeticIff(c: char)
    ensures Base64.InAlphabet(c) <==> Alphabetic(c)
  {
    CapitalIff(c);
    HexLaws.LetterIff(c);
    InDigits(c);
  }

  /** Two characters and two equals signs, or three and one. */
  predicate Tail(s: string) {
    && |s| == 4 && Alphabetic(s[0]) && Alphabetic(s[1])
    && (s[2..] == "==" || (Alphabetic(s[2]) && s[3..] == "="))
  }

  lemma TailIff(s: string)
    ensures Base64.PaddedChars(s) <==> Tail(s)
  {
    hide Alphabetic, Base64.InAlphabet;
    if |s| == 4 {
      AlphabeticIff(s[0]);
      AlphabeticIff(s[1]);
      AlphabeticIff(s[2]);
      assert s[2..] == [s[2], s[3]] && s[3..] == [s[3]];
    }
  }

  /** Groups of four characters, and a padded one or none. */
  ghost predicate Grouped(s: string, n: nat) {
    && 4 * n <= |s| && (forall i | 0 <= i < 4 * n :: Alphabetic(s[i]))
    && (s[4 * n..] == "" || Tail(s[4 * n..]))
  }

  lemma {:induction false} MatchesGroups(s: string) returns (n: nat)
    requires Base64.Matches(s)
    ensures Grouped(s, n)
  {
    hide Alphabetic, Base64.InAlphabet, Tail, Base64.PaddedChars;
    if s == "" {
      n := 0;
    } else if |s| >= 4 && Base64.FourChars(s[..4]) && Base64.Matches(s[4..]) {
      var m := MatchesGroups(s[4..]);
      n := m + 1;
      assert s[4 * n..] == s[4..][4 * m..];
      forall i | 0 <= i < 4 * n ensures Alphabetic(s[i]) {
        AlphabeticIff(s[i]);
        assert i < 4 ==> s[i] == s[..4][i];
        assert i >= 4 ==> s[i] == s[4..][i - 4];
      }
    } else {
      n := 0;
      TailIff(s);
      assert s[0..] == s;
    }
  }

  lemma {:induction false} GroupsMatch(s: string, n: nat)
    requires Grouped(s, n)
    ensures Base64.Matches(s)
    decreases n
  {
    hide Alphabetic, Base64.InAlphabet, Tail, Base64.PaddedChars;
    if n == 0 {
      assert s[0..] == s;
      TailIff(s);
    } else {
      forall i | 0 <= i < 4 ensures Base64.InAlphabet(s[..4][i]) { AlphabeticIff(s[i]); }
      var rest := s[4..];
      assert rest[4 * (n - 1)..] == s[4 * n..];
      assert forall i | 0 <= i < 4 * (n - 1) :: rest[i] == s[i + 4];
      GroupsMatch(rest, n - 1);
    }
  }

  /** What the pattern of both runtimes matches. */
  lemma MatchesIff(s: string)
    ensures Base64.Matches(s) <==> exists n :: Grouped(s, n)
  {
    if Base64.Matches(s) { var n := MatchesGroups(s); }
    if n :| Grouped(s, n) { GroupsMatch(s, n); }
  }

  // ---------- url.PathEscape ----------

  /** The unreserved characters of RFC 3986, and those of a path segment that Go keeps. */
  predicate Kept(b: Byte) {
    && b < 0x80
    && var c := b as char;
    c in CAPITALS || c in HexLaws.LETTERS || c in LOWER_DIGITS[..10] || c in "-_.~" || c in "$&+=:@"
  }

  lemma KeptIff(b: Byte)
    ensures PathTemplate.Unescaped(b) <==> Kept(b)
  {
    if b < 0x80 {
      var c := b as char;
      CapitalIff(c);
      HexLaws.LetterIff(c);
      InDigits(c);
    }
  }

  /** A percent sign and the two digits of the byte, the high one first. */
  function Percent(b: Byte): string { ['%', UPPER_DIGITS[b / 16], UPPER_DIGITS[b % 16]] }

  function EscapedAs(b: seq<Byte>): string {
    if b == [] then "" else (if Kept(b[0]) then [b[0] as char] else Percent(b[0])) + EscapedAs(b[1..])
  }

  lemma UpperPlaces(d: nat)
    requires d < 16
    ensures PathTemplate.UpperHex(d) == UPPER_DIGITS[d]
  {
  }

  lemma {:induction false} EscapeBytesIs(b: seq<Byte>)
    ensures PathTemplate.EscapeBytes(b) == EscapedAs(b)
  {
    hide PathTemplate.Unescaped, Kept, PathTemplate.UpperHex;
    if b != [] {
      KeptIff(b[0]);
      UpperPlaces(b[0] / 16);
      UpperPlaces(b[0] % 16);
      EscapeBytesIs(b[1..]);
    }
  }

  /** Exactly the other bytes of the UTF-8 are escaped, so no solidus, query or fragment mark is left. */
  lemma PathEscapeIs(value: string)
    ensures PathTemplate.PathEscape(value) == EscapedAs(Encode8(value))
    ensures forall c | Separates(c) :: c !in PathTemplate.PathEscape(value)
  {
    EscapeBytesIs(Encode8(value));
    NoSeparators(Encode8(value));
  }

  lemma {:induction false} NoSeparators(b: seq<Byte>)
    ensures forall c | Separates(c) :: c !in EscapedAs(b)
  {
    hide Kept, Separates;
    if b != [] {
      NoSeparators(b[1..]);
      ByteWithout(b[0]);
    }
  }

  /** What divides a URL, or its path, into parts. */
  predicate Separates(c: char) { c == '/' || c == '?' || c == '#' || c == ';' || c == ',' || c == ' ' }

  lemma ByteWithout(b: Byte)
    ensures Kept(b) ==> !Separates(b as char)
    ensures forall i | 0 <= i < 3 :: !Separates(Percent(b)[i])
  {
    if Kept(b) { KeptIff(b); }
    UpperNotSeparating(b / 16);
    UpperNotSeparating(b % 16);
  }

  lemma UpperNotSeparating(d: nat)
    requires d < 16
    ensures !Separates(UPPER_DIGITS[d])
  {
    UpperPlaces(d);
  }

  function Unhex(c: char): (d: nat)
    ensures c in UPPER_DIGITS ==> d < 16 && UPPER_DIGITS[d] == c
  {
    InDigits(c);
    if '0' <= c <= '9' then c as int - 0x30 else if 'A' <= c <= 'F' then c as int - 0x41 + 10 else 0
  }

  /** Reads percent escapes back. */
  function Unescape(s: string): seq<int>
    decreases |s|
  {
    if s == "" then []
    else if s[0] == '%' && |s| >= 3 then [Unhex(s[1]) * 16 + Unhex(s[2])] + Unescape(s[3..])
    else [s[0] as int] + Unescape(s[1..])
  }

  lemma UnhexAt(d: nat)
    requires d < 16
    ensures Unhex(UPPER_DIGITS[d]) == d
  {
  }

  lemma UnescapePlain(c: char, rest: string)
    requires c != '%'
    ensures Unescape([c] + rest) == [c as int] + Unescape(rest)
  {
    assert ([c] + rest)[1..] == rest;
  }

  lemma UnescapePercent(b: Byte, rest: string)
    ensures Unescape(Percent(b) + rest) == [b] + Unescape(rest)
  {
    hide Unhex;
    UnhexAt(b / 16);
    UnhexAt(b % 16);
    assert (Percent(b) + rest)[3..] == rest;
  }

  /** An escaped value is read back to its bytes. */
  lemma {:induction false} UnescapeInverts(b: seq<Byte>)
    ensures Unescape(EscapedAs(b)) == b
  {
    hide Unescape, Kept, Percent;
    if b == [] {
      NothingToRead();
    } else {
      UnescapeInverts(b[1..]);
      var rest := EscapedAs(b[1..]);
      if Kept(b[0]) {
        KeptNoPercent(b[0]);
        UnescapePlain(b[0] as char, rest);
      } else {
        UnescapePercent(b[0], rest);
      }
      assert b == [b[0]] + b[1..];
    }
  }

  lemma NothingToRead()
    ensures Unescape("") == []
  {
  }

  lemma KeptNoPercent(b: Byte)
    requires Kept(b)
    ensures b as char != '%' && b as char as int == b
  {
    KeptIff(b);
  }
}
