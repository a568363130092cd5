/** The canonical base64 checks of signature.go and of the TypeScript client. */
module Base64 {
  import opened Wrappers
  import opened Unicode

  type Sextet = s: int | 0 <= s < 64

  function CharOf(s: Sextet): char {
    if s < 26 then ('A' as int + s) as char
    else if s < 52 then ('a' as int + (s - 26)) as char
    else if s < 62 then ('0' as int + (s - 52)) as char
    else if s == 62 then '+'
    else '/'
  }

  predicate InAlphabet(c: char) {
    'A' <= c <= 'Z' || 'a' <= c <= 'z' || '0' <= c <= '9' || c == '+' || c == '/'
  }

  function SextetOf(c: char): Sextet
    requires InAlphabet(c)
  {
    if 'A' <= c <= 'Z' then c as int - 'A' as int
    else if 'a' <= c <= 'z' then c as int - 'a' as int + 26
    else if '0' <= c <= '9' then c as int - '0' as int + 52
    else if c == '+' then 62
    else 63
  }

  // ---------- the encoder ----------

  function EncodeTail(b: seq<Byte>): string
    requires |b| == 1 || |b| == 2
  {
    if |b| == 1 then [CharOf(b[0] / 4), CharOf(b[0] % 4 * 16), '=', '=']
    else [CharOf(b[0] / 4), CharOf(b[0] % 4 * 16 + b[1] / 16), CharOf(b[1] % 16 * 4), '=']
  }

  function EncodeGroup(b: seq<Byte>): string
    requires |b| == 3
  {
    [CharOf(b[0] / 4), CharOf(b[0] % 4 * 16 + b[1] / 16), CharOf(b[1] % 16 * 4 + b[2] / 64), CharOf(b[2] % 64)]
  }

  function Encode(b: seq<Byte>): string {
    if b == [] then "" else if |b| < 3 then EncodeTail(b) else EncodeGroup(b[..3]) + Encode(b[3..])
  }

  // ---------- the pattern ----------

  predicate FourChars(s: string) { |s| == 4 && forall i | 0 <= i < 4 :: InAlphabet(s[i]) }

  /** Two or three characters of the alphabet, padded to four. */
  predicate PaddedChars(s: string) {
    && |s| == 4 && InAlphabet(s[0]) && InAlphabet(s[1]) && s[3] == '='
    && (s[2] == '=' || InAlphabet(s[2]))
  }

  predicate Matches(s: string) {
    s == "" || (|s| >= 4 && FourChars(s[..4]) && Matches(s[4..])) || PaddedChars(s)
  }

  // ---------- decoding ----------

  function DecodeGroup(s: string): seq<Byte>
    requires FourChars(s)
  {
    var p: int, q: int, r: int, t: int := SextetOf(s[0]), SextetOf(s[1]), SextetOf(s[2]), SextetOf(s[3]);
    [p * 4 + q / 16, q % 16 * 16 + r / 4, r % 4 * 64 + t]
  }

  /** The bytes of a padded group; bits after the last byte are dropped. */
  function DecodeTail(s: string): seq<Byte>
    requires PaddedChars(s)
  {
    var (p, q) := (SextetOf(s[0]), SextetOf(s[1]));
    if s[2] == '=' then [p * 4 + q / 16] else [p * 4 + q / 16, q % 16 * 16 + SextetOf(s[2]) / 4]
  }

  /** The bits after the last byte are zero. */
  predicate ZeroBits(s: string)
    requires PaddedChars(s)
  {
    if s[2] == '=' then SextetOf(s[1]) % 16 == 0 else SextetOf(s[2]) % 4 == 0
  }

  /** Decodes groups of four; a strict decoder refuses bits that an encoder would have left zero. */
  function Decode(s: string, strict: bool): Option<seq<Byte>> {
    if s == "" then Some([])
    else if PaddedChars(s) then if strict && !ZeroBits(s) then None else Some(DecodeTail(s))
    else if |s| < 4 || !FourChars(s[..4]) then None
    else match Decode(s[4..], strict)
         case None => None
         case Some(rest) => Some(DecodeGroup(s[..4]) + rest)
  }

  /** signature.go: the pattern, then StdEncoding.Strict().DecodeString. */
  function GoBytes(s: string): Option<seq<Byte>> {
    if Matches(s) then Decode(s, true) else None
  }

  /** base64Bytes: the pattern, then atob, then btoa must give the text back. */
  function TsBytes(s: string): Option<seq<Byte>> {
    if !Matches(s) then None
    else match Decode(s, false)
         case None => None
         case Some(decoded) => if Encode(decoded) != s then None else Some(decoded)
  }

  // ---------- both accept exactly the encoder's image ----------

  lemma SextetOfChar(s: Sextet)
    ensures InAlphabet(CharOf(s)) && SextetOf(CharOf(s)) == s
  {
  }

  lemma GroupOf(b: seq<Byte>)
    requires |b| == 3
    ensures FourChars(EncodeGroup(b)) && DecodeGroup(EncodeGroup(b)) == b
  {
    hide CharOf, InAlphabet, SextetOf;
    var q, r := b[0] % 4 * 16 + b[1] / 16, b[1] % 16 * 4 + b[2] / 64;
    assert q / 16 == b[0] % 4 && q % 16 == b[1] / 16;
    assert r / 4 == b[1] % 16 && r % 4 == b[2] / 64;
    forall s: Sextet ensures InAlphabet(CharOf(s)) && SextetOf(CharOf(s)) == s { SextetOfChar(s); }
  }

  lemma TailOf(b: seq<Byte>)
    requires |b| == 1 || |b| == 2
    ensures PaddedChars(EncodeTail(b)) && DecodeTail(EncodeTail(b)) == b && ZeroBits(EncodeTail(b))
  {
    hide SextetOf, InAlphabet;
    forall s: Sextet ensures InAlphabet(CharOf(s)) && SextetOf(CharOf(s)) == s { SextetOfChar(s); }
    if |b| == 2 {
      var q := b[0] % 4 * 16 + b[1] / 16;
      assert q / 16 == b[0] % 4 && q % 16 == b[1] / 16;
    }
  }

  lemma CharOfSextet(c: char)
    requires InAlphabet(c)
    ensures CharOf(SextetOf(c)) == c
  {
  }

  lemma GroupExact(s: string)
    requires FourChars(s)
    ensures EncodeGroup(DecodeGroup(s)) == s
  {
    var (p, q, r, t) := (SextetOf(s[0]), SextetOf(s[1]), SextetOf(s[2]), SextetOf(s[3]));
    var b := DecodeGroup(s);
    assert b[0] / 4 == p && b[0] % 4 == q / 16;
    assert b[1] / 16 == q % 16 && b[1] % 16 == r / 4;
    assert b[2] / 64 == r % 4 && b[2] % 64 == t;
    forall i | 0 <= i < 4 ensures CharOf(SextetOf(s[i])) == s[i] { CharOfSextet(s[i]); }
  }

  lemma TailExact(s: string)
    requires PaddedChars(s)
    ensures EncodeTail(DecodeTail(s)) == s <==> ZeroBits(s)
  {
    var (p, q) := (SextetOf(s[0]), SextetOf(s[1]));
    var b := DecodeTail(s);
    assert b[0] / 4 == p && b[0] % 4 == q / 16;
    CharOfSextet(s[0]);
    CharOfSextet(s[1]);
    forall a: Sextet ensures InAlphabet(CharOf(a)) && SextetOf(CharOf(a)) == a { }
    if s[2] != '=' {
      CharOfSextet(s[2]);
      assert b[1] / 16 == q % 16 && b[1] % 16 == SextetOf(s[2]) / 4;
    }
  }

  lemma {:induction false} EncodeAccepted(b: seq<Byte>)
    ensures Matches(Encode(b)) && Decode(Encode(b), true) == Some(b) && Decode(Encode(b), false) == Some(b)
  {
    if b == [] {
    } else if |b| < 3 {
      TailOf(b);
    } else {
      var head, tail := EncodeGroup(b[..3]), Encode(b[3..]);
      GroupOf(b[..3]);
      EncodeAccepted(b[3..]);
      var s := Encode(b);
      assert s[..4] == head && s[4..] == tail;
      assert !PaddedChars(s) by { assert |s| == 4 ==> s[3] == head[3]; }
      assert b[..3] + b[3..] == b;
    }
  }

  lemma {:induction false} StrictExact(s: string)
    requires Decode(s, true).Some?
    ensures Encode(Decode(s, true).value) == s
  {
    if s == "" {
    } else if PaddedChars(s) {
      TailExact(s);
    } else {
      StrictExact(s[4..]);
      GroupExact(s[..4]);
      var head, tail := DecodeGroup(s[..4]), Decode(s[4..], true).value;
      assert (head + tail)[..3] == head && (head + tail)[3..] == tail;
      assert s[..4] + s[4..] == s;
    }
  }

  /** A text is accepted by Go, or by TypeScript, exactly when it encodes the bytes it yields. */
  lemma AcceptsImage(s: string, b: seq<Byte>)
    ensures GoBytes(s) == Some(b) <==> s == Encode(b)
    ensures TsBytes(s) == Some(b) <==> s == Encode(b)
  {
    EncodeAccepted(b);
    if GoBytes(s) == Some(b) {
      StrictExact(s);
    }
  }

  /** The two checks are the same function. */
  lemma TwinsAgree(s: string)
    ensures GoBytes(s) == TsBytes(s)
  {
    if GoBytes(s).Some? {
      AcceptsImage(s, GoBytes(s).value);
    } else if TsBytes(s).Some? {
      AcceptsImage(s, TsBytes(s).value);
    }
  }
}
