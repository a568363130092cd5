/**
 UTF-16 and UTF-8 of strings, which are sequences of Unicode scalar values (Dafny's `char`), with
 decoders that are strict for bytes and replace lone surrogates for code units.
 */
module Unicode {
  import opened Wrappers

  type Byte = b: int | 0 <= b < 0x100
  type Unit = u: int | 0 <= u < 0x1_0000

  const REPLACEMENT := 0xFFFD as char

  // ---------- UTF-16 ----------

  predicate IsHigh(u: Unit) { 0xD800 <= u <= 0xDBFF }
  predicate IsLow(u: Unit) { 0xDC00 <= u <= 0xDFFF }
  predicate IsSurrogate(u: Unit) { IsHigh(u) || IsLow(u) }

  function UnitsOf(c: char): seq<Unit> {
    var n := c as int;
    if n < 0x1_0000 then [n]
    else [0xD800 + (n - 0x1_0000) / 0x400, 0xDC00 + (n - 0x1_0000) % 0x400]
  }

  function Encode16(s: string): seq<Unit> {
    if s == [] then [] else UnitsOf(s[0]) + Encode16(s[1..])
  }

  function PairOf(high: Unit, low: Unit): char
    requires IsHigh(high) && IsLow(low)
  {
    (0x1_0000 + (high - 0xD800) * 0x400 + (low - 0xDC00)) as char
  }

  /** Reads code units; a surrogate without its half becomes U+FFFD, as Go's decoder does. */
  function Decode16(u: seq<Unit>): string {
    if u == [] then []
    else if !IsSurrogate(u[0]) then [u[0] as char] + Decode16(u[1..])
    else if IsHigh(u[0]) && |u| > 1 && IsLow(u[1]) then [PairOf(u[0], u[1])] + Decode16(u[2..])
    else [REPLACEMENT] + Decode16(u[1..])
  }

  /** Every surrogate is half of an adjacent high/low pair. */
  predicate WellFormed16(u: seq<Unit>) {
    if u == [] then true
    else if !IsSurrogate(u[0]) then WellFormed16(u[1..])
    else IsHigh(u[0]) && |u| > 1 && IsLow(u[1]) && WellFormed16(u[2..])
  }

  lemma {:induction false} Decode16Inverts(s: string)
    ensures WellFormed16(Encode16(s)) && Decode16(Encode16(s)) == s
  {
    if s != [] {
      var rest := Encode16(s[1..]);
      Decode16Inverts(s[1..]);
      assert Encode16(s)[|UnitsOf(s[0])|..] == rest;
    }
  }

  lemma Encode16Cons(c: char, rest: string)
    ensures Encode16([c] + rest) == UnitsOf(c) + Encode16(rest)
  {
    assert ([c] + rest)[1..] == rest;
  }

  lemma UnitsOfPair(high: Unit, low: Unit)
    requires IsHigh(high) && IsLow(low)
    ensures UnitsOf(PairOf(high, low)) == [high, low]
  {
    var n := (high - 0xD800) * 0x400 + (low - 0xDC00);
    assert PairOf(high, low) as int == 0x1_0000 + n;
    assert n / 0x400 == high - 0xD800 && n % 0x400 == low - 0xDC00;
  }

  lemma {:induction false} Encode16Inverts(u: seq<Unit>)
    requires WellFormed16(u)
    ensures Encode16(Decode16(u)) == u
  {
    if u == [] {
    } else if !IsSurrogate(u[0]) {
      Encode16Inverts(u[1..]);
      Encode16Cons(u[0] as char, Decode16(u[1..]));
    } else {
      var c := PairOf(u[0], u[1]);
      Encode16Inverts(u[2..]);
      Encode16Cons(c, Decode16(u[2..]));
      UnitsOfPair(u[0], u[1]);
      assert u == [u[0], u[1]] + u[2..];
    }
  }

  /** The well-formed code units are those of some text. */
  lemma WellFormedIff(u: seq<Unit>)
    ensures WellFormed16(u) <==> exists s :: Encode16(s) == u
  {
    if WellFormed16(u) { Encode16Inverts(u); }
    if s :| Encode16(s) == u { Decode16Inverts(s); }
  }

  lemma Encode16Injective(a: string, b: string)
    requires Encode16(a) == Encode16(b)
    ensures a == b
  {
    Decode16Inverts(a);
    Decode16Inverts(b);
  }

  // ---------- UTF-8 ----------

  function BytesOf(c: char): (r: seq<Byte>)
    ensures 1 <= |r| <= 4
  {
    var n := c as int;
    if n < 0x80 then [n]
    else if n < 0x800 then [0xC0 + n / 0x40, 0x80 + n % 0x40]
    else if n < 0x1_0000 then [0xE0 + n / 0x1000, 0x80 + n / 0x40 % 0x40, 0x80 + n % 0x40]
    else [0xF0 + n / 0x4_0000, 0x80 + n / 0x1000 % 0x40, 0x80 + n / 0x40 % 0x40, 0x80 + n % 0x40]
  }

  function Encode8(s: string): seq<Byte> {
    if s == [] then [] else BytesOf(s[0]) + Encode8(s[1..])
  }

  predicate Tail(b: Byte) { 0x80 <= b < 0xC0 }

  function Join2(a: int, b: int): int { (a - 0xC0) * 0x40 + (b - 0x80) }
  function Join3(a: int, b: int, c: int): int { (a - 0xE0) * 0x1000 + (b - 0x80) * 0x40 + (c - 0x80) }
  function Join4(a: int, b: int, c: int, d: int): int {
    (a - 0xF0) * 0x4_0000 + (b - 0x80) * 0x1000 + (c - 0x80) * 0x40 + (d - 0x80)
  }

  /** The scalar value that starts a byte sequence and the bytes it takes; shortest form only. */
  function ReadScalar(b: seq<Byte>): (r: Option<(char, nat)>)
    ensures r.Some? ==> 0 < r.value.1 <= |b|
  {
    if b == [] then None
    else if b[0] < 0x80 then Some((b[0] as char, 1))
    else if 0xC0 <= b[0] < 0xE0 && |b| >= 2 && Tail(b[1]) then
      var n := Join2(b[0], b[1]);
      if 0x80 <= n then Some((n as char, 2)) else None
    else if 0xE0 <= b[0] < 0xF0 && |b| >= 3 && Tail(b[1]) && Tail(b[2]) then
      var n := Join3(b[0], b[1], b[2]);
      if 0x800 <= n < 0xD800 || 0xE000 <= n then Some((n as char, 3)) else None
    else if 0xF0 <= b[0] < 0xF8 && |b| >= 4 && Tail(b[1]) && Tail(b[2]) && Tail(b[3]) then
      var n := Join4(b[0], b[1], b[2], b[3]);
      if 0x1_0000 <= n < 0x11_0000 then Some((n as char, 4)) else None
    else None
  }

  function Decode8(b: seq<Byte>): Option<string>
    decreases |b|
  {
    if b == [] then Some([])
    else match ReadScalar(b)
         case None => None
         case Some((c, n)) =>
           match Decode8(b[n..])
           case None => None
           case Some(rest) => Some([c] + rest)
  }

  lemma JoinParts2(n: int)
    requires 0x80 <= n < 0x800
    ensures var a, b := 0xC0 + n / 0x40, 0x80 + n % 0x40;
            0xC0 <= a < 0xE0 && 0x80 <= b < 0xC0 && Join2(a, b) == n
  {
  }

  lemma JoinParts3(n: int)
    requires 0x800 <= n < 0x1_0000
    ensures var a, b, c := 0xE0 + n / 0x1000, 0x80 + n / 0x40 % 0x40, 0x80 + n % 0x40;
            0xE0 <= a < 0xF0 && 0x80 <= b < 0xC0 && 0x80 <= c < 0xC0 && Join3(a, b, c) == n
  {
    assert n / 0x40 / 0x40 == n / 0x1000;
  }

  lemma JoinParts4(n: int)
    requires 0x1_0000 <= n < 0x11_0000
    ensures var a, b, c, d := 0xF0 + n / 0x4_0000, 0x80 + n / 0x1000 % 0x40, 0x80 + n / 0x40 % 0x40, 0x80 + n % 0x40;
            && 0xF0 <= a < 0xF8 && 0x80 <= b < 0xC0 && 0x80 <= c < 0xC0 && 0x80 <= d < 0xC0
            && Join4(a, b, c, d) == n
  {
    assert n / 0x40 / 0x40 == n / 0x1000 && n / 0x1000 / 0x40 == n / 0x4_0000;
  }

  lemma JoinBytes(c: char)
    ensures var n, e := c as int, BytesOf(c);
            && (|e| == 1 ==> e[0] == n < 0x80)
            && (|e| == 2 ==> 0xC0 <= e[0] < 0xE0 && Tail(e[1]) && 0x80 <= n < 0x800 && Join2(e[0], e[1]) == n)
            && (|e| == 3 ==> 0xE0 <= e[0] < 0xF0 && Tail(e[1]) && Tail(e[2])
                             && 0x800 <= n < 0x1_0000 && Join3(e[0], e[1], e[2]) == n)
            && (|e| == 4 ==> 0xF0 <= e[0] < 0xF8 && Tail(e[1]) && Tail(e[2]) && Tail(e[3])
                             && 0x1_0000 <= n && Join4(e[0], e[1], e[2], e[3]) == n)
  {
    hide Join2, Join3, Join4;
    var n := c as int;
    if n < 0x80 {
    } else if n < 0x800 {
      JoinParts2(n);
    } else if n < 0x1_0000 {
      JoinParts3(n);
    } else {
      JoinParts4(n);
    }
  }

  lemma ReadScalarOf(c: char, rest: seq<Byte>)
    ensures ReadScalar(BytesOf(c) + rest) == Some((c, |BytesOf(c)|))
  {
    hide BytesOf, Join2, Join3, Join4;
    var e, b := BytesOf(c), BytesOf(c) + rest;
    assert forall i | 0 <= i < |e| :: b[i] == e[i];
    JoinBytes(c);
  }

  lemma ReadScalarExact(b: seq<Byte>)
    requires ReadScalar(b).Some?
    ensures BytesOf(ReadScalar(b).value.0) == b[..ReadScalar(b).value.1]
  {
    var e := BytesOf(ReadScalar(b).value.0);
    if |e| == 4 {
      Split4(b[0], b[1], b[2], b[3]);
    } else if |e| == 3 {
      Split3(b[0], b[1], b[2]);
    }
  }

  lemma Split3(a: int, b: int, c: int)
    requires 0x80 <= b < 0xC0 && 0x80 <= c < 0xC0
    ensures var n := Join3(a, b, c);
            n / 0x1000 == a - 0xE0 && n / 0x40 % 0x40 == b - 0x80 && n % 0x40 == c - 0x80
  {
    var m := (a - 0xE0) * 0x40 + (b - 0x80);
    assert Join3(a, b, c) == m * 0x40 + (c - 0x80);
  }

  lemma Split4(a: int, b: int, c: int, d: int)
    requires 0x80 <= b < 0xC0 && 0x80 <= c < 0xC0 && 0x80 <= d < 0xC0
    ensures var n := Join4(a, b, c, d);
            && n / 0x4_0000 == a - 0xF0 && n / 0x1000 % 0x40 == b - 0x80
            && n / 0x40 % 0x40 == c - 0x80 && n % 0x40 == d - 0x80
  {
    var m := (a - 0xF0) * 0x40 + (b - 0x80);
    var k := m * 0x40 + (c - 0x80);
    assert Join4(a, b, c, d) == k * 0x40 + (d - 0x80);
    assert k == Join4(a, b, c, d) / 0x40;
    assert m == Join4(a, b, c, d) / 0x1000;
  }

  lemma {:induction false} Decode8Inverts(s: string)
    ensures Decode8(Encode8(s)) == Some(s)
  {
    if s != [] {
      var rest := Encode8(s[1..]);
      ReadScalarOf(s[0], rest);
      Decode8Inverts(s[1..]);
      assert Encode8(s)[|BytesOf(s[0])|..] == rest;
      assert [s[0]] + s[1..] == s;
    }
  }

  lemma {:induction false} Decode8Exact(b: seq<Byte>)
    requires Decode8(b).Some?
    ensures Encode8(Decode8(b).value) == b
    decreases |b|
  {
    hide ReadScalar, BytesOf;
    if b != [] {
      var (c, n) := ReadScalar(b).value;
      ReadScalarExact(b);
      Decode8Exact(b[n..]);
      var rest := Decode8(b[n..]).value;
      assert Decode8(b).value == [c] + rest && ([c] + rest)[1..] == rest;
      assert b[..n] + b[n..] == b;
    }
  }

  lemma Encode8Injective(a: string, b: string)
    requires Encode8(a) == Encode8(b)
    ensures a == b
  {
    Decode8Inverts(a);
    Decode8Inverts(b);
  }

  lemma {:induction false} Encode8Append(a: string, b: string)
    ensures Encode8(a + b) == Encode8(a) + Encode8(b)
  {
    hide BytesOf;
    if a == [] {
      assert a + b == b;
    } else {
      Encode8Append(a[1..], b);
      assert (a + b)[1..] == a[1..] + b;
    }
  }
}
