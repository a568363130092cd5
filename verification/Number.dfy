/**
 JSON numbers: the literal grammar of RFC 8259 section 6, the exact decimal a literal denotes, and the
 layout of a shortest decimal that section 3.2.2.3 of RFC 8785 takes from ECMAScript.
 */
module Number {
  import opened Wrappers

  type Digit = d: int | 0 <= d < 10

  /** A decimal: zero, or plus or minus 0.d1d2...dk times ten to the power `point`. */
  datatype Decimal = Zero | Dec(neg: bool, digits: seq<Digit>, point: int)

  /** The digits carry no zero at either end, so a decimal has one representation. */
  predicate Normal(n: Decimal) {
    n.Dec? ==> n.digits != [] && n.digits[0] != 0 && n.digits[|n.digits| - 1] != 0
  }

  type Number = n: Decimal | Normal(n) witness Zero

  // ---------- digit strings ----------

  function DigitChar(d: Digit): char { ('0' as int + d) as char }
  predicate IsDigit(c: char) { '0' <= c <= '9' }
  function DigitOf(c: char): Digit requires IsDigit(c) { c as int - '0' as int }

  function DigitsText(ds: seq<Digit>): (r: string)
    ensures |r| == |ds|
  {
    if ds == [] then "" else [DigitChar(ds[0])] + DigitsText(ds[1..])
  }

  /** Reads digits while there are any. */
  function TakeDigits(s: string): (r: (seq<Digit>, string))
    ensures |r.1| <= |s|
  {
    if s == "" || !IsDigit(s[0]) then ([], s)
    else
      var (ds, rest) := TakeDigits(s[1..]);
      ([DigitOf(s[0])] + ds, rest)
  }

  lemma DigitCharOf(c: char)
    requires IsDigit(c)
    ensures DigitChar(DigitOf(c)) == c
  {
  }

  lemma {:induction false} TakeDigitsExact(s: string)
    ensures var (ds, rest) := TakeDigits(s);
            DigitsText(ds) + rest == s && (rest == "" || !IsDigit(rest[0]))
  {
    hide DigitChar, DigitOf;
    if s != "" && IsDigit(s[0]) {
      var (ds, rest) := TakeDigits(s[1..]);
      TakeDigitsExact(s[1..]);
      DigitCharOf(s[0]);
      assert ([DigitOf(s[0])] + ds)[1..] == ds;
      assert [s[0]] + (DigitsText(ds) + rest) == s;
    }
  }

  lemma {:induction false} TakeDigitsOf(ds: seq<Digit>, rest: string)
    requires rest == "" || !IsDigit(rest[0])
    ensures TakeDigits(DigitsText(ds) + rest) == (ds, rest)
  {
    var s := DigitsText(ds) + rest;
    if ds == [] {
      assert s == rest;
    } else {
      TakeDigitsOf(ds[1..], rest);
      assert s[0] == DigitChar(ds[0]);
      assert s[1..] == DigitsText(ds[1..]) + rest;
      assert [ds[0]] + ds[1..] == ds;
    }
  }

  function NatOf(ds: seq<Digit>): nat {
    if ds == [] then 0 else NatOf(ds[..|ds| - 1]) * 10 + ds[|ds| - 1]
  }

  function DigitsOf(n: nat): (r: seq<Digit>)
    ensures r != [] && (n != 0 ==> r[0] != 0) && NatOf(r) == n
  {
    if n < 10 then [n] else DigitsOf(n / 10) + [n % 10]
  }

  lemma NatOfLeadingZero(ds: seq<Digit>)
    ensures NatOf([0] + ds) == NatOf(ds)
  {
    if ds != [] {
      NatOfLeadingZero(ds[..|ds| - 1]);
      assert ([0] + ds)[..|ds|] == [0] + ds[..|ds| - 1];
    }
  }

  // ---------- literals ----------

  datatype Sign = Bare | Plus | Minus
  datatype Exponent = NoExponent | Exponent(mark: char, sign: Sign, power: seq<Digit>)
  datatype Literal = Literal(neg: bool, whole: seq<Digit>, frac: seq<Digit>, exp: Exponent)

  predicate WellFormed(l: Literal) {
    && (l.whole == [0] || (l.whole != [] && l.whole[0] != 0))
    && (l.exp.Exponent? ==> l.exp.mark in "eE" && l.exp.power != [])
  }

  function SignText(s: Sign): string {
    match s case Bare => "" case Plus => "+" case Minus => "-"
  }

  function FracText(frac: seq<Digit>): string {
    if frac == [] then "" else "." + DigitsText(frac)
  }

  function ExpText(e: Exponent): string {
    match e
    case NoExponent => ""
    case Exponent(mark, sign, power) => [mark] + SignText(sign) + DigitsText(power)
  }

  function MinusText(neg: bool): string { if neg then "-" else "" }

  function LiteralText(l: Literal): string {
    MinusText(l.neg) + (DigitsText(l.whole) + (FracText(l.frac) + ExpText(l.exp)))
  }

  function Power(e: Exponent): int {
    match e
    case NoExponent => 0
    case Exponent(_, sign, power) => if sign == Minus then 0 - NatOf(power) as int else NatOf(power)
  }

  function Normalize(neg: bool, ds: seq<Digit>, point: int): Number
    decreases |ds|
  {
    if ds == [] then Zero
    else if ds[0] == 0 then Normalize(neg, ds[1..], point - 1)
    else if ds[|ds| - 1] == 0 then Normalize(neg, ds[..|ds| - 1], point)
    else Dec(neg, ds, point)
  }

  /** The decimal a literal denotes, before it is rounded to a double. */
  function Exact(l: Literal): Number
  {
    Normalize(l.neg, l.whole + l.frac, |l.whole| + Power(l.exp))
  }

  // ---------- reading literals ----------

  function ReadWhole(s: string): Option<(seq<Digit>, string)> {
    if s == "" || !IsDigit(s[0]) then None
    else if s[0] == '0' then Some(([0], s[1..]))
    else Some(TakeDigits(s))
  }

  function ReadFrac(s: string): Option<(seq<Digit>, string)> {
    if s == "" || s[0] != '.' then Some(([], s))
    else
      var (ds, rest) := TakeDigits(s[1..]);
      if ds == [] then None else Some((ds, rest))
  }

  function ReadSign(s: string): (Sign, string) {
    if s != "" && s[0] == '+' then (Plus, s[1..])
    else if s != "" && s[0] == '-' then (Minus, s[1..])
    else (Bare, s)
  }

  function ReadExp(s: string): Option<(Exponent, string)> {
    if s == "" || s[0] !in "eE" then Some((NoExponent, s))
    else
      var (sign, digits) := ReadSign(s[1..]);
      var (ds, rest) := TakeDigits(digits);
      if ds == [] then None else Some((Exponent(s[0], sign, ds), rest))
  }

  function ReadMinus(s: string): (bool, string) {
    if s != "" && s[0] == '-' then (true, s[1..]) else (false, s)
  }

  /** Reads a literal as a scanner does: after a point or an exponent mark there must be a digit. */
  function ReadLiteral(s: string): Option<(Literal, string)> {
    var (neg, s0) := ReadMinus(s);
    match ReadWhole(s0)
    case None => None
    case Some((whole, s1)) =>
      match ReadFrac(s1)
      case None => None
      case Some((frac, s2)) =>
        match ReadExp(s2)
        case None => None
        case Some((exp, s3)) => Some((Literal(neg, whole, frac, exp), s3))
  }

  /** Reads a literal as an anchored regular expression does: an optional part that fails is left out. */
  function MatchLiteral(s: string): Option<(Literal, string)> {
    var (neg, s0) := ReadMinus(s);
    match ReadWhole(s0)
    case None => None
    case Some((whole, s1)) =>
      var (frac, s2) := ReadFrac(s1).GetOr(([], s1));
      var (exp, s3) := ReadExp(s2).GetOr((NoExponent, s2));
      Some((Literal(neg, whole, frac, exp), s3))
  }

  /** No literal can be followed by these, in any JSON text. */
  predicate Stuck(rest: string) { rest != "" && rest[0] in ".eE" }

  predicate NumberEnds(rest: string) { !Stuck(rest) && (rest == "" || !IsDigit(rest[0])) }

  lemma MatchVersusRead(s: string)
    ensures ReadLiteral(s).Some? ==> MatchLiteral(s) == ReadLiteral(s)
    ensures ReadLiteral(s).None? && MatchLiteral(s).Some? ==> Stuck(MatchLiteral(s).value.1)
  {
  }

  lemma Assoc(a: string, b: string, c: string)
    ensures (a + b) + c == a + (b + c)
  {
  }

  lemma DropHead(a: string, b: string)
    ensures (a + b)[|a|..] == b
  {
  }

  lemma ReadMinusOf(neg: bool, rest: string)
    requires rest == "" || rest[0] != '-'
    ensures ReadMinus(MinusText(neg) + rest) == (neg, rest)
  {
    DropHead("-", rest);
    assert "" + rest == rest;
  }

  lemma ReadWholeOf(whole: seq<Digit>, rest: string)
    requires whole == [0] || (whole != [] && whole[0] != 0)
    requires rest == "" || !IsDigit(rest[0])
    ensures ReadWhole(DigitsText(whole) + rest) == Some((whole, rest))
  {
    TakeDigitsOf(whole, rest);
    DropHead(DigitsText(whole), rest);
  }

  lemma ReadFracOf(frac: seq<Digit>, rest: string)
    requires rest == "" || (!IsDigit(rest[0]) && rest[0] != '.')
    ensures ReadFrac(FracText(frac) + rest) == Some((frac, rest))
  {
    if frac == [] {
      assert "" + rest == rest;
    } else {
      Assoc(".", DigitsText(frac), rest);
      DropHead(".", DigitsText(frac) + rest);
      TakeDigitsOf(frac, rest);
    }
  }

  lemma ReadSignOf(sign: Sign, rest: string)
    requires rest != "" && IsDigit(rest[0])
    ensures ReadSign(SignText(sign) + rest) == (sign, rest)
  {
    DropHead(SignText(sign), rest);
    assert "" + rest == rest;
  }

  lemma ReadExpOf(e: Exponent, rest: string)
    requires e.Exponent? ==> e.mark in "eE" && e.power != []
    requires NumberEnds(rest)
    ensures ReadExp(ExpText(e) + rest) == Some((e, rest))
  {
    if e.NoExponent? {
      assert "" + rest == rest;
    } else {
      var mark, digits := [e.mark], DigitsText(e.power) + rest;
      Assoc(mark + SignText(e.sign), DigitsText(e.power), rest);
      Assoc(mark, SignText(e.sign), digits);
      DropHead(mark, SignText(e.sign) + digits);
      ReadSignOf(e.sign, digits);
      TakeDigitsOf(e.power, rest);
    }
  }

  lemma LiteralTextSplits(l: Literal, rest: string)
    ensures LiteralText(l) + rest
         == MinusText(l.neg) + (DigitsText(l.whole) + (FracText(l.frac) + (ExpText(l.exp) + rest)))
  {
    var minus := MinusText(l.neg);
    Assoc(FracText(l.frac), ExpText(l.exp), rest);
    Assoc(DigitsText(l.whole), FracText(l.frac) + ExpText(l.exp), rest);
    Assoc(minus, DigitsText(l.whole) + (FracText(l.frac) + ExpText(l.exp)), rest);
  }

  lemma ReadLiteralOf(l: Literal, rest: string)
    requires WellFormed(l) && NumberEnds(rest)
    ensures ReadLiteral(LiteralText(l) + rest) == Some((l, rest))
  {
    var s2 := ExpText(l.exp) + rest;
    var s1 := FracText(l.frac) + s2;
    var s0 := DigitsText(l.whole) + s1;
    assert s2 == "" || (!IsDigit(s2[0]) && s2[0] != '.') by {
      assert "" + rest == rest;
    }
    assert s1 == "" || !IsDigit(s1[0]) by {
      assert "" + s2 == s2;
    }
    LiteralTextSplits(l, rest);
    ReadMinusOf(l.neg, s0);
    ReadWholeOf(l.whole, s1);
    ReadFracOf(l.frac, s2);
    ReadExpOf(l.exp, rest);
  }

  lemma ReadWholeExact(s: string)
    requires ReadWhole(s).Some?
    ensures var (whole, rest) := ReadWhole(s).value;
            DigitsText(whole) + rest == s && (whole == [0] || (whole != [] && whole[0] != 0))
  {
    TakeDigitsExact(s);
  }

  lemma ReadFracExact(s: string)
    requires ReadFrac(s).Some?
    ensures var (frac, rest) := ReadFrac(s).value; FracText(frac) + rest == s
  {
    if s != "" && s[0] == '.' {
      TakeDigitsExact(s[1..]);
      var (frac, rest) := TakeDigits(s[1..]);
      Assoc(".", DigitsText(frac), rest);
    }
  }

  lemma ReadExpExact(s: string)
    requires ReadExp(s).Some?
    ensures var (exp, rest) := ReadExp(s).value;
            ExpText(exp) + rest == s && (exp.Exponent? ==> exp.mark in "eE" && exp.power != [])
  {
    if s != "" && s[0] in "eE" {
      var (sign, digits) := ReadSign(s[1..]);
      assert SignText(sign) + digits == s[1..];
      TakeDigitsExact(digits);
      var (power, rest) := TakeDigits(digits);
      Assoc([s[0]] + SignText(sign), DigitsText(power), rest);
      Assoc([s[0]], SignText(sign), digits);
    }
  }

  lemma ReadLiteralExact(s: string)
    requires ReadLiteral(s).Some?
    ensures var (l, rest) := ReadLiteral(s).value; WellFormed(l) && LiteralText(l) + rest == s
  {
    var (l, rest) := ReadLiteral(s).value;
    var (neg, s0) := ReadMinus(s);
    ReadWholeExact(s0);
    var (whole, s1) := ReadWhole(s0).value;
    ReadFracExact(s1);
    var (frac, s2) := ReadFrac(s1).value;
    ReadExpExact(s2);
    LiteralTextSplits(l, rest);
  }

  lemma MatchLiteralExact(s: string)
    requires MatchLiteral(s).Some?
    ensures var (l, rest) := MatchLiteral(s).value; WellFormed(l) && LiteralText(l) + rest == s
  {
    hide ReadWhole, ReadFrac, ReadExp, LiteralText, DigitsText;
    var (l, rest) := MatchLiteral(s).value;
    var (neg, s0) := ReadMinus(s);
    ReadWholeExact(s0);
    var (whole, s1) := ReadWhole(s0).value;
    var (frac, s2) := ReadFrac(s1).GetOr(([], s1));
    assert FracText(frac) + s2 == s1 by {
      if ReadFrac(s1).Some? { ReadFracExact(s1); }
    }
    assert ExpText(l.exp) + rest == s2 && (l.exp.Exponent? ==> l.exp.mark in "eE" && l.exp.power != []) by {
      if ReadExp(s2).Some? { ReadExpExact(s2); }
    }
    LiteralTextSplits(l, rest);
  }

  /** Before anything that cannot go on a number, the pattern matches the literals of the grammar, each whole. */
  lemma MatchLiteralIff(s: string, l: Literal, rest: string)
    requires NumberEnds(rest)
    ensures MatchLiteral(s) == Some((l, rest)) <==> WellFormed(l) && LiteralText(l) + rest == s
  {
    hide MatchLiteral, ReadLiteral, LiteralText, WellFormed;
    if MatchLiteral(s) == Some((l, rest)) {
      MatchLiteralExact(s);
    }
    if WellFormed(l) && LiteralText(l) + rest == s {
      ReadLiteralOf(l, rest);
      MatchVersusRead(s);
    }
  }

  // ---------- the layout of section 3.2.2.3 of RFC 8785 ----------

  function Zeros(n: nat): (r: seq<Digit>)
    ensures |r| == n && forall i | 0 <= i < n :: r[i] == 0
  {
    seq(n, _ => 0)
  }

  /** The literal that ECMAScript's Number::toString lays a decimal out as. */
  function Canonical(n: Number): (l: Literal)
    ensures WellFormed(l)
  {
    if n.Zero? then Literal(false, [0], [], NoExponent)
    else
      var k := |n.digits|;
      if k <= n.point <= 21 then Literal(n.neg, n.digits + Zeros(n.point - k), [], NoExponent)
      else if 0 < n.point <= 21 then Literal(n.neg, n.digits[..n.point], n.digits[n.point..], NoExponent)
      else if -6 < n.point <= 0 then Literal(n.neg, [0], Zeros(-n.point) + n.digits, NoExponent)
      else
        var e := n.point - 1;
        var exp := if e < 0 then Exponent('e', Minus, DigitsOf(-e)) else Exponent('e', Plus, DigitsOf(e));
        Literal(n.neg, n.digits[..1], n.digits[1..], exp)
  }

  function NumberText(n: Number): string {
    LiteralText(Canonical(n))
  }

  lemma NormalizeTrailingZeros(neg: bool, ds: seq<Digit>, zeros: nat, point: int)
    requires ds != [] && ds[0] != 0
    ensures Normalize(neg, ds + Zeros(zeros), point) == Normalize(neg, ds, point)
  {
    var all := ds + Zeros(zeros);
    if zeros == 0 {
      assert all == ds;
    } else {
      assert all[..|all| - 1] == ds + Zeros(zeros - 1);
      NormalizeTrailingZeros(neg, ds, zeros - 1, point);
    }
  }

  lemma NormalizeLeadingZeros(neg: bool, zeros: nat, ds: seq<Digit>, point: int)
    ensures Normalize(neg, Zeros(zeros) + ds, point) == Normalize(neg, ds, point - zeros)
  {
    var all := Zeros(zeros) + ds;
    if zeros == 0 {
      assert all == ds;
    } else {
      assert all[1..] == Zeros(zeros - 1) + ds;
      NormalizeLeadingZeros(neg, zeros - 1, ds, point - 1);
    }
  }

  lemma IntegerIsExact(n: Number)
    requires n.Dec? && |n.digits| <= n.point <= 21
    ensures Exact(Canonical(n)) == n
  {
    hide DigitsOf, NatOf, Zeros;
    var zeros := n.point - |n.digits|;
    NormalizeTrailingZeros(n.neg, n.digits, zeros, n.point);
    assert n.digits + Zeros(zeros) + [] == n.digits + Zeros(zeros);
  }

  lemma SplitIsExact(n: Number)
    requires n.Dec? && 0 < n.point <= 21 && n.point < |n.digits|
    ensures Exact(Canonical(n)) == n
  {
    hide DigitsOf, NatOf, Zeros;
    assert n.digits[..n.point] + n.digits[n.point..] == n.digits;
  }

  lemma FractionIsExact(n: Number)
    requires n.Dec? && -6 < n.point <= 0
    ensures Exact(Canonical(n)) == n
  {
    hide DigitsOf, NatOf;
    NormalizeLeadingZeros(n.neg, 1 - n.point, n.digits, 1);
    assert [0] + (Zeros(-n.point) + n.digits) == Zeros(1 - n.point) + n.digits;
  }

  lemma ScientificIsExact(n: Number)
    requires n.Dec? && !(-6 < n.point <= 21)
    ensures Exact(Canonical(n)) == n
  {
    hide DigitsOf, NatOf, Zeros;
    var l := Canonical(n);
    assert l.whole + l.frac == n.digits;
    assert |l.whole| + Power(l.exp) == n.point;
  }

  /** The layout reads back to the decimal it was laid out from. */
  lemma CanonicalIsExact(n: Number)
    ensures Exact(Canonical(n)) == n
  {
    if n.Dec? {
      if |n.digits| <= n.point <= 21 {
        IntegerIsExact(n);
      } else if 0 < n.point <= 21 {
        SplitIsExact(n);
      } else if -6 < n.point <= 0 {
        FractionIsExact(n);
      } else {
        ScientificIsExact(n);
      }
    } else {
      assert [0] + [] == [0 as Digit];
      NormalizeLeadingZeros(false, 1, [], 1);
    }
  }

  /** Different decimals are laid out differently. */
  lemma NumberTextInjective(a: Number, b: Number)
    requires NumberText(a) == NumberText(b)
    ensures a == b
  {
    ReadLiteralOf(Canonical(a), "");
    ReadLiteralOf(Canonical(b), "");
    assert NumberText(a) + "" == NumberText(b) + "";
    CanonicalIsExact(a);
    CanonicalIsExact(b);
  }
}
