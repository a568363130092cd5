/**
 canonicalNumber of canonical.go: two renderings of a double, chosen at 1e-6 and 1e21.
 The rendering has two branches, which are one layout.
 */
module CanonicalNumber {
  import opened Wrappers
  import opened Number

  /** From the exact decimal of a literal to the shortest decimal of the nearest double, None on overflow. */
  type Rounding = Number -> Option<Number>

  /** The law of shortest digits: they read back to the same double. */
  ghost predicate IsRounding(round: Rounding) {
    forall n: Number | round(n).Some? :: round(round(n).value) == round(n)
  }

  function Min(a: int, b: int): int { if a < b then a else b }
  function Max(a: int, b: int): int { if a < b then b else a }

  /** strconv.FormatFloat(value, 'f', -1, 64), for given shortest digits. */
  function FormatF(n: Number): string
    requires n.Dec?
  {
    MinusText(n.neg) + (WholeF(n) + FracF(n))
  }

  function WholeF(n: Number): string
    requires n.Dec?
  {
    var k := |n.digits|;
    if n.point > 0 then DigitsText(n.digits[..Min(k, n.point)]) + DigitsText(Zeros(Max(n.point - k, 0)))
    else "0"
  }

  function FracF(n: Number): string
    requires n.Dec?
  {
    var prec := Max(|n.digits| - n.point, 0);
    if prec > 0 then "." + seq(prec, i requires 0 <= i < prec => FracCharF(n, i)) else ""
  }

  function FracCharF(n: Number, i: nat): char
    requires n.Dec?
  {
    var j := n.point + i;
    if 0 <= j < |n.digits| then DigitChar(n.digits[j]) else '0'
  }

  /** strconv.FormatFloat(value, 'e', -1, 64): the exponent has at least two digits. */
  function FormatE(n: Number): string
    requires n.Dec?
  {
    Mantissa(n) + ("e" + PowerText(n))
  }

  function PowerText(n: Number): string
    requires n.Dec?
  {
    var e := n.point - 1;
    var power := DigitsOf(if e < 0 then -e else e);
    (if e < 0 then "-" else "+") + DigitsText(if |power| < 2 then [0] + power else power)
  }

  function Mantissa(n: Number): string
    requires n.Dec?
  {
    MinusText(n.neg) + (DigitsText(n.digits[..1]) + FracText(n.digits[1..]))
  }

  /** strings.SplitN(s, "e", 2) when it yields two parts. */
  function SplitAtE(s: string): Option<(string, string)> {
    if s == "" then None
    else if s[0] == 'e' then Some(("", s[1..]))
    else match SplitAtE(s[1..])
         case None => None
         case Some((head, tail)) => Some(([s[0]] + head, tail))
  }

  /** strconv.Atoi. */
  function Atoi(s: string): Option<int> {
    var (sign, digits) := ReadSign(s);
    var (ds, rest) := TakeDigits(digits);
    if ds == [] || rest != "" then None
    else Some(if sign == Sign.Minus then 0 - NatOf(ds) as int else NatOf(ds))
  }

  function Itoa(n: int): string {
    if n < 0 then "-" + DigitsText(DigitsOf(-n)) else DigitsText(DigitsOf(n))
  }

  /** |n| >= 10^p: the leading digit of a normal decimal stands at the place 10^(point - 1). */
  predicate AtLeastPowerOfTen(n: Number, p: int)
    requires n.Dec?
  {
    n.point - 1 >= p
  }

  /** The exponent field, rewritten without padding and with its sign. */
  function PowerOf(exponent: int): string {
    "e" + ((if exponent >= 0 then "+" else "") + Itoa(exponent))
  }

  function ScientificText(value: Number): Option<string>
    requires value.Dec?
  {
    match SplitAtE(FormatE(value))
    case None => None
    case Some((mantissa, power)) =>
      match Atoi(power)
      case None => None
      case Some(exponent) => Some(mantissa + PowerOf(exponent))
  }

  function CanonicalNumberText(round: Rounding, raw: Literal): Option<string> {
    match round(Exact(raw))
    case None => None
    case Some(value) =>
      if value.Zero? then Some("0")
      else if AtLeastPowerOfTen(value, -6) && !AtLeastPowerOfTen(value, 21) then Some(FormatF(value))
      else ScientificText(value)
  }

  // ---------- both branches are the ECMAScript layout ----------

  lemma {:induction false} DigitsTextAppend(a: seq<Digit>, b: seq<Digit>)
    ensures DigitsText(a + b) == DigitsText(a) + DigitsText(b)
  {
    if a == [] {
      assert a + b == b;
    } else {
      assert (a + b)[1..] == a[1..] + b;
      DigitsTextAppend(a[1..], b);
    }
  }

  lemma {:induction false} DigitsTextAt(ds: seq<Digit>, i: nat)
    requires i < |ds|
    ensures DigitsText(ds)[i] == DigitChar(ds[i])
  {
    if i > 0 {
      DigitsTextAt(ds[1..], i - 1);
    }
  }

  lemma WholeFIsCanonical(n: Number)
    requires n.Dec? && -6 < n.point <= 21
    ensures WholeF(n) == DigitsText(Canonical(n).whole)
  {
    var k := |n.digits|;
    assert n.digits[..k] == n.digits;
    if k <= n.point {
      DigitsTextAppend(n.digits, Zeros(n.point - k));
    } else if n.point > 0 {
      assert DigitsText(Zeros(0)) == "";
    } else {
      assert DigitsText([0 as Digit]) == "0";
    }
  }

  lemma FracFIsCanonical(n: Number)
    requires n.Dec? && -6 < n.point <= 21
    ensures FracF(n) == FracText(Canonical(n).frac)
  {
    var prec, frac := Max(|n.digits| - n.point, 0), Canonical(n).frac;
    assert |frac| == prec;
    if prec > 0 {
      var text := seq(prec, i requires 0 <= i < prec => FracCharF(n, i));
      forall i: nat | i < prec ensures DigitsText(frac)[i] == text[i] {
        DigitsTextAt(frac, i);
      }
      assert DigitsText(frac) == text;
    }
  }

  lemma FormatFIsCanonical(n: Number)
    requires n.Dec? && -6 < n.point <= 21
    ensures FormatF(n) == NumberText(n)
  {
    WholeFIsCanonical(n);
    FracFIsCanonical(n);
    var l := Canonical(n);
    assert l.exp == NoExponent && l.neg == n.neg;
    assert FracText(l.frac) + "" == FracText(l.frac);
  }

  lemma NoEInDigits(ds: seq<Digit>)
    ensures 'e' !in DigitsText(ds)
  {
  }

  lemma {:induction false} SplitAtEOf(head: string, tail: string)
    requires 'e' !in head
    ensures SplitAtE(head + ("e" + tail)) == Some((head, tail))
  {
    var s := head + ("e" + tail);
    if head == "" {
      assert s == "e" + tail;
      assert s[1..] == tail;
    } else {
      assert s[1..] == head[1..] + ("e" + tail);
      SplitAtEOf(head[1..], tail);
      assert s[0] == head[0] && [head[0]] + head[1..] == head;
    }
  }

  lemma DigitsTextStarts(ds: seq<Digit>)
    requires ds != []
    ensures DigitsText(ds) != "" && IsDigit(DigitsText(ds)[0])
  {
  }

  lemma AtoiOf(neg: bool, ds: seq<Digit>)
    requires ds != []
    ensures Atoi((if neg then "-" else "+") + DigitsText(ds)) == Some(if neg then 0 - NatOf(ds) as int else NatOf(ds))
  {
    hide DigitsOf, DigitsText, NatOf, TakeDigits, ReadSign;
    DigitsTextStarts(ds);
    ReadSignOf(if neg then Sign.Minus else Plus, DigitsText(ds));
    TakeDigitsOf(ds, "");
    assert DigitsText(ds) + "" == DigitsText(ds);
  }

  lemma FormatEReads(n: Number)
    requires n.Dec?
    ensures SplitAtE(FormatE(n)) == Some((Mantissa(n), PowerText(n)))
    ensures Atoi(PowerText(n)) == Some(n.point - 1)
  {
    hide DigitsText, SplitAtE, Atoi, NatOf;
    var e := n.point - 1;
    var digits := DigitsOf(if e < 0 then -e else e);
    NoEInDigits(n.digits[..1]);
    NoEInDigits(n.digits[1..]);
    SplitAtEOf(Mantissa(n), PowerText(n));
    NatOfLeadingZero(digits);
    AtoiOf(e < 0, if |digits| < 2 then [0] + digits else digits);
  }

  lemma SignedPower(sign: string, digits: string)
    ensures "e" + ("" + (sign + digits)) == "e" + (sign + digits) == ("e" + sign) + digits
    ensures ['e'] + sign + digits == "e" + sign + digits
  {
    assert "" + (sign + digits) == sign + digits;
    Assoc("e", sign, digits);
  }

  lemma PowerOfIsCanonical(n: Number)
    requires n.Dec? && !(-6 < n.point <= 21)
    ensures PowerOf(n.point - 1) == ExpText(Canonical(n).exp)
  {
    hide DigitsText, DigitsOf;
    var e := n.point - 1;
    var digits := DigitsText(DigitsOf(if e < 0 then -e else e));
    SignedPower(if e < 0 then "-" else "+", digits);
  }

  lemma ScientificTextIsCanonical(n: Number)
    requires n.Dec? && !(-6 < n.point <= 21)
    ensures ScientificText(n) == Some(NumberText(n))
  {
    hide FormatE, SplitAtE, Atoi, PowerOf, DigitsText;
    var l := Canonical(n);
    FormatEReads(n);
    PowerOfIsCanonical(n);
    Assoc(DigitsText(l.whole), FracText(l.frac), ExpText(l.exp));
    Assoc(MinusText(n.neg), DigitsText(l.whole) + FracText(l.frac), ExpText(l.exp));
    assert l.whole == n.digits[..1] && l.frac == n.digits[1..];
  }

  /** The rendering of canonical.go is the layout RFC 8785 takes from ECMAScript, for every literal. */
  lemma CanonicalNumberIsLayout(round: Rounding, raw: Literal)
    requires IsRounding(round)
    ensures CanonicalNumberText(round, raw)
         == match round(Exact(raw)) case None => None case Some(value) => Some(NumberText(value))
  {
    match round(Exact(raw))
    case None =>
    case Some(value) =>
      if value.Zero? {
        assert DigitsText([0 as Digit]) == "0";
        assert LiteralText(Canonical(value)) == "0";
      } else if -6 < value.point <= 21 {
        FormatFIsCanonical(value);
      } else {
        ScientificTextIsCanonical(value);
      }
  }
}
