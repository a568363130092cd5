/** The real numbers that literals and decimals stand for. */
module NumberValue {
  import opened Number

  function Pow10(e: int): (r: real)
    ensures r > 0.0
    decreases if e < 0 then -e else e
  {
    if e == 0 then 1.0 else if e > 0 then 10.0 * Pow10(e - 1) else Pow10(e + 1) / 10.0
  }

  function SignOf(neg: bool): real { if neg then -1.0 else 1.0 }

  function RealOf(ds: seq<Digit>): real { NatOf(ds) as real }

  /** 10 to the exponent, or 1 divided by it. */
  function Scale(e: Exponent): real {
    match e
    case NoExponent => 1.0
    case Exponent(_, Minus, power) => 1.0 / Pow10(NatOf(power))
    case Exponent(_, _, power) => Pow10(NatOf(power))
  }

  /** Section 6 of RFC 8259: the whole and the fraction, scaled by the exponent. */
  function LiteralValue(l: Literal): real {
    SignOf(l.neg) * ((RealOf(l.whole) + RealOf(l.frac) / Pow10(|l.frac|)) * Scale(l.exp))
  }

  function DigitsValue(neg: bool, ds: seq<Digit>, point: int): real {
    SignOf(neg) * (RealOf(ds) * Pow10(point - |ds|))
  }

  function DecimalValue(n: Number): real {
    match n case Zero => 0.0 case Dec(neg, digits, point) => DigitsValue(neg, digits, point)
  }

  // ---------- powers ----------

  lemma PowNext(e: int)
    ensures Pow10(e + 1) == 10.0 * Pow10(e)
  {
  }

  lemma PowZero()
    ensures Pow10(0) == 1.0
  {
  }

  lemma {:induction false} PowAdd(a: int, b: nat)
    ensures Pow10(a + b) == Pow10(a) * Pow10(b)
    decreases b
  {
    hide Pow10;
    if b == 0 {
      PowZero();
    } else {
      PowAdd(a, b - 1);
      PowNext(a + (b - 1));
      PowNext(b - 1);
      TimesTen(Pow10(a), Pow10(b - 1));
    }
  }

  lemma TimesTen(x: real, y: real)
    ensures 10.0 * (x * y) == x * (10.0 * y)
  {
  }

  lemma PowInverse(n: int)
    requires n >= 0
    ensures Pow10(-n) * Pow10(n) == 1.0 && Pow10(-n) == 1.0 / Pow10(n)
  {
    PowAdd(-n, n);
    Inverse(Pow10(-n), Pow10(n));
  }

  lemma Inverse(x: real, y: real)
    requires x * y == 1.0 && y > 0.0
    ensures x == 1.0 / y
  {
  }

  // ---------- digits ----------

  lemma RealLast(ds: seq<Digit>)
    ensures RealOf([]) == 0.0
    ensures ds != [] ==> RealOf(ds) == RealOf(ds[..|ds| - 1]) * 10.0 + ds[|ds| - 1] as real
  {
  }

  lemma {:induction false} RealAppend(a: seq<Digit>, b: seq<Digit>)
    ensures RealOf(a + b) == RealOf(a) * Pow10(|b|) + RealOf(b)
  {
    hide Pow10, RealOf;
    if b == [] {
      assert a + b == a;
      PowZero();
      RealLast(b);
    } else {
      var init, last := b[..|b| - 1], b[|b| - 1];
      RealAppend(a, init);
      RealLast(a + b);
      RealLast(b);
      assert (a + b)[..|a + b| - 1] == a + init && (a + b)[|a + b| - 1] == last;
      PowNext(|init|);
      Spread(RealOf(a), Pow10(|init|), RealOf(init), last as real);
      assert RealOf(a + b) == RealOf(a + init) * 10.0 + last as real;
      assert RealOf(b) == RealOf(init) * 10.0 + last as real;
    }
  }

  lemma Spread(x: real, p: real, y: real, d: real)
    ensures (x * p + y) * 10.0 + d == x * (10.0 * p) + (y * 10.0 + d)
  {
  }

  lemma NormalizeTrailing(neg: bool, ds: seq<Digit>, point: int)
    requires ds != [] && ds[|ds| - 1] == 0
    ensures DigitsValue(neg, ds[..|ds| - 1], point) == DigitsValue(neg, ds, point)
  {
    var init := ds[..|ds| - 1];
    assert RealOf(ds) == RealOf(init) * 10.0;
    PowNext(point - |ds|);
    TimesTen(RealOf(init), Pow10(point - |ds|));
  }

  lemma NormalizeLeading(neg: bool, ds: seq<Digit>, point: int)
    requires ds != [] && ds[0] == 0
    ensures DigitsValue(neg, ds[1..], point - 1) == DigitsValue(neg, ds, point)
  {
    NatOfLeadingZero(ds[1..]);
    assert ds == [0] + ds[1..];
  }

  lemma {:induction false} NormalizeValue(neg: bool, ds: seq<Digit>, point: int)
    ensures DecimalValue(Normalize(neg, ds, point)) == DigitsValue(neg, ds, point)
    decreases |ds|
  {
    if ds != [] {
      if ds[0] == 0 {
        NormalizeLeading(neg, ds, point);
        NormalizeValue(neg, ds[1..], point - 1);
      } else if ds[|ds| - 1] == 0 {
        NormalizeTrailing(neg, ds, point);
        NormalizeValue(neg, ds[..|ds| - 1], point);
      }
    }
  }

  // ---------- the value of a literal ----------

  lemma ScaleIsPower(e: Exponent)
    ensures Scale(e) == Pow10(Power(e))
  {
    if e.Exponent? { PowInverse(NatOf(e.power)); }
  }

  /** The decimal that a literal is taken for is the number it stands for. */
  lemma ExactValue(l: Literal)
    ensures DecimalValue(Exact(l)) == LiteralValue(l)
  {
    hide Pow10, NatOf, Normalize, Power, Scale, RealOf, SignOf;
    var all, e, f := l.whole + l.frac, Power(l.exp), |l.frac|;
    NormalizeValue(l.neg, all, |l.whole| + e);
    assert |l.whole| + e - |all| == e - f;
    Unscaled(l.whole, l.frac, e);
    ScaleIsPower(l.exp);
  }

  lemma Unscaled(whole: seq<Digit>, frac: seq<Digit>, e: int)
    ensures RealOf(whole + frac) * Pow10(e - |frac|) == (RealOf(whole) + RealOf(frac) / Pow10(|frac|)) * Pow10(e)
  {
    hide Pow10, NatOf, RealOf;
    RealAppend(whole, frac);
    PowAdd(e - |frac|, |frac|);
    Rescale(RealOf(whole), RealOf(frac), Pow10(|frac|), Pow10(e - |frac|));
  }

  lemma Rescale(w: real, f: real, p: real, q: real)
    requires p > 0.0
    ensures (w * p + f) * q == (w + f / p) * (q * p)
  {
    var g := f / p;
    assert g * p == f;
    calc {
      (w + g) * (q * p);
    == (w + g) * p * q;
    == (w * p + g * p) * q;
    }
  }

  // ---------- one decimal for each number ----------

  lemma {:induction false} NatPositive(ds: seq<Digit>)
    requires ds != [] && ds[0] != 0
    ensures NatOf(ds) > 0
  {
    if |ds| > 1 { NatPositive(ds[..|ds| - 1]); }
  }

  lemma {:induction false} NatInjective(a: seq<Digit>, b: seq<Digit>)
    requires a != [] ==> a[0] != 0
    requires b != [] ==> b[0] != 0
    requires NatOf(a) == NatOf(b)
    ensures a == b
  {
    if a != [] { NatPositive(a); }
    if b != [] { NatPositive(b); }
    if a != [] && b != [] {
      var x, y := a[..|a| - 1], b[..|b| - 1];
      assert NatOf(a) == NatOf(x) * 10 + a[|a| - 1] && NatOf(b) == NatOf(y) * 10 + b[|b| - 1];
      NatInjective(x, y);
      assert a == x + [a[|a| - 1]] && b == y + [b[|b| - 1]];
    }
  }

  lemma {:induction false} IntPow(n: nat) returns (p: nat)
    ensures p as real == Pow10(n) && (n > 0 ==> p % 10 == 0)
  {
    if n == 0 {
      p := 1;
    } else {
      var q := IntPow(n - 1);
      p := 10 * q;
    }
  }

  lemma LastDigit(ds: seq<Digit>)
    requires ds != []
    ensures NatOf(ds) % 10 == ds[|ds| - 1]
  {
    var init := NatOf(ds[..|ds| - 1]);
    assert NatOf(ds) == init * 10 + ds[|ds| - 1];
  }

  lemma WholeProduct(n: nat, m: nat, p: nat)
    requires n as real == (m as real) * (p as real)
    ensures n == m * p
  {
    assert (m * p) as real == (m as real) * (p as real);
  }

  lemma Multiple(a: seq<Digit>, b: seq<Digit>, k: nat)
    requires a != [] && a[|a| - 1] != 0 && RealOf(a) == RealOf(b) * Pow10(k)
    ensures k == 0
  {
    hide Pow10, NatOf;
    var p := IntPow(k);
    WholeProduct(NatOf(a), NatOf(b), p);
    LastDigit(a);
    if k > 0 { TenDivides(NatOf(b), p); }
  }

  /** Without zeros at the end, digits that are scaled alike are equally long below the point. */
  lemma SameScale(a: seq<Digit>, b: seq<Digit>, e: int, k: nat)
    requires a != [] && a[|a| - 1] != 0 && RealOf(a) * Pow10(e) == RealOf(b) * Pow10(e + k)
    ensures k == 0
  {
    hide Pow10, NatOf;
    PowAdd(e, k);
    Cancel(RealOf(a), RealOf(b), Pow10(e), Pow10(k));
    Multiple(a, b, k);
  }

  lemma TenDivides(x: nat, p: nat)
    requires p % 10 == 0
    ensures (x * p) % 10 == 0
  {
    assert x * p == (x * (p / 10)) * 10;
  }

  lemma Cancel(x: real, y: real, p: real, q: real)
    requires p > 0.0 && x * p == y * (p * q)
    ensures x == y * q
  {
    assert (x - y * q) * p == 0.0;
  }

  lemma SignsAgree(m: bool, n: bool, x: real, y: real)
    requires x > 0.0 && y > 0.0 && SignOf(m) * x == SignOf(n) * y
    ensures m == n && x == y
  {
  }

  lemma Positive(x: real, y: real)
    requires x > 0.0 && y > 0.0
    ensures x * y > 0.0
  {
  }

  /** Different decimals are different numbers. */
  lemma DecimalsDiffer(a: Number, b: Number)
    requires DecimalValue(a) == DecimalValue(b)
    ensures a == b
  {
    hide Pow10, NatOf;
    if a.Dec? { NotZero(a); }
    if b.Dec? { NotZero(b); }
    if a.Dec? && b.Dec? {
      var e, f := a.point - |a.digits|, b.point - |b.digits|;
      NatPositive(a.digits);
      NatPositive(b.digits);
      Positive(RealOf(a.digits), Pow10(e));
      Positive(RealOf(b.digits), Pow10(f));
      SignsAgree(a.neg, b.neg, RealOf(a.digits) * Pow10(e), RealOf(b.digits) * Pow10(f));
      if e <= f { SameScale(a.digits, b.digits, e, f - e); } else { SameScale(b.digits, a.digits, f, e - f); }
      Cancel(RealOf(a.digits), RealOf(b.digits), Pow10(e), 1.0);
      NatInjective(a.digits, b.digits);
    }
  }

  lemma NotZero(n: Number)
    requires n.Dec?
    ensures DecimalValue(n) != 0.0
  {
    NatPositive(n.digits);
    Positive(RealOf(n.digits), Pow10(n.point - |n.digits|));
  }
}
