/** Strings in code-point order: Python's `sorted` and, on UTF-8, Go's `<` (ByteOrder). */
module StringOrder {
  import opened Unicode

  predicate Less(a: string, b: string) {
    b != "" && (a == "" || a[0] < b[0] || (a[0] == b[0] && Less(a[1..], b[1..])))
  }

  lemma {:induction false} LessOrder(a: string, b: string)
    ensures Less(a, b) || a == b || Less(b, a)
    ensures !(Less(a, b) && Less(b, a)) && !(a == b && Less(a, b))
  {
    if a != "" && b != "" {
      LessOrder(a[1..], b[1..]);
      assert a == [a[0]] + a[1..] && b == [b[0]] + b[1..];
    }
  }

  lemma {:induction false} LessTransitive(a: string, b: string, c: string)
    requires Less(a, b) && Less(b, c)
    ensures Less(a, c)
  {
    if a != "" && a[0] == b[0] == c[0] {
      LessTransitive(a[1..], b[1..], c[1..]);
    }
  }

  // ---------- Go's order on bytes ----------

  /** Go's `<` on strings, which are bytes. */
  predicate BytesLess(a: seq<Byte>, b: seq<Byte>) {
    b != [] && (a == [] || a[0] < b[0] || (a[0] == b[0] && BytesLess(a[1..], b[1..])))
  }

  lemma {:induction false} SamePrefix(c: seq<Byte>, a: seq<Byte>, b: seq<Byte>)
    ensures BytesLess(c + a, c + b) == BytesLess(a, b)
  {
    if c == [] {
      assert c + a == a && c + b == b;
    } else {
      SamePrefix(c[1..], a, b);
      assert (c + a)[1..] == c[1..] + a && (c + b)[1..] == c[1..] + b;
    }
  }

  /** Two byte sequences differ at a place behind a common prefix. */
  lemma {:induction false} DifferAt(i: nat, a: seq<Byte>, b: seq<Byte>)
    requires i < |a| && i < |b| && a[..i] == b[..i] && a[i] < b[i]
    ensures BytesLess(a, b) && !BytesLess(b, a)
  {
    if i > 0 {
      assert a[0] == a[..i][0] == b[..i][0] == b[0];
      assert a[1..][..i - 1] == a[..i][1..] == b[..i][1..] == b[1..][..i - 1];
      DifferAt(i - 1, a[1..], b[1..]);
    }
  }

  /** The first byte that differs decides as the scalar values do. */
  lemma ScalarsDiffer(c: char, d: char) returns (i: nat)
    requires c < d
    ensures var e, f := BytesOf(c), BytesOf(d);
            i < |e| && i < |f| && e[..i] == f[..i] && e[i] < f[i]
  {
    hide BytesOf;
    var e, f := BytesOf(c), BytesOf(d);
    JoinBytes(c);
    JoinBytes(d);
    i := if e[0] < f[0] then 0 else if e[1] < f[1] then 1 else if e[2] < f[2] then 2 else 3;
  }

  lemma ScalarOrder(c: char, d: char, a: seq<Byte>, b: seq<Byte>)
    requires c < d
    ensures BytesLess(BytesOf(c) + a, BytesOf(d) + b) && !BytesLess(BytesOf(d) + b, BytesOf(c) + a)
  {
    hide BytesOf, BytesLess;
    var i := ScalarsDiffer(c, d);
    var e, f := BytesOf(c) + a, BytesOf(d) + b;
    assert e[..i] == BytesOf(c)[..i] && f[..i] == BytesOf(d)[..i];
    DifferAt(i, e, f);
  }

  /** Code points order strings as the bytes of their UTF-8 do. */
  lemma {:induction false} ByteOrder(a: string, b: string)
    ensures Less(a, b) == BytesLess(Encode8(a), Encode8(b))
  {
    hide BytesOf;
    if a != "" && b != "" {
      if a[0] < b[0] {
        ScalarOrder(a[0], b[0], Encode8(a[1..]), Encode8(b[1..]));
      } else if b[0] < a[0] {
        ScalarOrder(b[0], a[0], Encode8(b[1..]), Encode8(a[1..]));
      } else {
        ByteOrder(a[1..], b[1..]);
        SamePrefix(BytesOf(a[0]), Encode8(a[1..]), Encode8(b[1..]));
      }
    }
  }

  // ---------- sorted listings ----------

  predicate Increasing(ts: seq<string>) { forall i, j | 0 <= i < j < |ts| :: Less(ts[i], ts[j]) }

  predicate Enumerates(ts: seq<string>, s: set<string>) {
    (forall i | 0 <= i < |ts| :: ts[i] in s) && forall x | x in s :: x in ts
  }

  predicate First(l: string, s: set<string>) {
    l in s && forall x | x in s :: x == l || Less(l, x)
  }

  lemma {:induction false} FirstExists(s: set<string>) returns (l: string)
    requires s != {}
    ensures First(l, s)
    decreases s
  {
    var x :| x in s;
    if s == {x} {
      l := x;
    } else {
      var m := FirstExists(s - {x});
      LessOrder(x, m);
      l := if Less(x, m) then x else m;
      forall k | k in s ensures k == l || Less(l, k) {
        if Less(x, m) && k != x && k != m {
          LessTransitive(x, m, k);
        }
      }
    }
  }

  lemma FirstUnique(a: string, b: string, s: set<string>)
    requires First(a, s) && First(b, s)
    ensures a == b
  {
    LessOrder(a, b);
  }

  /** sorted(...) */
  function Sorted(s: set<string>): (ts: seq<string>)
    ensures Increasing(ts) && Enumerates(ts, s)
    decreases s
  {
    if s == {} then []
    else
      assert exists l :: l in s && First(l, s) by { var l := FirstExists(s); }
      assert forall a, b | First(a, s) && First(b, s) :: a == b by {
        forall a, b | First(a, s) && First(b, s) ensures a == b { FirstUnique(a, b, s); }
      }
      var l :| l in s && First(l, s);
      [l] + Sorted(s - {l})
  }
}
