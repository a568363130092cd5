/** ecdsaDERToRaw: a strict reader of DER (X.690) for ECDSA values (section 2.2.3 of RFC 3279). */
module EcdsaDer {
  import opened Wrappers
  import opened Unicode

  // ---------- big-endian integers ----------

  function Pow256(k: nat): nat { if k == 0 then 1 else 256 * Pow256(k - 1) }

  function BigEndian(b: seq<Byte>): nat {
    if b == [] then 0 else BigEndian(b[..|b| - 1]) * 256 + b[|b| - 1]
  }

  /** The bytes of a number without leading zeros. */
  function Magnitude(n: nat): (b: seq<Byte>)
    ensures BigEndian(b) == n && (b != [] ==> b[0] != 0) && (n > 0 ==> b != [])
  {
    if n == 0 then [] else Magnitude(n / 256) + [n % 256]
  }

  lemma BigEndianSplits(head: seq<Byte>, last: Byte)
    ensures BigEndian(head + [last]) == BigEndian(head) * 256 + last
  {
    assert (head + [last])[..|head|] == head;
  }

  lemma MagnitudeStep(high: nat, last: Byte)
    requires high > 0 || last > 0
    ensures Magnitude(high * 256 + last) == Magnitude(high) + [last]
  {
    var n: nat := high * 256 + last;
    assert n / 256 == high && n % 256 == last;
  }

  lemma {:induction false} MagnitudeOf(b: seq<Byte>)
    requires b != [] ==> b[0] != 0
    ensures Magnitude(BigEndian(b)) == b
  {
    hide Magnitude;
    if b == [] {
      NoMagnitude();
    } else {
      var head, last := b[..|b| - 1], b[|b| - 1];
      MagnitudeOf(head);
      if |b| > 1 { Positive(head); }
      MagnitudeStep(BigEndian(head), last);
      assert b == head + [last];
    }
  }

  lemma NoMagnitude()
    ensures Magnitude(0) == []
  {
  }

  lemma {:induction false} Positive(b: seq<Byte>)
    requires b != [] && b[0] != 0
    ensures BigEndian(b) > 0
  {
    if |b| > 1 {
      Positive(b[..|b| - 1]);
    }
  }

  lemma {:induction false} MagnitudeBound(n: nat, k: nat)
    ensures |Magnitude(n)| <= k <==> n < Pow256(k)
    ensures Pow256(k) > 0
  {
    if k > 0 {
      var p := Pow256(k - 1);
      MagnitudeBound(n / 256, k - 1);
      assert n / 256 < p <==> n < 256 * p;
    }
  }

  /** A number that an ECDSA signature over a 256-bit curve may hold. */
  predicate InRange(n: nat) { 1 <= n < Pow256(32) }

  lemma {:induction false} Pow256Adds(a: nat, b: nat)
    ensures Pow256(a + b) == Pow256(a) * Pow256(b)
  {
    if a > 0 {
      Pow256Adds(a - 1, b);
      assert Pow256(a) * Pow256(b) == 256 * (Pow256(a - 1) * Pow256(b));
    }
  }

  lemma RangeIsTwoTo256()
    ensures Pow256(32) == 0x1_0000_0000_0000_0000_0000_0000_0000_0000_0000_0000_0000_0000_0000_0000_0000_0000
  {
    assert Pow256(4) == 0x1_0000_0000;
    Pow256Adds(4, 4);
    Pow256Adds(8, 8);
    Pow256Adds(16, 16);
  }

  // ---------- the encoding ----------

  /** The length octets, in the fewest octets. */
  function DerLength(n: nat): (l: seq<Byte>)
    requires n < 0x1_0000
    ensures 1 <= |l| <= 3 && (n < 0x80 ==> l == [n])
  {
    if n < 0x80 then [n] else if n < 0x100 then [0x81, n] else [0x82, n / 0x100, n % 0x100]
  }

  /** The contents of an integer: a zero octet in front when the first bit would make it negative. */
  function IntegerContents(n: nat): (b: seq<Byte>)
    requires InRange(n)
    ensures 1 <= |b| <= 33
  {
    MagnitudeBound(n, 32);
    if Magnitude(n)[0] >= 0x80 then [0] + Magnitude(n) else Magnitude(n)
  }

  function DerInteger(n: nat): (b: seq<Byte>)
    requires InRange(n)
    ensures 3 <= |b| <= 35 && |b| == 2 + |IntegerContents(n)|
  {
    [0x02] + (DerLength(|IntegerContents(n)|) + IntegerContents(n))
  }

  function DerSignature(r: nat, s: nat): seq<Byte>
    requires InRange(r) && InRange(s)
  {
    var body := DerInteger(r) + DerInteger(s);
    [0x30] + (DerLength(|body|) + body)
  }

  /** The 32 octets of a number, as the raw signature format has them. */
  function Raw32(n: nat): (b: seq<Byte>)
    requires InRange(n)
    ensures |b| == 32
  {
    MagnitudeBound(n, 32);
    seq(32 - |Magnitude(n)|, _ => 0) + Magnitude(n)
  }

  // ---------- encodings are prefix-free ----------

  predicate At(part: seq<Byte>, whole: seq<Byte>, offset: nat) {
    offset + |part| <= |whole| && whole[offset..offset + |part|] == part
  }

  lemma DerLengthUnique(a: nat, b: nat, whole: seq<Byte>, offset: nat)
    requires a < 0x1_0000 && b < 0x1_0000 && At(DerLength(a), whole, offset) && At(DerLength(b), whole, offset)
    ensures a == b
  {
    var x, y := DerLength(a), DerLength(b);
    assert x[0] == whole[offset..offset + |x|][0] == whole[offset] == whole[offset..offset + |y|][0] == y[0];
    assert |x| == |y|;
    assert x == y;
  }

  lemma IntegerContentsInjective(a: nat, b: nat)
    requires InRange(a) && InRange(b) && IntegerContents(a) == IntegerContents(b)
    ensures a == b
  {
    var x, y := Magnitude(a), Magnitude(b);
    if x[0] >= 0x80 {
      assert ([0] + x)[1..] == x;
      assert ([0] + y)[1..] == y;
    }
    assert BigEndian(x) == BigEndian(y);
  }

  lemma AtSplits(a: seq<Byte>, b: seq<Byte>, whole: seq<Byte>, offset: nat)
    ensures At(a + b, whole, offset) <==> At(a, whole, offset) && At(b, whole, offset + |a|)
  {
    if At(a + b, whole, offset) {
      var part := whole[offset..offset + |a + b|];
      assert part[..|a|] == a && part[|a|..] == b;
    }
    if At(a, whole, offset) && At(b, whole, offset + |a|) {
      assert whole[offset..offset + |a + b|] == whole[offset..offset + |a|] + whole[offset + |a|..offset + |a| + |b|];
    }
  }

  lemma DerIntegerSplits(n: nat, whole: seq<Byte>, offset: nat)
    requires InRange(n)
    ensures At(DerInteger(n), whole, offset) <==>
            && At([0x02], whole, offset)
            && At(DerLength(|IntegerContents(n)|), whole, offset + 1)
            && At(IntegerContents(n), whole, offset + 2)
  {
    hide IntegerContents, DerLength, Pow256, At;
    AtSplits([0x02], DerLength(|IntegerContents(n)|) + IntegerContents(n), whole, offset);
    AtSplits(DerLength(|IntegerContents(n)|), IntegerContents(n), whole, offset + 1);
  }

  lemma HoldsUnique(a: nat, b: nat, whole: seq<Byte>, start: nat, limit: nat)
    requires Holds(a, whole, start, limit) && Holds(b, whole, start, limit)
    ensures a == b
  {
    DerLengthUnique(|IntegerContents(a)|, |IntegerContents(b)|, whole, start + 1);
    IntegerContentsInjective(a, b);
  }

  // ---------- the reader ----------

  class DerReader {
    const signature: seq<Byte>
    var offset: nat

    constructor (signature: seq<Byte>)
      ensures this.signature == signature && offset == 0
    {
      this.signature := signature;
      offset := 0;
    }

    /** Reads length octets, and refuses any but the shortest of at most three. */
    method ReadLength(limit: nat) returns (r: Option<nat>)
      requires offset <= limit <= |signature|
      modifies this
      ensures r.Some? ==> r.value < 0x1_0000 && offset == old(offset) + |DerLength(r.value)| <= limit
                          && At(DerLength(r.value), signature, old(offset))
      ensures r.None? ==> forall n: nat | n < 0x1_0000 && old(offset) + |DerLength(n)| <= limit ::
                            !At(DerLength(n), signature, old(offset))
    {
      ghost var start := offset;
      forall n: nat | n < 0x1_0000 && At(DerLength(n), signature, start)
        ensures HoldsLength(n, signature, start)
      {
        DerLengthAt(n, signature, start);
      }
      if offset >= limit { return None; }
      var first := signature[offset];
      offset := offset + 1;
      if first < 0x80 { return Some(first); }
      var count := first - 0x80;
      if count < 1 || count > 2 || offset + count > limit { return None; }
      if signature[offset] == 0 { return None; }
      var length: nat := 0;
      var index := 0;
      while index < count
        invariant 0 <= index <= count && offset == start + 1 + index
        invariant length == (if index == 0 then 0 else if index == 1 then signature[start + 1] as int
                             else signature[start + 1] as int * 0x100 + signature[start + 2] as int)
      {
        length := length * 256 + signature[offset];
        offset := offset + 1;
        index := index + 1;
      }
      if length < 0x80 { return None; }
      DerLengthAt(length, signature, start);
      return Some(length);
    }

    /** Reads the tag and the length of the sequence. */
    method ReadSequence() returns (r: Option<nat>)
      requires offset == 0
      modifies this
      ensures r.Some? ==>
        && r.value < 0x1_0000 && offset == 1 + |DerLength(r.value)| <= |signature|
        && signature[0] == 0x30 && At(DerLength(r.value), signature, 1)
      ensures r.None? ==> forall r', s' :: !Laid(signature, r', s')
    {
      hide DerInteger, Holds, At;
      if offset >= |signature| { return None; }
      var tag := signature[offset];
      offset := offset + 1;
      if tag != 0x30 { return None; }
      r := ReadLength(|signature|);
    }

    /** Reads the tag and the length of an integer. */
    method ReadHeader(limit: nat) returns (r: Option<nat>)
      requires offset <= limit <= |signature|
      modifies this
      ensures r.Some? ==>
        && r.value < 0x1_0000 && offset == old(offset) + 1 + |DerLength(r.value)| <= limit
        && At([0x02], signature, old(offset)) && At(DerLength(r.value), signature, old(offset) + 1)
      ensures r.None? ==> forall n: nat :: !Holds(n, signature, old(offset), limit)
    {
      hide IntegerContents, DerLength;
      if offset >= limit { return None; }
      var tag := signature[offset];
      assert At([0x02], signature, offset) <==> tag == 0x02;
      offset := offset + 1;
      if tag != 0x02 { return None; }
      r := ReadLength(limit);
    }

    /** Reads one positive integer of at most 32 octets and pads it. */
    method ReadInteger(limit: nat) returns (r: Option<seq<Byte>>, ghost n: nat)
      requires offset <= limit <= |signature|
      modifies this
      ensures r.Some? ==> InRange(n) && Holds(n, signature, old(offset), limit) && r.value == Raw32(n)
                          && offset == old(offset) + |DerInteger(n)| <= limit
      ensures r.None? ==> forall m: nat :: !Holds(m, signature, old(offset), limit)
    {
      hide DerInteger, IntegerContents, DerLength, Pow256, Raw32;
      ghost var start := offset;
      var length := ReadHeader(limit);
      if length.None? { return None, 0; }
      forall m: nat | Holds(m, signature, start, limit)
        ensures length.value == |IntegerContents(m)| && offset == start + 2
                && signature[offset..offset + length.value] == IntegerContents(m)
      {
        DerLengthUnique(length.value, |IntegerContents(m)|, signature, start + 1);
      }
      if length.value == 0 || offset + length.value > limit { return None, 0; }
      var encoded := signature[offset..offset + length.value];
      offset := offset + length.value;
      r, n := PadInteger(encoded);
      if r.Some? {
        assert At(IntegerContents(n), signature, start + 2);
      }
    }
  }

  /** The checks on an integer's contents: no sign bit, no needless zero, not zero, at most 32 octets. */
  method PadInteger(encoded: seq<Byte>) returns (r: Option<seq<Byte>>, ghost n: nat)
    requires encoded != []
    ensures r.Some? ==> InRange(n) && encoded == IntegerContents(n) && r.value == Raw32(n)
    ensures r.None? ==> forall m: nat | InRange(m) :: IntegerContents(m) != encoded
  {
    hide Pow256, BigEndian, Magnitude;
    if encoded[0] >= 0x80 { return None, 0; }
    if |encoded| > 1 && encoded[0] == 0 && encoded[1] < 0x80 {
      forall m: nat | InRange(m) ensures IntegerContents(m) != encoded { ContentsForm(m); }
      return None, 0;
    }
    var integer := if |encoded| > 1 && encoded[0] == 0 then encoded[1..] else encoded;
    forall m: nat | InRange(m) && IntegerContents(m) == encoded ensures Magnitude(m) == integer {
      ContentsForm(m);
    }
    if forall i | 0 <= i < |integer| :: integer[i] == 0 {
      assert integer[0] == 0;
      return None, 0;
    }
    if |integer| > 32 {
      forall m: nat | InRange(m) ensures |Magnitude(m)| <= 32 { MagnitudeBound(m, 32); }
      return None, 0;
    }
    n := BigEndian(integer);
    Padded(integer);
    return Some(seq(32 - |integer|, _ => 0) + integer), n;
  }

  lemma Padded(integer: seq<Byte>)
    requires integer != [] && integer[0] != 0 && |integer| <= 32
    ensures var n := BigEndian(integer);
            InRange(n) && Magnitude(n) == integer && Raw32(n) == seq(32 - |integer|, _ => 0) + integer
  {
    MagnitudeOf(integer);
    MagnitudeBound(BigEndian(integer), 32);
    Positive(integer);
  }

  lemma ContentsForm(m: nat)
    requires InRange(m)
    ensures var c, x := IntegerContents(m), Magnitude(m);
            && x != [] && x[0] != 0
            && (x[0] < 0x80 ==> c == x)
            && (x[0] >= 0x80 ==> |c| > 1 && c[0] == 0 && c[1] == x[0] && c[1..] == x)
  {
  }

  /** The encoding of an integer stands at `start`, before `limit`. */
  ghost predicate Holds(n: nat, signature: seq<Byte>, start: nat, limit: nat) {
    && InRange(n) && start + 2 + |IntegerContents(n)| <= limit
    && At([0x02], signature, start)
    && At(DerLength(|IntegerContents(n)|), signature, start + 1)
    && At(IntegerContents(n), signature, start + 2)
  }

  /** The octets of a length stand at `start`. */
  predicate HoldsLength(n: nat, whole: seq<Byte>, start: nat) {
    && n < 0x1_0000 && start + |DerLength(n)| <= |whole|
    && if n < 0x80 then whole[start] == n
       else if n < 0x100 then whole[start] == 0x81 && whole[start + 1] == n
       else whole[start] == 0x82 && whole[start + 1] == n / 0x100 && whole[start + 2] == n % 0x100
  }

  lemma DerLengthAt(n: nat, whole: seq<Byte>, start: nat)
    requires n < 0x1_0000
    ensures At(DerLength(n), whole, start) <==> HoldsLength(n, whole, start)
  {
    var l := DerLength(n);
    if start + |l| <= |whole| {
      var part := whole[start..start + |l|];
      assert part == l <==> (part[0] == l[0] && (|l| > 1 ==> part[1] == l[1]) && (|l| > 2 ==> part[2] == l[2]));
    }
  }

  // ---------- ecdsaDERToRaw ----------

  ghost predicate Encodes(signature: seq<Byte>, r: nat, s: nat) {
    InRange(r) && InRange(s) && signature == DerSignature(r, s)
  }

  /**
   Accepts a byte string exactly when it is the DER encoding of a pair in range, and returns the pair as
   twice 32 octets.
   */
  method EcdsaDERToRaw(signature: seq<Byte>) returns (raw: Option<seq<Byte>>, ghost r: nat, ghost s: nat)
    ensures raw.Some? ==> Encodes(signature, r, s) && raw.value == Raw32(r) + Raw32(s)
    ensures raw.None? ==> forall r', s' :: !Encodes(signature, r', s')
  {
    hide DerInteger, IntegerContents, DerLength, Pow256, Raw32, Holds, At;
    r, s := 0, 0;
    forall r': nat, s': nat | Encodes(signature, r', s') ensures Laid(signature, r', s') {
      SignatureLaid(r', s');
    }
    var reader := new DerReader(signature);
    var sequenceLength := reader.ReadSequence();
    if sequenceLength.None? { return None, 0, 0; }
    var start := reader.offset;
    if start + sequenceLength.value != |signature| {
      forall r', s' ensures !Laid(signature, r', s') { LaidStart(signature, sequenceLength.value, r', s'); }
      return None, 0, 0;
    }
    var first, second;
    first, r := reader.ReadInteger(|signature|);
    if first.None? {
      forall r', s' ensures !Laid(signature, r', s') { LaidStart(signature, sequenceLength.value, r', s'); }
      return None, 0, 0;
    }
    second, s := reader.ReadInteger(|signature|);
    if second.None? || reader.offset != |signature| {
      forall r', s' ensures !Laid(signature, r', s') {
        LaidSecond(signature, sequenceLength.value, r, s, second.None?, r', s');
      }
      return None, 0, 0;
    }
    LaidSignature(signature, start, r, s);
    return Some(first.value + second.value), r, s;
  }

  /** The sequence length that was read is the encoded pair's, and so the pair starts at the third octet. */
  lemma LaidStart(signature: seq<Byte>, length: nat, r: nat, s: nat)
    requires length < 0x1_0000 && At(DerLength(length), signature, 1)
    ensures Laid(signature, r, s) ==> length == |signature| - 2 && |DerLength(length)| == 1
  {
    hide DerInteger, IntegerContents, DerLength;
    if Laid(signature, r, s) {
      DerLengthUnique(length, |DerInteger(r)| + |DerInteger(s)|, signature, 1);
    }
  }

  /** Once the first integer is read, there is no encoded pair unless the second ends the signature. */
  lemma LaidSecond(signature: seq<Byte>, length: nat, r: nat, s: nat, none: bool, r': nat, s': nat)
    requires length < 0x1_0000 && At(DerLength(length), signature, 1)
    requires Holds(r, signature, 1 + |DerLength(length)|, |signature|)
    requires var at := 1 + |DerLength(length)| + |DerInteger(r)|;
             if none then forall m: nat :: !Holds(m, signature, at, |signature|)
             else Holds(s, signature, at, |signature|) && at + |DerInteger(s)| != |signature|
    ensures !Laid(signature, r', s')
  {
    hide DerInteger, IntegerContents, DerLength;
    LaidStart(signature, length, r', s');
    if Laid(signature, r', s') {
      HoldsUnique(r, r', signature, 2, |signature|);
      if !none {
        HoldsUnique(s, s', signature, 2 + |DerInteger(r)|, |signature|);
      }
    }
  }

  /** Where the parts of an encoded signature stand. */
  ghost predicate Laid(signature: seq<Byte>, r: nat, s: nat) {
    && InRange(r) && InRange(s)
    && |signature| == 2 + |DerInteger(r)| + |DerInteger(s)| && signature[0] == 0x30
    && At(DerLength(|DerInteger(r)| + |DerInteger(s)|), signature, 1)
    && Holds(r, signature, 2, |signature|)
    && Holds(s, signature, 2 + |DerInteger(r)|, |signature|)
  }

  lemma SignatureLaid(r: nat, s: nat)
    requires InRange(r) && InRange(s)
    ensures Laid(DerSignature(r, s), r, s)
  {
    hide IntegerContents, DerLength, Pow256;
    var a, b, whole := DerInteger(r), DerInteger(s), DerSignature(r, s);
    AtSplits([0x30], DerLength(|a + b|) + (a + b), whole, 0);
    AtSplits(DerLength(|a + b|), a + b, whole, 1);
    AtSplits(a, b, whole, 2);
    assert whole[0..|whole|] == whole;
    DerIntegerSplits(r, whole, 2);
    DerIntegerSplits(s, whole, 2 + |a|);
  }

  lemma LaidSignature(signature: seq<Byte>, start: nat, r: nat, s: nat)
    requires InRange(r) && InRange(s) && signature != [] && signature[0] == 0x30
    requires var n := |signature| - start;
             0 <= n < 0x1_0000 && At(DerLength(n), signature, 1) && start == 1 + |DerLength(n)|
    requires Holds(r, signature, start, |signature|)
    requires Holds(s, signature, start + |DerInteger(r)|, |signature|)
    requires |signature| == start + |DerInteger(r)| + |DerInteger(s)|
    ensures signature == DerSignature(r, s)
  {
    hide IntegerContents, DerLength, Pow256, DerInteger, InRange;
    var a, b := DerInteger(r), DerInteger(s);
    DerIntegerSplits(r, signature, start);
    DerIntegerSplits(s, signature, start + |a|);
    AtSplits(a, b, signature, start);
    AtSplits(DerLength(|a + b|), a + b, signature, 1);
    assert signature == [signature[0]] + signature[1..];
    assert signature[1..] == signature[1..1 + |DerLength(|a + b|) + (a + b)|];
  }

  lemma Raw32Injective(a: nat, b: nat)
    requires InRange(a) && InRange(b) && Raw32(a) == Raw32(b)
    ensures a == b
  {
    MagnitudeBound(a, 32);
    MagnitudeBound(b, 32);
    BigEndianPadded(32 - |Magnitude(a)|, Magnitude(a));
    BigEndianPadded(32 - |Magnitude(b)|, Magnitude(b));
  }

  lemma {:induction false} BigEndianPadded(zeros: nat, b: seq<Byte>)
    ensures BigEndian(seq(zeros, _ => 0) + b) == BigEndian(b)
  {
    var whole := seq(zeros, _ => 0) + b;
    if b != [] {
      BigEndianPadded(zeros, b[..|b| - 1]);
      BigEndianSplits(seq(zeros, _ => 0) + b[..|b| - 1], b[|b| - 1]);
      assert whole == seq(zeros, _ => 0) + b[..|b| - 1] + [b[|b| - 1]];
    } else if zeros > 0 {
      BigEndianPadded(zeros - 1, []);
      assert whole == (seq(zeros - 1, _ => 0) + []) + [0];
      BigEndianSplits(seq(zeros - 1, _ => 0) + [], 0);
    }
  }

  /** Two signatures that are read as the same octets are the same signature. */
  lemma ReaderInjective(a: seq<Byte>, b: seq<Byte>, r: nat, s: nat, r': nat, s': nat)
    requires Encodes(a, r, s) && Encodes(b, r', s') && Raw32(r) + Raw32(s) == Raw32(r') + Raw32(s')
    ensures a == b
  {
    assert Raw32(r) == (Raw32(r) + Raw32(s))[..32] == Raw32(r');
    assert Raw32(s) == (Raw32(r) + Raw32(s))[32..] == (Raw32(r') + Raw32(s'))[32..] == Raw32(s');
    Raw32Injective(r, r');
    Raw32Injective(s, s');
  }

  /** A signature that encodes a pair in range has a short length octet: the long form is never accepted. */
  lemma NoLongForm(signature: seq<Byte>, r: nat, s: nat)
    requires Encodes(signature, r, s)
    ensures 8 <= |signature| <= 72 && signature[1] as int == |signature| - 2 < 0x80
  {
    SignatureLaid(r, s);
    DerLengthAt(|signature| - 2, signature, 1);
  }
}
