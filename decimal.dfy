/** The integer-to-text helpers of the SL formatter: the length of the
    decimal text of an unsigned or signed 64-bit integer, and its
    conversion, which emits the digits least significant first and then
    reverses them in place. Integers are unbounded here; the one place
    where the 64-bit width matters, the negation of the most negative
    value, is written out. */
module Decimal {
  import opened Bytes

  const ZERO: byte := 0x30
  const MINUS: byte := 0x2D

  /** uint64_t holds values below 2^64, int64_t from -2^63 to 2^63 - 1. */
  const U64Limit: nat := 0x1_0000_0000_0000_0000
  const I64Min: int := -0x8000_0000_0000_0000

  predicate IsDigit(b: byte) { ZERO <= b <= 0x39 }

  function DigitValue(b: byte): (d: nat)
    requires IsDigit(b)
    ensures d < 10
  {
    (b as int) - (ZERO as int)
  }

  /** The character of a digit value. */
  function DigitByte(d: nat): (b: byte)
    requires d < 10
    ensures IsDigit(b) && DigitValue(b) == d
  {
    (0x30 + d) as byte
  }

  /** The digits of u least significant first, as the conversion loop
      emits them: at least one, so zero gives "0". */
  function LowFirst(u: nat): (r: seq<byte>)
    decreases u
  {
    [DigitByte(u % 10)] + (if u / 10 == 0 then [] else LowFirst(u / 10))
  }

  /** The digits still to come once the value has been divided down to v. */
  function More(v: nat): (r: seq<byte>)
  {
    if v == 0 then [] else LowFirst(v)
  }

  /** The decimal text of u, most significant digit first. */
  function U64Text(u: nat): (r: seq<byte>)
    decreases u
  {
    (if u / 10 == 0 then [] else U64Text(u / 10)) + [DigitByte(u % 10)]
  }

  /** The value of a string of digits read most significant first. */
  function Value(ds: seq<byte>): nat
    requires forall i :: 0 <= i < |ds| ==> IsDigit(ds[i])
  {
    if ds == [] then 0
    else Value(ds[..|ds| - 1]) * 10 + DigitValue(ds[|ds| - 1])
  }

  function Reverse(s: seq<byte>): (r: seq<byte>)
    ensures |r| == |s| && forall i :: 0 <= i < |s| ==> r[i] == s[|s| - 1 - i]
  {
    seq(|s|, i requires 0 <= i < |s| => s[|s| - 1 - i])
  }

  function Pow10(n: nat): (r: nat)
    ensures r >= 1
  {
    if n == 0 then 1 else 10 * Pow10(n - 1)
  }

  /** The text is a non-empty string of digits without a leading zero
      (but for zero itself) that reads back as u; its length is the
      number of decimal digits of u. */
  lemma U64TextReadsBack(u: nat)
    ensures |U64Text(u)| >= 1
    ensures forall i :: 0 <= i < |U64Text(u)| ==> IsDigit(U64Text(u)[i])
    ensures Value(U64Text(u)) == u
    ensures U64Text(u)[0] == ZERO <==> u == 0
    ensures u < Pow10(|U64Text(u)|) && (|U64Text(u)| > 1 ==> Pow10(|U64Text(u)| - 1) <= u)
  {
    U64TextDigits(u);
    U64TextValue(u);
    U64TextLength(u);
  }

  /** The text of u is the text of u / 10, when that is not zero, and
      the last digit. */
  lemma U64TextSnoc(u: nat)
    ensures var t := U64Text(u); |t| >= 1 && t[|t| - 1] == DigitByte(u % 10)
    ensures u / 10 == 0 ==> U64Text(u) == [DigitByte(u % 10)]
    ensures u / 10 != 0 ==> U64Text(u) == U64Text(u / 10) + [DigitByte(u % 10)]
  {
  }

  /** The text is digits, with a leading '0' only for zero. */
  lemma {:induction false} U64TextDigits(u: nat)
    decreases u
    ensures |U64Text(u)| >= 1
    ensures forall i :: 0 <= i < |U64Text(u)| ==> IsDigit(U64Text(u)[i])
    ensures U64Text(u)[0] == ZERO <==> u == 0
  {
    U64TextSnoc(u);
    if u / 10 != 0 {
      U64TextDigits(u / 10);
      var h := U64Text(u / 10);
      assert U64Text(u)[0] == h[0];
      forall i | 0 <= i < |U64Text(u)| ensures IsDigit(U64Text(u)[i]) {
        if i < |h| {
          assert U64Text(u)[i] == h[i];
        }
      }
    }
  }

  /** The text reads back as u. */
  lemma {:induction false} U64TextValue(u: nat)
    decreases u
    ensures forall i :: 0 <= i < |U64Text(u)| ==> IsDigit(U64Text(u)[i])
    ensures Value(U64Text(u)) == u
  {
    U64TextDigits(u);
    U64TextSnoc(u);
    var t := U64Text(u);
    if u / 10 == 0 {
      assert t[..0] == [];
    } else {
      var h := U64Text(u / 10);
      U64TextValue(u / 10);
      assert t[..|t| - 1] == h;
      ValueSnoc(t, h, u / 10, u % 10);
    }
  }

  /** Appending the digit r to the text of q reads back as q * 10 + r. */
  lemma ValueSnoc(t: seq<byte>, h: seq<byte>, q: nat, r: nat)
    requires r < 10 && |t| >= 1 && t[..|t| - 1] == h && t[|t| - 1] == DigitByte(r)
    requires forall i :: 0 <= i < |t| ==> IsDigit(t[i])
    requires forall i :: 0 <= i < |h| ==> IsDigit(h[i])
    requires Value(h) == q
    ensures Value(t) == q * 10 + r
  {
  }

  /** The length of the text is the number of decimal digits of u. */
  lemma {:induction false} U64TextLength(u: nat)
    decreases u
    ensures u < Pow10(|U64Text(u)|) && (|U64Text(u)| > 1 ==> Pow10(|U64Text(u)| - 1) <= u)
  {
    U64TextSnoc(u);
    if u / 10 != 0 {
      var h := U64Text(u / 10);
      U64TextLength(u / 10);
      U64TextDigits(u / 10);
      assert |U64Text(u)| == |h| + 1;
      PowerStep(u, |h|);
    }
  }

  /** u has one digit more than u / 10 when u / 10 is not zero. */
  lemma PowerStep(u: nat, n: nat)
    requires n >= 1 && u / 10 < Pow10(n) && (n > 1 ==> Pow10(n - 1) <= u / 10) && u / 10 != 0
    ensures u < Pow10(n + 1) && Pow10(n) <= u
  {
    assert Pow10(n + 1) == 10 * Pow10(n);
    if n > 1 {
      assert Pow10(n) == 10 * Pow10(n - 1);
    }
  }

  /** Different values have different texts. */
  lemma U64TextInjective(u: nat, v: nat)
    requires U64Text(u) == U64Text(v)
    ensures u == v
  {
    U64TextReadsBack(u);
    U64TextReadsBack(v);
  }

  /** Reversing the emitted digits gives the text. */
  lemma {:induction false} LowFirstReversed(u: nat)
    decreases u
    ensures Reverse(LowFirst(u)) == U64Text(u)
  {
    var d := DigitByte(u % 10);
    if u / 10 == 0 {
      assert LowFirst(u) == [d];
    } else {
      LowFirstReversed(u / 10);
      ReverseCons(d, LowFirst(u / 10));
    }
  }

  lemma ReverseCons(d: byte, s: seq<byte>)
    ensures Reverse([d] + s) == Reverse(s) + [d]
  {
  }

  /** sl_u64_str_len: one digit, then one more for every division by ten
      that leaves something. */
  method U64StrLen(u: nat) returns (len: nat)
    ensures len == |U64Text(u)|
  {
    var v: nat := u / 10;
    len := 1;
    while v != 0
      invariant len + |More(v)| == |LowFirst(u)|
      decreases v
    {
      v := v / 10;
      len := len + 1;
    }
    LowFirstReversed(u);
  }

  /** sl_u64_to_str: the digits of u and a terminator written at p;
      nothing else in a changes. */
  method U64ToStr(a: array<byte>, p: nat, u: nat)
    requires p + |U64Text(u)| < a.Length
    modifies a
    ensures a[..] == old(a[..p]) + U64Text(u) + [0] + old(a[p + |U64Text(u)| + 1..])
  {
    ghost var b0 := a[..];
    LowFirstReversed(u);
    var c := EmitLowFirst(a, p, u);
    a[c] := 0;
    ReverseInPlace(a, p, c);
    Rebuilt(b0, a[..], p, U64Text(u));
  }

  /** The first loop of sl_u64_to_str: the digits least significant
      first, written from p on; c is where they end. */
  method EmitLowFirst(a: array<byte>, p: nat, u: nat) returns (c: nat)
    requires p + |LowFirst(u)| < a.Length
    modifies a
    ensures c == p + |LowFirst(u)| && a[p..c] == LowFirst(u)
    ensures forall k {:trigger a[k]} :: 0 <= k < a.Length && !(p <= k < c) ==> a[k] == old(a[k])
  {
    ghost var w := LowFirst(u);
    var v: nat := u;
    c := p;
    a[c] := DigitByte(v % 10);
    c, v := c + 1, v / 10;
    while v != 0
      invariant p < c && c - p + |More(v)| == |w|
      invariant a[p..c] + More(v) == w
      invariant forall k {:trigger a[k]} :: 0 <= k < a.Length && !(p <= k < c) ==> a[k] == old(a[k])
      decreases v
    {
      ghost var b1 := a[..];
      var d := DigitByte(v % 10);
      a[c] := d;
      EmitStep(b1, a[..], p, c, d, v, w);
      c, v := c + 1, v / 10;
    }
  }

  /** One digit emitted at c keeps the digits written followed by the
      digits still to come equal to all of them. */
  lemma EmitStep(b1: seq<byte>, b2: seq<byte>, p: nat, c: nat, d: byte, v: nat, w: seq<byte>)
    requires p <= c < |b1| && v != 0 && d == DigitByte(v % 10)
    requires b1[p..c] + More(v) == w && b2 == b1[c := d]
    ensures b2[p..c + 1] + More(v / 10) == w
  {
    assert More(v) == [d] + More(v / 10);
    assert b2[p..c + 1] == b1[p..c] + [d];
  }

  /** The reversal loop of sl_u64_to_str: the bytes in [p, c) swapped end
      for end, towards the middle. */
  method ReverseInPlace(a: array<byte>, p: nat, c: nat)
    requires p <= c < a.Length
    modifies a
    ensures a[p..c] == Reverse(old(a[p..c]))
    ensures forall k {:trigger a[k]} :: 0 <= k < a.Length && !(p <= k < c) ==> a[k] == old(a[k])
  {
    ghost var b0 := a[..];
    ghost var w := a[p..c];
    if p == c {
      return;
    }
    var lo, hi := p, c - 1;
    while lo < hi
      invariant p <= lo <= hi + 1 && hi < c && lo + hi == p + c - 1
      invariant forall k {:trigger a[k]} :: 0 <= k < a.Length ==>
        a[k] == if p <= k < lo || hi < k < c then b0[p + c - 1 - k] else b0[k]
    {
      a[lo], a[hi] := a[hi], a[lo];
      lo, hi := lo + 1, hi - 1;
    }
    forall i | 0 <= i < c - p
      ensures a[p..c][i] == Reverse(w)[i]
    {
      assert a[p + i] == b0[c - 1 - i];
    }
  }

  /** Byte by byte, b1 is b0 with x and a terminator written at p. */
  lemma Rebuilt(b0: seq<byte>, b1: seq<byte>, p: nat, x: seq<byte>)
    requires |b1| == |b0| && p + |x| < |b0|
    requires b1[p..p + |x|] == x && b1[p + |x|] == 0
    requires forall k {:trigger b1[k]} :: 0 <= k < |b1| && !(p <= k <= p + |x|) ==> b1[k] == b0[k]
    ensures b1 == b0[..p] + x + [0] + b0[p + |x| + 1..]
  {
    var r := b0[..p] + x + [0] + b0[p + |x| + 1..];
    forall k | 0 <= k < |b1| ensures b1[k] == r[k] {
      if p <= k < p + |x| {
        assert b1[k] == b1[p..p + |x|][k - p];
      }
    }
  }

  // ----- signed integers

  /** The magnitude sl_i64_str_len and sl_i64_to_str pass on for a
      negative i: -i computed in 64-bit two's complement, then read as
      an unsigned 64-bit value. For the most negative value the
      negation wraps back onto itself, and reading that as unsigned
      gives 2^63 again, so the magnitude is right in every case. That
      negation is signed overflow, undefined in ISO C11; the model
      assumes the compiler wraps. */
  function Negate64(i: int): (r: nat)
    requires I64Min <= i < 0
    ensures r == -i
  {
    var neg := if -i == -I64Min then I64Min else -i;
    (neg + U64Limit) % U64Limit
  }

  /** The decimal text of a signed integer: a '-' before the text of
      the magnitude when it is negative. */
  function I64Text(i: int): (r: seq<byte>)
    requires I64Min <= i
  {
    if i < 0 then [MINUS] + U64Text(Negate64(i)) else U64Text(i)
  }

  /** The value of the signed text. */
  function SignedValue(t: seq<byte>): int
    requires |t| >= 1 && forall i :: 1 <= i < |t| ==> IsDigit(t[i])
    requires t[0] == MINUS || IsDigit(t[0])
  {
    if t[0] == MINUS then 0 - Value(t[1..]) else Value(t)
  }

  /** The signed text reads back as i; its first byte is '-' exactly for
      a negative i. */
  lemma I64TextReadsBack(i: int)
    requires I64Min <= i
    ensures |I64Text(i)| >= 1 && (I64Text(i)[0] == MINUS <==> i < 0)
    ensures i >= 0 ==> IsDigit(I64Text(i)[0])
    ensures forall k :: 1 <= k < |I64Text(i)| ==> IsDigit(I64Text(i)[k])
    ensures SignedValue(I64Text(i)) == i
  {
    var t := I64Text(i);
    if i < 0 {
      U64TextReadsBack(-i);
      assert t[1..] == U64Text(-i);
    } else {
      U64TextReadsBack(i);
    }
  }

  /** The most negative 64-bit value has its full text. */
  lemma I64MinText()
    ensures I64Text(I64Min) == [MINUS] + U64Text(0x8000_0000_0000_0000)
  {
  }

  /** sl_i64_str_len: the unsigned length, and one more for the sign. */
  method I64StrLen(i: int) returns (len: nat)
    requires I64Min <= i
    ensures len == |I64Text(i)|
  {
    if i < 0 {
      var n := U64StrLen(Negate64(i));
      len := n + 1;
    } else {
      len := U64StrLen(i);
    }
  }

  /** sl_i64_to_str: the sign, then the unsigned conversion after it. */
  method I64ToStr(a: array<byte>, p: nat, i: int)
    requires I64Min <= i && p + |I64Text(i)| < a.Length
    modifies a
    ensures a[..] == old(a[..p]) + I64Text(i) + [0] + old(a[p + |I64Text(i)| + 1..])
  {
    if i < 0 {
      NegativeToStr(a, p, i);
    } else {
      U64ToStr(a, p, i);
    }
  }

  /** The negative case of sl_i64_to_str: '-' at p, then the magnitude. */
  method NegativeToStr(a: array<byte>, p: nat, i: int)
    requires I64Min <= i < 0 && p + |I64Text(i)| < a.Length
    modifies a
    ensures a[..] == old(a[..p]) + I64Text(i) + [0] + old(a[p + |I64Text(i)| + 1..])
  {
    ghost var b0 := a[..];
    var m := Negate64(i);
    ghost var x := U64Text(m);
    ghost var y := I64Text(i);
    assert y == [MINUS] + x;
    a[p] := MINUS;
    ghost var b1 := a[..];
    U64ToStr(a, p + 1, m);
    SignAhead(b0, b1, a[..], p, x, y);
  }

  /** A '-' at p and the text x with its terminator after it make up
      y == "-" + x and a terminator at p. */
  lemma SignAhead(b0: seq<byte>, b1: seq<byte>, b2: seq<byte>, p: nat, x: seq<byte>, y: seq<byte>)
    requires y == [MINUS] + x && p + |y| < |b0| && b1 == b0[p := MINUS]
    requires b2 == b1[..p + 1] + x + [0] + b1[p + 1 + |x| + 1..]
    ensures b2 == b0[..p] + y + [0] + b0[p + |y| + 1..]
  {
    assert b1[..p + 1] == b0[..p] + [MINUS];
    assert b1[p + 1 + |x| + 1..] == b0[p + |y| + 1..];
  }

  /** The texts of some values: 0, 7, 42, 100 and -42. */
  lemma TextExamples()
    ensures U64Text(0) == [0x30] && U64Text(7) == [0x37]
    ensures U64Text(42) == [0x34, 0x32] && U64Text(100) == [0x31, 0x30, 0x30]
    ensures I64Text(-42) == [0x2D, 0x34, 0x32]
  {
    assert U64Text(4) == [0x34];
    assert U64Text(10) == [0x31, 0x30] by {
      assert U64Text(1) == [0x31];
    }
  }
}
