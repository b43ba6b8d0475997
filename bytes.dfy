/** Byte-level vocabulary of the SL string library: C strings, the
    strncpy padding rule, byte remapping and ASCII case rules. */
module Bytes {

  type byte = bv8

  /** A value, or the C library's NULL / -1 for "none". */
  datatype Option<T> = None | Some(value: T)

  const SLASH: byte := 0x2F
  const DOT: byte := 0x2E
  const PERCENT: byte := 0x25

  function Max(a: int, b: int): int { if a < b then b else a }
  function Min(a: int, b: int): int { if a < b then a else b }

  /** A C string: none of its bytes is the terminating zero. */
  predicate NoZero(s: seq<byte>) { forall i :: 0 <= i < |s| ==> s[i] != 0 }

  /** strlen: the index of the first zero byte, or |s| when there is none. */
  function StrLen(s: seq<byte>): (n: nat)
    ensures n <= |s|
    ensures forall i :: 0 <= i < n ==> s[i] != 0
    ensures n < |s| ==> s[n] == 0
  {
    if s == [] || s[0] == 0 then 0
    else
      var m := StrLen(s[1..]);
      assert forall i :: 1 <= i < 1 + m ==> s[i] == s[1..][i - 1];
      1 + m
  }

  /** The C string that starts at the first byte of s. */
  function CStr(s: seq<byte>): (r: seq<byte>)
    ensures NoZero(r) && r <= s
    ensures |r| < |s| ==> s[|r|] == 0
  {
    s[..StrLen(s)]
  }

  lemma {:induction false} StrLenOfText(s: seq<byte>, rest: seq<byte>)
    requires NoZero(s)
    ensures StrLen(s) == |s|
    ensures StrLen(s + [0] + rest) == |s|
  {
    if s != [] {
      StrLenOfText(s[1..], rest);
      assert (s + [0] + rest)[1..] == s[1..] + [0] + rest;
    }
  }

  lemma CStrOfText(s: seq<byte>, rest: seq<byte>)
    requires NoZero(s)
    ensures CStr(s) == s
    ensures CStr(s + [0] + rest) == s
  {
    StrLenOfText(s, rest);
  }

  function Zeros(n: nat): (r: seq<byte>)
    ensures |r| == n && forall i :: 0 <= i < n ==> r[i] == 0
  {
    seq(n, _ => 0)
  }

  /** What strncpy(dst, src, |s| + 1) leaves in dst[0..|s|) when src
      holds s followed by a terminator: the bytes up to the first zero,
      then zero padding. */
  function Padded(s: seq<byte>): (r: seq<byte>)
    ensures |r| == |s|
    ensures forall i :: 0 <= i < |s| ==> r[i] == if i < StrLen(s) then s[i] else 0
  {
    CStr(s) + Zeros(|s| - StrLen(s))
  }

  lemma PaddedOfText(s: seq<byte>)
    requires NoZero(s)
    ensures Padded(s) == s
  {
    CStrOfText(s, []);
  }

  /** slswp on values: every byte f becomes t. */
  function Swap(s: seq<byte>, f: byte, t: byte): (r: seq<byte>)
    ensures |r| == |s|
    ensures forall i {:trigger r[i]} :: 0 <= i < |s| ==> r[i] == if s[i] == f then t else s[i]
  {
    seq(|s|, i requires 0 <= i < |s| => if s[i] == f then t else s[i])
  }

  /** Repair after a split: nulling every c and mapping zero back to c
      is the identity on a C string. */
  lemma SwapRepairs(s: seq<byte>, c: byte)
    requires NoZero(s)
    ensures Swap(Swap(s, c, 0), 0, c) == s
  {
    var r := Swap(Swap(s, c, 0), 0, c);
    forall i | 0 <= i < |s| ensures r[i] == s[i] {
      assert s[i] != 0;
    }
  }

  /** The number of bytes c in s. */
  function Count(s: seq<byte>, c: byte): nat
  {
    if s == [] then 0 else (if s[0] == c then 1 else 0) + Count(s[1..], c)
  }

  lemma {:induction false} CountConcat(x: seq<byte>, y: seq<byte>, c: byte)
    ensures Count(x + y, c) == Count(x, c) + Count(y, c)
  {
    if x != [] {
      assert (x + y)[1..] == x[1..] + y;
      CountConcat(x[1..], y, c);
    } else {
      assert x + y == y;
    }
  }

  lemma {:induction false} CountNone(s: seq<byte>, c: byte)
    requires forall j :: 0 <= j < |s| ==> s[j] != c
    ensures Count(s, c) == 0
  {
    if s != [] {
      CountNone(s[1..], c);
    }
  }

  function Repeat(c: byte, n: nat): (r: seq<byte>)
    ensures |r| == n && forall i :: 0 <= i < n ==> r[i] == c
  {
    seq(n, _ => c)
  }

  predicate IsLower(b: byte) { 0x61 <= b <= 0x7A }
  predicate IsUpper(b: byte) { 0x41 <= b <= 0x5A }

  /** toupper in the C locale. */
  function ToUpper(b: byte): (r: byte)
    ensures IsLower(b) ==> r == b - 0x20 && IsUpper(r)
    ensures !IsLower(b) ==> r == b
  {
    if IsLower(b) then b - 0x20 else b
  }

  /** tolower in the C locale. */
  function ToLower(b: byte): (r: byte)
    ensures IsUpper(b) ==> r == b + 0x20 && IsLower(r)
    ensures !IsUpper(b) ==> r == b
  {
    if IsUpper(b) then b + 0x20 else b
  }

  function UpperAll(s: seq<byte>): (r: seq<byte>)
    ensures |r| == |s| && forall i :: 0 <= i < |s| ==> r[i] == ToUpper(s[i])
  {
    seq(|s|, i requires 0 <= i < |s| => ToUpper(s[i]))
  }

  function LowerAll(s: seq<byte>): (r: seq<byte>)
    ensures |r| == |s| && forall i :: 0 <= i < |s| ==> r[i] == ToLower(s[i])
  {
    seq(|s|, i requires 0 <= i < |s| => ToLower(s[i]))
  }

  /** Case mapping keeps the zero byte where it is, so a C string stays one. */
  lemma CaseKeepsText(s: seq<byte>)
    requires NoZero(s)
    ensures NoZero(UpperAll(s)) && NoZero(LowerAll(s))
  {
  }

  /** Upper-casing after lower-casing is upper-casing, and both are idempotent. */
  lemma CaseRoundTrip(s: seq<byte>)
    ensures UpperAll(LowerAll(s)) == UpperAll(s)
    ensures LowerAll(UpperAll(s)) == LowerAll(s)
    ensures UpperAll(UpperAll(s)) == UpperAll(s)
    ensures LowerAll(LowerAll(s)) == LowerAll(s)
  {
  }
}
