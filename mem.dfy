/** The byte-array primitives the library is built from: copying a value
    into a buffer (strncpy, sl_cpy), filling, and memmove in both
    directions. */
module Mem {
  import opened Bytes

  /** Write src into a at position at; nothing else changes. */
  method CopyIn(a: array<byte>, at: nat, src: seq<byte>)
    requires at + |src| <= a.Length
    modifies a
    ensures a[..] == old(a[..at]) + src + old(a[at + |src|..])
  {
    ghost var b0 := a[..];
    var i := 0;
    while i < |src|
      invariant 0 <= i <= |src|
      invariant forall k {:trigger a[k]} :: 0 <= k < a.Length ==> a[k] == if at <= k < at + i then src[k - at] else b0[k]
    {
      a[at + i] := src[i];
      i := i + 1;
    }
    Overwritten(b0, a[..], at, src);
  }

  /** Write n copies of c at position at; nothing else changes. */
  method Fill(a: array<byte>, at: nat, c: byte, n: nat)
    requires at + n <= a.Length
    modifies a
    ensures a[..] == old(a[..at]) + Repeat(c, n) + old(a[at + n..])
  {
    ghost var b0 := a[..];
    var i := 0;
    while i < n
      invariant 0 <= i <= n
      invariant forall k {:trigger a[k]} :: 0 <= k < a.Length ==> a[k] == if at <= k < at + i then Repeat(c, n)[k - at] else b0[k]
    {
      a[at + i] := c;
      i := i + 1;
    }
    Overwritten(b0, a[..], at, Repeat(c, n));
  }

  /** memmove towards the start: the n bytes at src go to dst <= src,
      copied from the front so that no byte is overwritten before it is
      read. */
  method MoveLeft(a: array<byte>, dst: nat, src: nat, n: nat)
    requires dst <= src && src + n <= a.Length
    modifies a
    ensures a[..] == old(a[..dst]) + old(a[src..src + n]) + old(a[dst + n..])
  {
    ghost var b0 := a[..];
    var i := 0;
    while i < n
      invariant 0 <= i <= n
      invariant forall k {:trigger a[k]} :: 0 <= k < a.Length ==> a[k] == if dst <= k < dst + i then b0[src + k - dst] else b0[k]
    {
      assert a[src + i] == b0[src + i];
      a[dst + i] := a[src + i];
      i := i + 1;
    }
    Moved(b0, a[..], dst, src, n);
  }

  /** memmove towards the end: the n bytes at src go to dst >= src,
      copied from the back. */
  method MoveRight(a: array<byte>, dst: nat, src: nat, n: nat)
    requires src <= dst && dst + n <= a.Length
    modifies a
    ensures a[..] == old(a[..dst]) + old(a[src..src + n]) + old(a[dst + n..])
  {
    ghost var b0 := a[..];
    var i := n;
    while i > 0
      invariant 0 <= i <= n
      invariant forall k {:trigger a[k]} :: 0 <= k < a.Length ==> a[k] == if dst + i <= k < dst + n then b0[src + k - dst] else b0[k]
    {
      assert a[src + i - 1] == b0[src + i - 1];
      a[dst + i - 1] := a[src + i - 1];
      i := i - 1;
    }
    Moved(b0, a[..], dst, src, n);
  }

  /** Byte by byte, b1 is b0 with src written at position at. */
  lemma Overwritten(b0: seq<byte>, b1: seq<byte>, at: nat, src: seq<byte>)
    requires |b1| == |b0| && at + |src| <= |b0|
    requires forall k {:trigger b1[k]} :: 0 <= k < |b1| ==> b1[k] == if at <= k < at + |src| then src[k - at] else b0[k]
    ensures b1 == b0[..at] + src + b0[at + |src|..]
  {
  }

  /** Byte by byte, b1 is b0 with the n bytes at src copied to dst. */
  lemma Moved(b0: seq<byte>, b1: seq<byte>, dst: nat, src: nat, n: nat)
    requires |b1| == |b0| && dst + n <= |b0| && src + n <= |b0|
    requires forall k {:trigger b1[k]} :: 0 <= k < |b1| ==> b1[k] == if dst <= k < dst + n then b0[src + k - dst] else b0[k]
    ensures b1 == b0[..dst] + b0[src..src + n] + b0[dst + n..]
  {
  }
}
