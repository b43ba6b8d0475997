/** Splitting a managed string in place and joining pieces: sldiv and
    slseg (count the pieces, or null the first byte of every delimiter
    and record where each piece starts), slglu, the token cursor sltok
    and slext.

    A recorded piece start is an offset into the string's buffer; the
    piece is the C string found there once the delimiters are nulled. */
module Split {
  import opened Bytes
  import opened Search
  import opened Pieces
  import opened SlString
  import Mem

  // ----- one step of the piece recursion

  lemma SegNext(s: seq<byte>, d: seq<byte>, a: nat, b: nat)
    requires a <= |s| && Occ(s, d, a) >= 0 && b == Occ(s, d, a) + |d|
    ensures SegFrom(s, d, a) == [a] + SegFrom(s, d, b)
  {
  }

  lemma SegLast(s: seq<byte>, d: seq<byte>, a: nat)
    requires a <= |s| && Occ(s, d, a) < 0
    ensures SegFrom(s, d, a) == [a]
    ensures NulledFrom(s, d, a) == s[a..]
  {
  }

  /** After the last piece start there is no further occurrence. */
  lemma OccAtEnd(s: seq<byte>, d: seq<byte>)
    ensures Occ(s, d, |s|) < 0
  {
  }

  // ----- the piece-start storage

  /** The storage of size slots after a split that found the starts st:
      the first starts that fit, then whatever the slots held before. */
  function Record(st: seq<nat>, size: nat, d0: seq<nat>): (r: seq<nat>)
    requires size <= |d0|
    ensures |r| == |d0|
    ensures forall k :: 0 <= k < Min(size, |st|) ==> r[k] == st[k]
    ensures forall k :: Min(size, |st|) <= k < |d0| ==> r[k] == d0[k]
  {
    var m := Min(size, |st|);
    st[..m] + d0[m..]
  }

  /** Recording one more start writes its slot when there is one. */
  lemma RecordPush(st: seq<nat>, x: nat, size: nat, d0: seq<nat>)
    requires size <= |d0|
    ensures |st| < size ==> Record(st + [x], size, d0) == Record(st, size, d0)[|st| := x]
    ensures |st| >= size ==> Record(st + [x], size, d0) == Record(st, size, d0)
  {
    var l := Record(st + [x], size, d0);
    var r := if |st| < size then Record(st, size, d0)[|st| := x] else Record(st, size, d0);
    forall k | 0 <= k < |d0| ensures l[k] == r[k] {
    }
  }

  /** The piece starts the scan of s[a..i) for the byte c records: a,
      and the position after every c. */
  function ByteStarts(s: seq<byte>, c: byte, a: nat, i: nat): (r: seq<nat>)
    requires a <= i <= |s|
    decreases i - a
    ensures |r| >= 1 && r[0] == a
  {
    if i == a then [a] else ByteStarts(s, c, a, i - 1) + (if s[i - 1] == c then [i] else [])
  }

  lemma {:induction false} ByteStartsNone(s: seq<byte>, c: byte, a: nat, i: nat)
    requires a <= i <= |s| && forall j :: a <= j < i ==> s[j] != c
    decreases i - a
    ensures ByteStarts(s, c, a, i) == [a]
  {
    if i > a {
      ByteStartsNone(s, c, a, i - 1);
    }
  }

  lemma {:induction false} ByteStartsShift(s: seq<byte>, c: byte, a: nat, e: nat, i: nat)
    requires a <= e < i <= |s| && s[e] == c && forall j :: a <= j < e ==> s[j] != c
    decreases i - a
    ensures ByteStarts(s, c, a, i) == [a] + ByteStarts(s, c, e + 1, i)
  {
    if i == e + 1 {
      ByteStartsNone(s, c, a, e);
    } else {
      ByteStartsShift(s, c, a, e, i - 1);
    }
  }

  lemma {:induction false} ByteStartsFrom(s: seq<byte>, c: byte, a: nat)
    requires a <= |s|
    decreases |s| - a
    ensures ByteStarts(s, c, a, |s|) == SegFrom(s, [c], a)
  {
    if Occ(s, [c], a) < 0 {
      OccIsFirst(s, [c], a);
      forall j | a <= j < |s| ensures s[j] != c {
        MatchOneByte(s, c, j);
      }
      ByteStartsNone(s, c, a, |s|);
      SegLast(s, [c], a);
    } else {
      var b := Occ(s, [c], a) + 1;
      ByteStartsFrom(s, c, b);
      OccByteFirst(s, c, a);
      ByteStartsShift(s, c, a, Occ(s, [c], a), |s|);
      SegNext(s, [c], a, b);
    }
  }

  /** The byte scan finds the pieces of the split on [c]. */
  lemma ByteStartsAreStarts(s: seq<byte>, c: byte)
    ensures ByteStarts(s, c, 0, |s|) == SegStarts(s, [c])
  {
    ByteStartsFrom(s, c, 0);
  }

  /** Record one more piece start in its slot, when there is a slot. */
  method Note(div: array<nat>, k: nat, size: nat, a: nat, ghost st: seq<nat>, ghost d0: seq<nat>)
    requires |st| == k && size <= div.Length == |d0| && div[..] == Record(st, size, d0)
    modifies div
    ensures div[..] == Record(st + [a], size, d0)
  {
    RecordPush(st, a, size, d0);
    if k < size {
      div[k] := a;
    }
  }

  /** sldiv_base in count mode (size < 0): the number of pieces, one more
      than the number of bytes c; nothing is written. */
  method DivCount(b: array<byte>, n: nat, c: byte) returns (cnt: nat)
    requires n < b.Length && b[n] == 0 && NoZero(b[..n])
    ensures cnt == |SegStarts(b[..n], [c])|
  {
    ghost var s := b[..n];
    var i := 0;
    var divcnt := 0;
    while b[i] != 0
      invariant i <= n
      invariant |ByteStarts(s, c, 0, i)| == divcnt + 1
      decreases n - i
    {
      if b[i] == c {
        divcnt := divcnt + 1;
      }
      i := i + 1;
    }
    ByteStartsAreStarts(s, c);
    cnt := divcnt + 1;
  }

  /** Every c before the scan position is nulled, every other byte kept. */
  lemma SwappedBytes(b0: seq<byte>, b1: seq<byte>, n: nat, c: byte)
    requires n <= |b0| == |b1|
    requires forall k {:trigger b1[k]} :: 0 <= k < |b1| ==> b1[k] == if k < n && b0[k] == c then 0 else b0[k]
    ensures b1 == Swap(b0[..n], c, 0) + b0[n..]
  {
  }

  /** sldiv_base in split mode, with the skip after a recorded delimiter
      removed (see DivAsWritten): every c is nulled and the start of each
      of the first size pieces is recorded. */
  method DivSplit(b: array<byte>, n: nat, c: byte, size: nat, div: array<nat>) returns (cnt: nat)
    requires n < b.Length && b[n] == 0 && NoZero(b[..n]) && size <= div.Length
    requires b as object != div as object
    modifies b, div
    ensures cnt == |SegStarts(old(b[..n]), [c])|
    ensures b[..] == Swap(old(b[..n]), c, 0) + old(b[n..])
    ensures div[..] == Record(SegStarts(old(b[..n]), [c]), size, old(div[..]))
  {
    ghost var s := b[..n];
    ghost var b0 := b[..];
    ghost var d0 := div[..];
    var i := 0;
    var divcnt := 0;
    var a := 0;
    ghost var ga := 0;
    ghost var st: seq<nat> := [];
    while b[i] != 0
      invariant i <= n
      invariant |st| == divcnt && (divcnt <= size ==> a == ga)
      invariant ByteStarts(s, c, 0, i) == st + [ga]
      invariant forall k {:trigger b[k]} :: 0 <= k < b.Length ==> b[k] == if k < i && b0[k] == c then 0 else b0[k]
      invariant div[..] == Record(st, size, d0)
      decreases n - i
    {
      if b[i] == c {
        b[i] := 0;
        RecordPush(st, ga, size, d0);
        if divcnt < size {
          div[divcnt] := a;
          a := i + 1;
        }
        st := st + [ga];
        ga := i + 1;
        divcnt := divcnt + 1;
      }
      i := i + 1;
    }
    assert i == n;
    ByteStartsAreStarts(s, c);
    RecordPush(st, ga, size, d0);
    if divcnt < size {
      div[divcnt] := a;
    }
    st := st + [ga];
    cnt := divcnt + 1;
    SwappedBytes(b0, b[..], n, c);
  }

  lemma NulledNext(s: seq<byte>, d: seq<byte>, a: nat, b: nat)
    requires a <= |s| && Occ(s, d, a) >= 0 && b == Occ(s, d, a) + |d|
    ensures NulledFrom(s, d, a) == NullAt(s, a, Occ(s, d, a), b) + NulledFrom(s, d, b)
  {
  }

  /** Nulling the byte at e, inside the untouched part from a on, extends
      the nulled prefix by the piece that ends there. */
  lemma NullStep(ob: seq<byte>, nb: seq<byte>, b0: seq<byte>, s: seq<byte>, a: nat, e: nat, b: nat)
    requires a <= e < b <= |s| <= |b0| == |ob| && s == b0[..|s|]
    requires ob[a..] == b0[a..] && nb == ob[e := 0]
    ensures nb[..b] == ob[..a] + NullAt(s, a, e, b)
    ensures nb[b..] == b0[b..]
  {
    forall k | a <= k < b ensures nb[k] == NullAt(s, a, e, b)[k - a] {
      assert ob[k] == ob[a..][k - a] == b0[k];
      NullAtBytes(s, a, e, b);
    }
    assert nb[b..] == ob[b..] == ob[a..][b - a..];
  }

  /** One occurrence handled: its first byte nulled, its piece start
      recorded, the scan moved past it. sa/sn and na/nn are the starts
      and the nulled bytes from a and from next. */
  lemma SegAdvance(s: seq<byte>, a: nat, e: nat, next: nat, st: seq<nat>, all: seq<nat>, nl: seq<byte>,
                   sa: seq<nat>, sn: seq<nat>, na: seq<byte>, nn: seq<byte>,
                   ob: seq<byte>, nb: seq<byte>, b0: seq<byte>)
    requires a <= e < next <= |s| <= |b0| == |ob| && s == b0[..|s|]
    requires sa == [a] + sn && na == NullAt(s, a, e, next) + nn
    requires all == st + sa && nl == ob[..a] + na && ob[a..] == b0[a..]
    requires nb == ob[e := 0]
    ensures all == (st + [a]) + sn
    ensures nl == nb[..next] + nn && nb[next..] == b0[next..]
  {
    NullStep(ob, nb, b0, s, a, e, next);
  }

  /** The scan has stopped at a, at the end or with no further
      occurrence: the last piece starts there. */
  lemma SegFinish(s: seq<byte>, d: seq<byte>, a: nat, st: seq<nat>, bs: seq<byte>, b0: seq<byte>)
    requires a <= |s| <= |b0| == |bs| && s == b0[..|s|]
    requires a == |s| || Occ(s, d, a) < 0
    requires SegStarts(s, d) == st + SegFrom(s, d, a)
    requires SegNulled(s, d) == bs[..a] + NulledFrom(s, d, a) && bs[a..] == b0[a..]
    ensures SegStarts(s, d) == st + [a]
    ensures bs == SegNulled(s, d) + b0[|s|..]
  {
    if a == |s| {
      OccAtEnd(s, d);
    }
    SegLast(s, d, a);
    assert bs == bs[..a] + bs[a..];
    assert b0[a..] == s[a..] + b0[|s|..];
  }

  /** Bytes from a on that are untouched read as the string's. */
  lemma TailOfPrefix(bs: seq<byte>, b0: seq<byte>, s: seq<byte>, a: nat, n: nat)
    requires a <= n == |s| <= |b0| == |bs| && s == b0[..n] && bs[a..] == b0[a..]
    ensures bs[..n][a..] == s[a..]
  {
    assert bs[..n][a..] == bs[a..][..n - a] == b0[a..][..n - a];
  }

  /** One round of slseg_base's scan from a: the next occurrence of d is
      searched for and, when there is one, its first byte is nulled. */
  method SegNull(b: array<byte>, n: nat, d: seq<byte>, a: nat, ghost s: seq<byte>, ghost b0: seq<byte>,
                 ghost st: seq<nat>, ghost all: seq<nat>, ghost nl: seq<byte>) returns (found: bool, next: nat)
    requires a <= n == |s| < b.Length == |b0| && s == b0[..n]
    requires all == st + SegFrom(s, d, a) && nl == b[..a] + NulledFrom(s, d, a) && b[a..] == b0[a..]
    modifies b
    ensures !found ==> Occ(s, d, a) < 0 && b[..] == old(b[..])
    ensures found ==> a < next <= n && all == (st + [a]) + SegFrom(s, d, next)
    ensures found ==> nl == b[..next] + NulledFrom(s, d, next) && b[next..] == b0[next..]
  {
    TailOfPrefix(b[..], b0, s, a, n);
    FindSameTail(b[..n], s, d, a);
    OccIsFind(s, d, a);
    var idx := Find(b[..n], d, a);
    found := idx >= 0;
    next := a;
    if found {
      next := idx + |d|;
      NulledNext(s, d, a, next);
      SegNext(s, d, a, next);
      ghost var ob := b[..];
      b[idx] := 0;
      SegAdvance(s, a, idx, next, st, all, nl, SegFrom(s, d, a), SegFrom(s, d, next),
                 NulledFrom(s, d, a), NulledFrom(s, d, next), ob, b[..], b0);
    }
  }

  /** slseg_base in split mode: the first byte of every occurrence of d,
      found from left to right, is nulled and the start of each of the
      first size pieces is recorded. The search is the intended first
      occurrence (Search.Find), not the scan of slidx as written. */
  method SegSplit(b: array<byte>, n: nat, d: seq<byte>, size: nat, div: array<nat>) returns (cnt: nat)
    requires n < b.Length && b[n] == 0 && NoZero(b[..n]) && size <= div.Length
    requires b as object != div as object
    modifies b, div
    ensures cnt == |SegStarts(old(b[..n]), d)|
    ensures b[..] == SegNulled(old(b[..n]), d) + old(b[n..])
    ensures div[..] == Record(SegStarts(old(b[..n]), d), size, old(div[..]))
  {
    ghost var s := b[..n];
    ghost var b0 := b[..];
    ghost var d0 := div[..];
    var a, divcnt, st := SegScan(b, n, d, size, div, s, b0, d0);
    SegFinish(s, d, a, st, b[..], b0);
    Note(div, divcnt, size, a, st, d0);
    cnt := divcnt + 1;
  }

  /** The scan of slseg_base up to the last piece start a: the first byte
      of every occurrence before it is nulled and the starts before it
      are recorded. */
  method SegScan(b: array<byte>, n: nat, d: seq<byte>, size: nat, div: array<nat>,
                 ghost s: seq<byte>, ghost b0: seq<byte>, ghost d0: seq<nat>) returns (a: nat, divcnt: nat, ghost st: seq<nat>)
    requires n == |s| < b.Length == |b0| && s == b0[..n] && b[..] == b0 && b[n] == 0 && NoZero(s)
    requires size <= div.Length && div[..] == d0 && b as object != div as object
    modifies b, div
    ensures a <= n && |st| == divcnt && (a == n || Occ(s, d, a) < 0)
    ensures SegStarts(s, d) == st + SegFrom(s, d, a)
    ensures SegNulled(s, d) == b[..a] + NulledFrom(s, d, a) && b[a..] == b0[a..]
    ensures div[..] == Record(st, size, d0)
  {
    divcnt := 0;
    a := 0;
    st := [];
    ghost var all, nl := SegStarts(s, d), SegNulled(s, d);
    while b[a] != 0
      invariant a <= n && |st| == divcnt && b.Length == |b0|
      invariant all == st + SegFrom(s, d, a)
      invariant nl == b[..a] + NulledFrom(s, d, a)
      invariant b[a..] == b0[a..]
      invariant div[..] == Record(st, size, d0)
      decreases n - a
    {
      var found, next := SegNull(b, n, d, a, s, b0, st, all, nl);
      if found {
        Note(div, divcnt, size, a, st, d0);
        st := st + [a];
        a := next;
        divcnt := divcnt + 1;
      } else {
        return;
      }
    }
    ZeroEnds(b0, b[..], s, n, a);
  }

  /** The scan stops at a zero, and the only zero of the string is its
      terminator. */
  lemma ZeroEnds(b0: seq<byte>, bs: seq<byte>, s: seq<byte>, n: nat, a: nat)
    requires a <= n == |s| < |b0| == |bs| && s == b0[..n] && NoZero(s)
    requires bs[a..] == b0[a..] && bs[a] == 0
    ensures a == n
  {
    assert bs[a] == bs[a..][0] == b0[a];
    assert forall i :: 0 <= i < n ==> b0[i] == s[i];
  }

  /** slseg_base in count mode: the number of pieces; nothing is written. */
  method SegCount(b: array<byte>, n: nat, d: seq<byte>) returns (cnt: nat)
    requires n < b.Length && b[n] == 0 && NoZero(b[..n])
    ensures cnt == |SegStarts(b[..n], d)|
  {
    var s := b[..n];
    var divcnt := 0;
    var a := 0;
    while b[a] != 0
      invariant a <= n
      invariant |SegStarts(s, d)| == divcnt + |SegFrom(s, d, a)|
      decreases n - a
    {
      var idx := Find(s, d, a);
      if idx >= 0 {
        var next := idx + |d|;
        CountNext(s, d, a, idx, next);
        a, divcnt := next, divcnt + 1;
      } else {
        break;
      }
    }
    CountLast(s, d, a);
    cnt := divcnt + 1;
  }

  /** A piece found at a: one start more, and the scan goes on after
      the occurrence. */
  lemma CountNext(s: seq<byte>, d: seq<byte>, a: nat, idx: int, next: int)
    requires a <= |s| && idx == Find(s, d, a) && idx >= 0 && next == idx + |d|
    ensures a < next <= |s| && |SegFrom(s, d, a)| == 1 + |SegFrom(s, d, next)|
  {
    OccIsFind(s, d, a);
    SegNext(s, d, a, next);
  }

  /** The scan stops at the end or when no occurrence follows: the
      last piece starts there. */
  lemma CountLast(s: seq<byte>, d: seq<byte>, a: nat)
    requires a <= |s| && (a == |s| || Find(s, d, a) < 0)
    ensures |SegFrom(s, d, a)| == 1
  {
    OccIsFind(s, d, a);
    if a == |s| {
      OccAtEnd(s, d);
    }
    SegLast(s, d, a);
  }

  /** sldiv: count only (size < 0); split into the caller's storage of
      size slots; or, without storage, count, allocate exactly that many
      slots and split into them. */
  method Div(ss: Sl, c: byte, size: int, div: array?<nat>) returns (cnt: nat, out: array?<nat>)
    requires ss.Valid() && NoZero(ss.Content())
    requires size >= 0 && div != null ==> size <= div.Length
    requires div != null ==> div as object != ss.buf as object
    modifies ss.buf, div
    ensures ss.Valid()
    ensures cnt == |SegStarts(old(ss.Content()), [c])|
    ensures size < 0 ==> ss.Content() == old(ss.Content()) && out == div
    ensures size >= 0 ==> ss.Content() == Swap(old(ss.Content()), c, 0) && out != null
    ensures size >= 0 && div != null ==> out == div && div[..] == Record(SegStarts(old(ss.Content()), [c]), size, old(div[..]))
    ensures size >= 0 && div == null ==> fresh(out) && out[..] == SegStarts(old(ss.Content()), [c])
  {
    ghost var was := ss.Content();
    if size < 0 {
      cnt := DivCount(ss.buf, ss.len, c);
      out := div;
    } else if div != null {
      ghost var b0 := ss.buf[..];
      cnt := DivSplit(ss.buf, ss.len, c, size, div);
      out := div;
      Nulled(ss.buf[..], Swap(was, c, 0), b0[ss.len..]);
    } else {
      var n := DivCount(ss.buf, ss.len, c);
      out := new nat[n];
      ghost var b0 := ss.buf[..];
      cnt := DivSplit(ss.buf, ss.len, c, n, out);
      Nulled(ss.buf[..], Swap(was, c, 0), b0[ss.len..]);
    }
  }

  /** slseg: sldiv with a delimiter string. */
  method Seg(ss: Sl, d: seq<byte>, size: int, div: array?<nat>) returns (cnt: nat, out: array?<nat>)
    requires ss.Valid() && NoZero(ss.Content())
    requires size >= 0 && div != null ==> size <= div.Length
    requires div != null ==> div as object != ss.buf as object
    modifies ss.buf, div
    ensures ss.Valid()
    ensures cnt == |SegStarts(old(ss.Content()), d)|
    ensures size < 0 ==> ss.Content() == old(ss.Content()) && out == div
    ensures size >= 0 ==> ss.Content() == SegNulled(old(ss.Content()), d) && out != null
    ensures size >= 0 && div != null ==> out == div && div[..] == Record(SegStarts(old(ss.Content()), d), size, old(div[..]))
    ensures size >= 0 && div == null ==> fresh(out) && out[..] == SegStarts(old(ss.Content()), d)
  {
    ghost var was := ss.Content();
    if size < 0 {
      cnt := SegCount(ss.buf, ss.len, d);
      out := div;
    } else if div != null {
      ghost var b0 := ss.buf[..];
      cnt := SegSplit(ss.buf, ss.len, d, size, div);
      out := div;
      Nulled(ss.buf[..], SegNulled(was, d), b0[ss.len..]);
    } else {
      var n := SegCount(ss.buf, ss.len, d);
      out := new nat[n];
      ghost var b0 := ss.buf[..];
      cnt := SegSplit(ss.buf, ss.len, d, n, out);
      Nulled(ss.buf[..], SegNulled(was, d), b0[ss.len..]);
    }
  }

  /** A buffer that starts with the n bytes x followed by the old
      terminator holds x as its content. */
  lemma Nulled(b: seq<byte>, x: seq<byte>, rest: seq<byte>)
    requires b == x + rest && |rest| > 0
    ensures b[..|x|] == x && b[|x|] == rest[0]
  {
  }

  /** Counting mode counts one piece more than there are bytes c. */
  lemma {:induction false} DivCountIsBytes(s: seq<byte>, c: byte, a: nat)
    requires a <= |s|
    decreases |s| - a
    ensures |SegFrom(s, [c], a)| == 1 + Count(s[a..], c)
  {
    if Occ(s, [c], a) < 0 {
      NoByteCount(s, c, a);
    } else {
      var b := Occ(s, [c], a) + 1;
      DivCountIsBytes(s, c, b);
      OccByteFirst(s, c, a);
      ByteCountStep(s, c, a, Occ(s, [c], a));
      SegNext(s, [c], a, b);
    }
  }

  lemma NoByteCount(s: seq<byte>, c: byte, a: nat)
    requires a <= |s| && Occ(s, [c], a) < 0
    ensures |SegFrom(s, [c], a)| == 1 && Count(s[a..], c) == 0
  {
    OccIsFirst(s, [c], a);
    forall j | a <= j < |s| ensures s[j] != c {
      MatchOneByte(s, c, j);
    }
    SegLast(s, [c], a);
    CountNone(s[a..], c);
  }

  lemma ByteCountStep(s: seq<byte>, c: byte, a: nat, e: nat)
    requires a <= e < |s| && s[e] == c && forall j :: a <= j < e ==> s[j] != c
    ensures Count(s[a..], c) == 1 + Count(s[e + 1..], c)
  {
    assert s[a..] == s[a..e] + ([c] + s[e + 1..]);
    CountConcat(s[a..e], [c] + s[e + 1..], c);
    CountNone(s[a..e], c);
    assert ([c] + s[e + 1..])[1..] == s[e + 1..];
  }

  /** sldiv's count: the string's bytes c, plus one. */
  lemma DivCountIsCount(s: seq<byte>, c: byte)
    ensures |SegStarts(s, [c])| == 1 + Count(s, c)
  {
    DivCountIsBytes(s, c, 0);
    assert s[0..] == s;
  }

  /** What a split leaves, and how to undo it: the string with every c
      nulled reads the i-th piece at the i-th recorded start, the pieces
      joined with c give the string back, and so does mapping zero back
      to c with slswp. */
  lemma DivUndone(s: seq<byte>, c: byte, k: nat)
    requires NoZero(s) && k < |SegStarts(s, [c])|
    ensures |SegPieces(s, [c])| == |SegStarts(s, [c])| && SegStarts(s, [c])[k] <= |s|
    ensures CStr(Swap(s, c, 0)[SegStarts(s, [c])[k]..]) == SegPieces(s, [c])[k]
    ensures Join(SegPieces(s, [c]), [c]) == s
    ensures Swap(Swap(s, c, 0), 0, c) == s
  {
    PiecesTerminated(s, [c], k);
    DivNulledIsSwap(s, c);
    JoinPieces(s, [c]);
    SwapRepairs(s, c);
  }

  /** The same for slseg: zero mapped back to the first byte of d. */
  lemma SegUndone(s: seq<byte>, d: seq<byte>, k: nat)
    requires NoZero(s) && d != [] && k < |SegStarts(s, d)|
    ensures |SegPieces(s, d)| == |SegStarts(s, d)| && SegStarts(s, d)[k] <= |s|
    ensures CStr(SegNulled(s, d)[SegStarts(s, d)[k]..]) == SegPieces(s, d)[k]
    ensures Join(SegPieces(s, d), d) == s
    ensures Swap(SegNulled(s, d), 0, d[0]) == s
  {
    PiecesTerminated(s, d, k);
    JoinPieces(s, d);
    NulledRestores(s, d);
  }

  // ----- sldiv_base as written

  /** What sldiv_base returns as written: the count, the recorded starts
      and the bytes of the reservation afterwards. */
  datatype DivRun = DivRun(count: nat, starts: seq<nat>, bytes: seq<byte>)

  /** sldiv_base as written over the whole reservation buf: after a
      recorded delimiter the scan steps over the next byte (b += 1 and
      then b++). None when it reads beyond the reservation. */
  function DivAsWritten(buf: seq<byte>, c: byte, size: int): (r: Option<DivRun>)
    ensures r.Some? ==> |r.value.bytes| == |buf|
  {
    DivScan(buf, c, size, 0, 0, 0, [])
  }

  function DivScan(buf: seq<byte>, c: byte, size: int, b: nat, a: nat, divcnt: nat, div: seq<nat>): (r: Option<DivRun>)
    decreases |buf| + 1 - b
    ensures r.Some? ==> |r.value.bytes| == |buf|
  {
    if b >= |buf| then None
    else if buf[b] == 0 then
      Some(DivRun(divcnt + 1, if divcnt < size then div + [a] else div, buf))
    else if buf[b] == c then
      var nb := if size >= 0 then buf[b := 0] else buf;
      if divcnt < size then DivScan(nb, c, size, b + 2, b + 1, divcnt + 1, div + [a])
      else DivScan(nb, c, size, b + 1, a, divcnt + 1, div)
    else DivScan(buf, c, size, b + 1, a, divcnt, div)
  }

  /** "a,,b": the split skips the second comma, so it finds two pieces
      where counting finds three, and the second piece reads ",b". */
  lemma DivAsWrittenAdjacent()
    ensures DivAsWritten([0x61, 0x2C, 0x2C, 0x62, 0], 0x2C, 3) == Some(DivRun(2, [0, 2], [0x61, 0, 0x2C, 0x62, 0]))
    ensures DivAsWritten([0x61, 0x2C, 0x2C, 0x62, 0], 0x2C, -1) == Some(DivRun(3, [], [0x61, 0x2C, 0x2C, 0x62, 0]))
  {
    var s: seq<byte> := [0x61, 0x2C, 0x2C, 0x62, 0];
    var n: seq<byte> := [0x61, 0, 0x2C, 0x62, 0];
    assert s[1 := 0] == n;
    assert n[4] == 0;
    assert [0] + [2] == [0, 2];
    assert DivScan(n, 0x2C, 3, 4, 2, 1, [0]) == Some(DivRun(2, [0] + [2], n));
    assert DivScan(n, 0x2C, 3, 3, 2, 1, [0]) == Some(DivRun(2, [0, 2], n));
    assert [] + [0] == [0];
    assert DivScan(s, 0x2C, 3, 1, 0, 0, []) == Some(DivRun(2, [0, 2], n));
    assert DivScan(s, 0x2C, 3, 0, 0, 0, []) == Some(DivRun(2, [0, 2], n));
    assert DivScan(s, 0x2C, -1, 4, 0, 2, []) == Some(DivRun(3, [], s));
    assert DivScan(s, 0x2C, -1, 3, 0, 2, []) == Some(DivRun(3, [], s));
  }

  /** "ab," in a reservation of exactly four bytes: after the last comma
      the scan steps over the terminator and reads past the storage. */
  lemma DivAsWrittenOverrun()
    ensures DivAsWritten([0x61, 0x62, 0x2C, 0], 0x2C, 2) == None
    ensures DivAsWritten([0x61, 0x62, 0x2C, 0], 0x2C, -1) == Some(DivRun(2, [], [0x61, 0x62, 0x2C, 0]))
  {
  }

  /** No c is followed by another c or by the end of the text: the
      strings on which the extra step of sldiv_base lands on a byte that
      is neither a delimiter nor the terminator. */
  ghost predicate Isolated(s: seq<byte>, c: byte)
  {
    forall k :: 0 <= k < |s| && s[k] == c ==> k + 1 < |s| && s[k + 1] != c
  }

  /** The reservation during the scan: the text before b with every c
      nulled, the text from b on, the terminator and the rest. */
  ghost predicate Scanned(s: seq<byte>, rest: seq<byte>, c: byte, buf: seq<byte>, b: nat)
  {
    b <= |s| && |buf| == |s| + 1 + |rest| && buf[|s|..] == [0] + rest
    && (forall k :: 0 <= k < b ==> buf[k] == if s[k] == c then 0 else s[k])
    && (forall k :: b <= k < |s| ==> buf[k] == s[k])
  }

  /** Nulling a c of an isolated text moves the scan past it and the
      byte after it. */
  lemma ScannedNull(s: seq<byte>, rest: seq<byte>, c: byte, buf: seq<byte>, b: nat)
    requires Isolated(s, c) && Scanned(s, rest, c, buf, b) && b < |s| && s[b] == c
    ensures b + 2 <= |s| && Scanned(s, rest, c, buf[b := 0], b + 2)
  {
    assert buf[b := 0][|s|..] == buf[|s|..];
  }

  /** At the end of the text the scan has left every c nulled. */
  lemma ScannedDone(s: seq<byte>, rest: seq<byte>, c: byte, buf: seq<byte>)
    requires Scanned(s, rest, c, buf, |s|)
    ensures buf[|s|] == 0 && buf == Swap(s, c, 0) + [0] + rest
  {
    assert buf[|s|] == ([0] + rest)[0];
    assert buf == buf[..|s|] + buf[|s|..];
  }

  /** Any other byte is passed over. */
  lemma ScannedKeep(s: seq<byte>, rest: seq<byte>, c: byte, buf: seq<byte>, b: nat)
    requires Scanned(s, rest, c, buf, b) && b < |s| && s[b] != c
    ensures Scanned(s, rest, c, buf, b + 1)
  {
  }

  /** The byte scan finds no fewer starts further on. */
  lemma {:induction false} ByteStartsGrow(s: seq<byte>, c: byte, b: nat, i: nat)
    requires b <= i <= |s|
    decreases i - b
    ensures |ByteStarts(s, c, 0, b)| <= |ByteStarts(s, c, 0, i)|
  {
    if b < i {
      ByteStartsGrow(s, c, b, i - 1);
    }
  }

  /** From any point of the scan of an isolated text, sldiv_base as
      written finishes with the starts of the byte scan and every c
      nulled. */
  lemma {:induction false} DivScanIsolated(s: seq<byte>, rest: seq<byte>, c: byte, size: int,
                                           buf: seq<byte>, b: nat, a: nat, divcnt: nat, div: seq<nat>)
    requires NoZero(s) && Isolated(s, c) && Scanned(s, rest, c, buf, b)
    requires div + [a] == ByteStarts(s, c, 0, b) && divcnt == |div|
    requires size >= |ByteStarts(s, c, 0, |s|)|
    decreases |s| - b
    ensures DivScan(buf, c, size, b, a, divcnt, div)
         == Some(DivRun(|ByteStarts(s, c, 0, |s|)|, ByteStarts(s, c, 0, |s|), Swap(s, c, 0) + [0] + rest))
  {
    ByteStartsGrow(s, c, b, |s|);
    if b == |s| {
      ScannedDone(s, rest, c, buf);
    } else {
      assert buf[b] == s[b] != 0;
      if s[b] == c {
        var nb := buf[b := 0];
        ScannedNull(s, rest, c, buf, b);
        assert ByteStarts(s, c, 0, b + 1) == div + [a] + [b + 1];
        ByteStartsGrow(s, c, b + 1, |s|);
        assert ByteStarts(s, c, 0, b + 2) == ByteStarts(s, c, 0, b + 1);
        DivScanIsolated(s, rest, c, size, nb, b + 2, b + 1, divcnt + 1, div + [a]);
      } else {
        ScannedKeep(s, rest, c, buf, b);
        DivScanIsolated(s, rest, c, size, buf, b + 1, a, divcnt, div);
      }
    }
  }

  /** Where sldiv_base as written is right: on a C string in which no c
      is followed by another c or by the terminator, and with a slot for
      every piece, it returns the piece count, records the piece starts
      and nulls every c, exactly as the corrected split (DivSplit) does,
      so DivUndone applies to what it leaves. */
  lemma DivAsWrittenIsolated(s: seq<byte>, rest: seq<byte>, c: byte, size: int)
    requires NoZero(s) && Isolated(s, c) && size >= |SegStarts(s, [c])|
    ensures DivAsWritten(s + [0] + rest, c, size)
         == Some(DivRun(|SegStarts(s, [c])|, SegStarts(s, [c]), Swap(s, c, 0) + [0] + rest))
  {
    ByteStartsAreStarts(s, c);
    assert Scanned(s, rest, c, s + [0] + rest, 0);
    DivScanIsolated(s, rest, c, size, s + [0] + rest, 0, 0, 0, []);
  }

  /** The library's own case: "XYabcXYabcXY" split at 'X' gives the
      pieces "", "Yabc", "Yabc" and "Y", starting at 0, 1, 6 and 11. The
      text is isolated in the sense above, so DivAsWrittenIsolated
      covers it; here the scan is followed step by step. */
  lemma DivAsWrittenTest(s: seq<byte>)
    requires s == [0x58, 0x59, 0x61, 0x62, 0x63, 0x58, 0x59, 0x61, 0x62, 0x63, 0x58, 0x59]
    ensures DivAsWritten(s + [0], 0x58, 4) == Some(DivRun(4, [0, 1, 6, 11], Swap(s, 0x58, 0) + [0]))
  {
    var b0 := s + [0];
    var b1 := b0[0 := 0];
    var b2 := b1[5 := 0];
    var b3 := b2[10 := 0];
    var r := Some(DivRun(4, [0, 1, 6, 11], b3));
    assert b3[12] == 0 && [0, 1, 6] + [11] == [0, 1, 6, 11];
    assert DivScan(b3, 0x58, 4, 12, 11, 3, [0, 1, 6]) == r;
    assert b2[10] == 0x58 && b2[10 := 0] == b3 && [0, 1] + [6] == [0, 1, 6];
    assert DivScan(b2, 0x58, 4, 10, 6, 2, [0, 1]) == r;
    assert b2[9] == 0x63 && b2[8] == 0x62 && b2[7] == 0x61;
    assert DivScan(b2, 0x58, 4, 9, 6, 2, [0, 1]) == r;
    assert DivScan(b2, 0x58, 4, 8, 6, 2, [0, 1]) == r;
    assert DivScan(b2, 0x58, 4, 7, 6, 2, [0, 1]) == r;
    assert b1[5] == 0x58 && b1[5 := 0] == b2 && [0] + [1] == [0, 1];
    assert DivScan(b1, 0x58, 4, 5, 1, 1, [0]) == r;
    assert b1[4] == 0x63 && b1[3] == 0x62 && b1[2] == 0x61;
    assert DivScan(b1, 0x58, 4, 4, 1, 1, [0]) == r;
    assert DivScan(b1, 0x58, 4, 3, 1, 1, [0]) == r;
    assert DivScan(b1, 0x58, 4, 2, 1, 1, [0]) == r;
    assert b0[0] == 0x58 && b0[0 := 0] == b1 && [] + [0] == [0];
    assert DivScan(b0, 0x58, 4, 0, 0, 0, []) == r;
    assert b3 == Swap(s, 0x58, 0) + [0];
  }

  // ----- slglu

  /** The buffer holds the pieces glued so far; what remains to be glued
      completes the join. */
  lemma GlueStep(sa: seq<seq<byte>>, g: seq<byte>, i: nat)
    requires i < |sa|
    ensures Join(sa[i..], g) == sa[i] + (if i < |sa| - 1 then g else []) + Join(sa[i + 1..], g)
  {
    if i < |sa| - 1 {
      assert sa[i..] == [sa[i]] + sa[i + 1..];
      JoinCons(sa[i], sa[i + 1..], g);
    }
  }

  lemma SumLenStep(sa: seq<seq<byte>>, i: nat)
    requires i < |sa|
    ensures SumLen(sa[i..]) == |sa[i]| + SumLen(sa[i + 1..])
  {
    assert sa[i..][1..] == sa[i + 1..];
  }

  /** sl_cpy of x at position at: the buffer up to its end reads as
      what it held before at followed by x. */
  method Append(a: array<byte>, at: nat, x: seq<byte>) returns (e: nat)
    requires at + |x| <= a.Length
    modifies a
    ensures e == at + |x| && a[..e] == old(a[..at]) + x
  {
    Mem.CopyIn(a, at, x);
    e := at + |x|;
    assert a[..e] == a[..][..e];
  }

  lemma Regroup(done: seq<byte>, x: seq<byte>, g: seq<byte>, rest: seq<byte>, all: seq<byte>)
    requires done + (x + g + rest) == all
    ensures (done + x + g) + rest == all
  {
    assert done + (x + g + rest) == (done + x + g) + rest;
  }

  /** sl_cpy of every piece, with glue after all but the last, into a. */
  method GlueInto(a: array<byte>, sa: seq<seq<byte>>, glu: seq<byte>)
    requires |Join(sa, glu)| <= a.Length
    modifies a
    ensures a[..|Join(sa, glu)|] == Join(sa, glu)
  {
    ghost var all := Join(sa, glu);
    var p: nat := 0;
    var i: nat := 0;
    ghost var done: seq<byte> := [];
    assert sa[0..] == sa;
    while i < |sa|
      invariant i <= |sa| && |all| <= a.Length && p == |done|
      invariant done + Join(sa[i..], glu) == all
      invariant a[..p] == done
    {
      GlueStep(sa, glu, i);
      ghost var g := if i < |sa| - 1 then glu else [];
      Regroup(done, sa[i], g, Join(sa[i + 1..], glu), all);
      p := Append(a, p, sa[i]);
      if i < |sa| - 1 {
        p := Append(a, p, glu);
      }
      done := done + sa[i] + g;
      i := i + 1;
    }
    assert sa[i..] == [];
  }

  /** slglu: a new string holding the pieces with glu between consecutive
      ones, in a reservation of exactly its length plus the terminator.
      With no pieces the glue must be empty: the source computes the
      glue length with size - 1 in unsigned arithmetic. */
  method Glue(sa: seq<seq<byte>>, glu: seq<byte>) returns (r: Sl)
    requires |sa| >= 1 || glu == []
    requires NoZero(glu) && forall k :: 0 <= k < |sa| ==> NoZero(sa[k])
    ensures fresh(r) && fresh(r.buf) && r.Valid()
    ensures r.Content() == Join(sa, glu)
    ensures r.Reservation() == |Join(sa, glu)| + 1
  {
    var len := 0;
    var i := 0;
    assert sa[0..] == sa;
    while i < |sa|
      invariant i <= |sa| && len + SumLen(sa[i..]) == SumLen(sa)
    {
      SumLenStep(sa, i);
      len := len + |sa[i]|;
      i := i + 1;
    }
    assert sa[i..] == [];
    if |sa| >= 1 {
      JoinLength(sa, glu);
    }
    var total: nat := len + (|sa| - 1) * |glu|;
    r := new Sl.New(total + 1);
    GlueInto(r.buf, sa, glu);
    r.len := total;
    r.buf[total] := 0;
  }

  // ----- sltok

  /** The iteration state of sltok: before the first call, on the nulled
      first byte of the delimiter that ended the last token, or at the
      content end after the last token. (In the source the last state is
      a pointer to the terminator; the cursor never sits there otherwise,
      as it always points at a delimiter inside the content.) */
  datatype Cursor = Begin | At(i: nat) | Finished

  /** A cursor At(i) has room for the delimiter after it. */
  predicate Within(s: seq<byte>, d: seq<byte>, pos: Cursor)
  {
    pos.At? ==> d != [] && pos.i + |d| <= |s|
  }

  /** A cursor At(i) sits on an occurrence of the delimiter. */
  predicate Fits(s: seq<byte>, d: seq<byte>, pos: Cursor)
  {
    Within(s, d, pos) && (pos.At? ==> s[pos.i..pos.i + |d|] == d)
  }

  /** The content while the cursor is at pos: the original string s with
      the cursor's byte nulled. */
  function Image(s: seq<byte>, d: seq<byte>, pos: Cursor): (r: seq<byte>)
    requires Within(s, d, pos)
    ensures |r| == |s|
  {
    if pos.At? then s[pos.i := 0] else s
  }

  /** Progress of the cursor, for termination. */
  function Rank(s: seq<byte>, pos: Cursor): nat
  {
    match pos
    case Begin => |s| + 2
    case At(i) => if i < |s| then |s| + 1 - i else 0
    case Finished => 0
  }

  /** The token starting at p: up to the next delimiter or the end. */
  function Piece(s: seq<byte>, d: seq<byte>, p: nat): (r: seq<byte>)
    requires p <= |s|
    ensures r <= s[p..]
  {
    var e := Find(s, d, p);
    if e < 0 then s[p..] else s[p..e]
  }

  /** One sltok call on the content s with every delimiter in place: the
      start of the token it returns (None for NULL) and the next cursor.
      The source finds the delimiter with slidx; this is the intended
      first occurrence. */
  function TokStep(s: seq<byte>, d: seq<byte>, pos: Cursor): (r: (Option<nat>, Cursor))
    requires Within(s, d, pos)
    ensures Within(s, d, r.1)
    ensures r.0.Some? ==> r.0.value <= |s| && Rank(s, r.1) < Rank(s, pos) && r.1 != Begin
    ensures r.0.None? ==> r.1 == pos || r.1 == Finished
  {
    match pos
    case Begin =>
      var e := Find(s, d, 0);
      if e < 0 then (None, Begin) else (Some(0), At(e))
    case Finished => (None, Finished)
    case At(i) =>
      var p := i + |d|;
      if p == |s| then (None, Finished)
      else
        var e := Find(s, d, p);
        if e < 0 then (Some(p), Finished) else (Some(p), At(e))
  }

  /** Every cursor a call returns sits on a delimiter. */
  lemma TokStepFits(s: seq<byte>, d: seq<byte>, pos: Cursor)
    requires Fits(s, d, pos)
    ensures Fits(s, d, TokStep(s, d, pos).1)
  {
  }

  /** The tokens the calls return from pos on, until the first NULL: the
      text between consecutive delimiters, read off the string. */
  ghost function TokensFrom(s: seq<byte>, d: seq<byte>, pos: Cursor): seq<seq<byte>>
    requires Within(s, d, pos)
    decreases Rank(s, pos)
  {
    match pos
    case Begin =>
      var e := Find(s, d, 0);
      if e < 0 then [] else [s[0..e]] + TokensFrom(s, d, At(e))
    case At(i) =>
      var p := i + |d|;
      if p == |s| then []
      else
        var e := Find(s, d, p);
        if e < 0 then [s[p..]] else [s[p..e]] + TokensFrom(s, d, At(e))
    case Finished => []
  }

  /** The pieces without an empty last one. */
  function Trim(ps: seq<seq<byte>>): seq<seq<byte>>
  {
    if |ps| > 0 && ps[|ps| - 1] == [] then ps[..|ps| - 1] else ps
  }

  lemma TrimCons(x: seq<byte>, ps: seq<seq<byte>>)
    requires |ps| >= 1
    ensures Trim([x] + ps) == [x] + Trim(ps)
  {
    assert ([x] + ps)[|ps|] == ps[|ps| - 1];
    if ps[|ps| - 1] == [] {
      assert ([x] + ps)[..|ps|] == [x] + ps[..|ps| - 1];
    }
  }

  lemma PiecesNonEmpty(s: seq<byte>, d: seq<byte>, a: nat)
    requires a <= |s|
    ensures |PiecesFrom(s, d, a)| >= 1
  {
    PiecesCount(s, d, a);
  }

  /** A call from a cursor whose delimiter ends the string returns NULL. */
  lemma TokAtEnd(s: seq<byte>, d: seq<byte>, i: nat)
    requires Within(s, d, At(i)) && i + |d| == |s|
    ensures TokStep(s, d, At(i)) == (None, Finished)
    ensures TokensFrom(s, d, At(i)) == []
  {
  }

  /** A call that finds no further delimiter returns the rest, the last
      token. */
  lemma TokAtLast(s: seq<byte>, d: seq<byte>, i: nat)
    requires Within(s, d, At(i)) && i + |d| < |s| && Find(s, d, i + |d|) < 0
    ensures TokStep(s, d, At(i)).0 == Some(i + |d|) && TokStep(s, d, At(i)).1 == Finished
    ensures TokensFrom(s, d, At(i)) == [s[i + |d|..]]
  {
    var p := i + |d|;
    assert TokStep(s, d, At(i)) == (Some(p), Finished);
    assert TokensFrom(s, d, At(i)) == [s[p..]];
  }

  /** A call that finds the next delimiter, at e, returns the text up to
      it and moves onto it. */
  lemma TokAtNext(s: seq<byte>, d: seq<byte>, i: nat, e: nat)
    requires Within(s, d, At(i)) && i + |d| < |s| && e == Find(s, d, i + |d|) && e >= 0
    ensures Within(s, d, At(e))
    ensures TokStep(s, d, At(i)).0 == Some(i + |d|) && TokStep(s, d, At(i)).1 == At(e)
    ensures TokensFrom(s, d, At(i)) == [s[i + |d|..e]] + TokensFrom(s, d, At(e))
  {
    assert MatchAt(s, d, e);
    TokStepNext(s, d, i, e);
    TokensNext(s, d, i, e);
  }

  lemma TokStepNext(s: seq<byte>, d: seq<byte>, i: nat, e: nat)
    requires Within(s, d, At(i)) && i + |d| < |s| && e == Find(s, d, i + |d|) && e >= 0
    ensures TokStep(s, d, At(i)).0 == Some(i + |d|) && TokStep(s, d, At(i)).1 == At(e)
  {
  }

  lemma TokensNext(s: seq<byte>, d: seq<byte>, i: nat, e: nat)
    requires Within(s, d, At(i)) && Within(s, d, At(e)) && i + |d| < |s| && e == Find(s, d, i + |d|) && e >= 0
    ensures TokensFrom(s, d, At(i)) == [s[i + |d|..e]] + TokensFrom(s, d, At(e))
  {
  }

  /** The token list is what repeated calls return: nothing once a call
      returns NULL, else that call's token followed by the tokens from
      the cursor it leaves. */
  lemma TokensIterate(s: seq<byte>, d: seq<byte>, pos: Cursor)
    requires Within(s, d, pos)
    ensures var r := TokStep(s, d, pos);
      TokensFrom(s, d, pos) == if r.0.None? then [] else [Piece(s, d, r.0.value)] + TokensFrom(s, d, r.1)
  {
    match pos {
      case Begin =>
      case Finished =>
      case At(i) =>
        var p := i + |d|;
        if p == |s| {
          TokAtEnd(s, d, i);
        } else if Find(s, d, p) < 0 {
          TokAtLast(s, d, i);
        } else {
          TokAtNext(s, d, i, Find(s, d, p));
        }
    }
  }

  /** The tokens from a cursor on are the pieces after its delimiter
      without an empty last one. */
  lemma {:induction false} TokensAtPieces(s: seq<byte>, d: seq<byte>, i: nat)
    requires Within(s, d, At(i))
    decreases |s| - i
    ensures TokensFrom(s, d, At(i)) == Trim(PiecesFrom(s, d, i + |d|))
  {
    var p := i + |d|;
    if p == |s| {
      PiecesAtEnd(s, d);
    } else {
      var e := Find(s, d, p);
      if e < 0 {
        PiecesUnfold(s, d, p);
      } else {
        TokensAtPieces(s, d, e);
        TokAtNext(s, d, i, e);
        PiecesNext(s, d, p, e);
        PiecesNonEmpty(s, d, e + |d|);
        TrimStep(s[p..e], TokensFrom(s, d, At(i)), TokensFrom(s, d, At(e)),
                 PiecesFrom(s, d, p), PiecesFrom(s, d, e + |d|));
      }
    }
  }

  /** At the end of the string the split has one empty piece. */
  lemma PiecesAtEnd(s: seq<byte>, d: seq<byte>)
    ensures Trim(PiecesFrom(s, d, |s|)) == []
  {
    PiecesUnfold(s, d, |s|);
    assert Find(s, d, |s|) < 0;
  }

  lemma PiecesNext(s: seq<byte>, d: seq<byte>, p: nat, e: nat)
    requires p <= |s| && e == Find(s, d, p) && e >= 0
    ensures PiecesFrom(s, d, p) == [s[p..e]] + PiecesFrom(s, d, e + |d|)
  {
    PiecesUnfold(s, d, p);
  }

  /** The split from a, unfolded through the search. */
  lemma PiecesUnfold(s: seq<byte>, d: seq<byte>, p: nat)
    requires p <= |s|
    ensures Find(s, d, p) < 0 ==> PiecesFrom(s, d, p) == [s[p..]]
    ensures Find(s, d, p) >= 0 ==> PiecesFrom(s, d, p) == [s[p..Find(s, d, p)]] + PiecesFrom(s, d, Find(s, d, p) + |d|)
  {
    OccIsFind(s, d, p);
  }

  lemma TrimStep(x: seq<byte>, ts: seq<seq<byte>>, te: seq<seq<byte>>, pi: seq<seq<byte>>, pe: seq<seq<byte>>)
    requires ts == [x] + te && te == Trim(pe) && pi == [x] + pe && |pe| >= 1
    ensures ts == Trim(pi)
  {
    TrimCons(x, pe);
  }

  /** sltok's tokens are the pieces of the split on the delimiter without
      an empty last one; a string without the delimiter has none. */
  lemma TokensArePieces(s: seq<byte>, d: seq<byte>)
    ensures TokensFrom(s, d, Begin) == if Find(s, d, 0) < 0 then [] else Trim(SegPieces(s, d))
  {
    var e := Find(s, d, 0);
    if e >= 0 {
      assert MatchAt(s, d, e);
      TokensAtPieces(s, d, e);
      PiecesNext(s, d, 0, e);
      PiecesNonEmpty(s, d, e + |d|);
      TrimStep(s[0..e], TokensFrom(s, d, Begin), TokensFrom(s, d, At(e)),
               PiecesFrom(s, d, 0), PiecesFrom(s, d, e + |d|));
    }
  }

  /** The subject and delimiter of the library's tokenizer test. */
  const TokSubject: seq<byte> := [0x58, 0x59, 0x61, 0x62, 0x58, 0x59, 0x61, 0x62, 0x63, 0x58, 0x59, 0x63]
  const TokDelim: seq<byte> := [0x58, 0x59]

  lemma TokSubjectAt0()
    ensures Find(TokSubject, TokDelim, 0) == 0
  {
    assert TokSubject[0..2] == TokDelim;
  }

  lemma TokSubjectAt4()
    ensures Find(TokSubject, TokDelim, 2) == 4
  {
    var s, d := TokSubject, TokDelim;
    assert s[4..6] == d;
    assert IdxFrom(s, d, 4) == 4;
    assert s[3..5][0] != d[0];
    assert IdxFrom(s, d, 3) == 4;
    assert s[2..4][0] != d[0];
  }

  lemma TokSubjectAt9()
    ensures Find(TokSubject, TokDelim, 6) == 9
  {
    var s, d := TokSubject, TokDelim;
    assert s[9..11] == d;
    assert IdxFrom(s, d, 9) == 9;
    assert s[8..10][0] != d[0];
    assert IdxFrom(s, d, 8) == 9;
    assert s[7..9][0] != d[0];
    assert IdxFrom(s, d, 7) == 9;
    assert s[6..8][0] != d[0];
  }

  /** The tokens of a string with delimiters at 0, 4 and 9 and none
      after 11, the shape of the library's tokenizer test. */
  lemma TokensOfShape(s: seq<byte>, d: seq<byte>)
    requires |s| == 12 && |d| == 2
    requires Find(s, d, 0) == 0 && Find(s, d, 2) == 4 && Find(s, d, 6) == 9 && Find(s, d, 11) == -1
    ensures TokensFrom(s, d, Begin) == [s[0..0], s[2..4], s[6..9], s[11..]]
  {
    TokAtLast(s, d, 9);
    TokAtNext(s, d, 4, 9);
    TokAtNext(s, d, 0, 4);
  }

  /** The example of the library's tests: "XYabXYabcXYc" with delimiter
      "XY" yields "", "ab", "abc" and "c". */
  lemma TokExample()
    ensures TokensFrom(TokSubject, TokDelim, Begin) == [[], [0x61, 0x62], [0x61, 0x62, 0x63], [0x63]]
  {
    var s, d := TokSubject, TokDelim;
    TokSubjectAt0();
    TokSubjectAt4();
    TokSubjectAt9();
    FindNone(s, d, 11);
    TokensOfShape(s, d);
    TokSubjectPieces();
  }

  lemma TokSubjectPieces()
    ensures TokSubject[0..0] == [] && TokSubject[2..4] == [0x61, 0x62]
    ensures TokSubject[6..9] == [0x61, 0x62, 0x63] && TokSubject[11..] == [0x63]
  {
  }

  /** The token at p reads as a C string in the content with the next
      delimiter nulled. */
  lemma TokenReads(buf: seq<byte>, s: seq<byte>, d: seq<byte>, p: nat, next: Cursor, n: nat)
    requires NoZero(s) && p <= |s| == n < |buf| && buf[n] == 0 && Fits(s, d, next)
    requires buf[..n] == Image(s, d, next)
    requires (Find(s, d, p) >= 0 && next == At(Find(s, d, p))) || (Find(s, d, p) < 0 && next == Finished)
    ensures CStr(buf[p..]) == Piece(s, d, p)
  {
    var e := Find(s, d, p);
    var x := Piece(s, d, p);
    NoZeroSlice(s, p, p + |x|);
    assert x == s[p..p + |x|];
    if e >= 0 {
      assert MatchAt(s, d, e) && e < n && |x| == e - p;
      assert buf[..n] == s[e := 0];
      assert buf[e] == buf[..n][e] == 0;
    }
    forall k | p <= k < p + |x|
      ensures buf[k] == s[k]
    {
      assert buf[k] == buf[..n][k];
    }
    assert buf[p..p + |x|] == x;
    assert CStrAt(buf, p, x);
    CStrAtIsCStr(buf, p, x);
  }

  /** sltok: restores the byte the cursor nulled, finds the next
      delimiter, nulls its first byte and moves the cursor onto it. The
      content is s with at most the cursor's byte nulled; once a call
      returns NULL every delimiter is back. */
  method Tok(ss: Sl, d: seq<byte>, pos: Cursor, ghost s: seq<byte>) returns (tok: Option<nat>, next: Cursor)
    requires ss.Valid() && NoZero(s) && Fits(s, d, pos) && ss.Content() == Image(s, d, pos)
    modifies ss.buf
    ensures (tok, next) == TokStep(s, d, pos)
    ensures ss.Valid() && ss.Content() == Image(s, d, next)
    ensures tok.None? ==> ss.Content() == s
    ensures tok.Some? ==> tok.value <= ss.len && CStr(ss.buf[tok.value..]) == Piece(s, d, tok.value)
  {
    match pos {
      case Begin =>
        tok, next := TokFrom(ss, d, 0, s);
        if next == Finished {
          tok, next := None, Begin;
        }
      case Finished =>
        tok, next := None, Finished;
      case At(i) =>
        tok, next := TokAfter(ss, d, i, s);
    }
  }

  /** sltok with the cursor on the delimiter at i: the delimiter comes
      back, and the next token starts after it unless the content ends
      there. */
  method TokAfter(ss: Sl, d: seq<byte>, i: nat, ghost s: seq<byte>) returns (tok: Option<nat>, next: Cursor)
    requires ss.Valid() && NoZero(s) && Fits(s, d, At(i)) && ss.Content() == s[i := 0]
    modifies ss.buf
    ensures (tok, next) == TokStep(s, d, At(i))
    ensures ss.Valid() && ss.Content() == Image(s, d, next)
    ensures tok.None? ==> ss.Content() == s
    ensures tok.Some? ==> tok.value <= ss.len && CStr(ss.buf[tok.value..]) == Piece(s, d, tok.value)
  {
    var p := i + |d|;
    TokStepAfter(s, d, i);
    ghost var r := TokStep(s, d, At(i));
    Unnull(ss, i, d[0], s);
    assert p < ss.len ==> ss.buf[p] == s[p] != 0;
    if ss.buf[p] == 0 {
      tok, next := None, Finished;
      return;
    }
    tok, next := TokFrom(ss, d, p, s);
  }

  /** The call at a cursor on a delimiter, case by case. */
  lemma TokStepAfter(s: seq<byte>, d: seq<byte>, i: nat)
    requires Within(s, d, At(i))
    ensures i + |d| == |s| ==> TokStep(s, d, At(i)) == (None, Finished)
    ensures i + |d| < |s| ==> TokStep(s, d, At(i)).0 == Some(i + |d|)
    ensures i + |d| < |s| ==> TokStep(s, d, At(i)).1 == if Find(s, d, i + |d|) < 0 then Finished else At(Find(s, d, i + |d|))
  {
  }

  /** Puts back the delimiter byte the cursor nulled. */
  method Unnull(ss: Sl, i: nat, c: byte, ghost s: seq<byte>)
    requires ss.Valid() && i < |s| && s[i] == c && ss.Content() == s[i := 0]
    modifies ss.buf
    ensures ss.Valid() && ss.Content() == s
  {
    ss.buf[i] := c;
    assert ss.buf[..ss.len] == s;
  }

  /** The search part of sltok from a token start p inside the content:
      the token starts at p and the next delimiter, if any, is nulled. */
  method TokFrom(ss: Sl, d: seq<byte>, p: nat, ghost s: seq<byte>) returns (tok: Option<nat>, next: Cursor)
    requires ss.Valid() && NoZero(s) && ss.Content() == s && p <= |s|
    modifies ss.buf
    ensures tok == Some(p) && Fits(s, d, next)
    ensures next == (if Find(s, d, p) < 0 then Finished else At(Find(s, d, p)))
    ensures ss.Valid() && ss.Content() == Image(s, d, next)
    ensures CStr(ss.buf[p..]) == Piece(s, d, p)
  {
    var e := Find(ss.buf[..ss.len], d, p);
    if e < 0 {
      next := Finished;
    } else {
      ss.buf[e] := 0;
      next := At(e);
    }
    tok := Some(p);
    TokenReads(ss.buf[..], s, d, p, next, ss.len);
  }

  /** slext: drop everything from the first occurrence of ext on; nothing
      changes when ext does not occur. */
  method Ext(ss: Sl, ext: seq<byte>) returns (found: bool)
    requires ss.Valid() && NoZero(ss.Content())
    modifies ss, ss.buf
    ensures ss.Valid() && ss.buf == old(ss.buf)
    ensures found <==> Idx(old(ss.Content()), ext) >= 0
    ensures found ==> ss.Content() == old(ss.Content())[..Idx(old(ss.Content()), ext)]
    ensures !found ==> ss.Content() == old(ss.Content())
  {
    ghost var s := ss.Content();
    var t, pos := Tok(ss, ext, Begin, s);
    if t.Some? {
      ss.len := pos.i;
      found := true;
    } else {
      found := false;
    }
  }
}
