/** slmap: every occurrence of f, found from left to right, replaced by t
    in place. When t is longer than f the string is first grown by exactly
    the extra length and its content shifted to the end of the new
    content, so that the rewrite, which runs from left to right, always
    writes at or before the byte it reads next. */
module Mapping {
  import opened Bytes
  import opened Search
  import opened Pieces
  import opened SlString
  import Split
  import Mem

  /** The count loop of slmap's grow branch: the occurrences of f, found
      from left to right, one fewer than the pieces. */
  method MapCount(b: array<byte>, n: nat, f: seq<byte>, ghost s: seq<byte>) returns (cnt: nat)
    requires n <= b.Length && b[..n] == s
    ensures cnt == |SegStarts(s, f)| - 1
  {
    cnt := 0;
    var a: nat := 0;
    while true
      invariant a <= n && cnt + |SegFrom(s, f, a)| == |SegStarts(s, f)|
      decreases n - a
    {
      var idx := Find(b[..n], f, a);
      if idx >= 0 {
        var next := idx + |f|;
        Split.CountNext(s, f, a, idx, next);
        cnt, a := cnt + 1, next;
      } else {
        Split.CountLast(s, f, a);
        break;
      }
    }
  }

  /** strncpy of k bytes from src down to dst <= src, then sl_cpy of x
      right after them. */
  method MapPiece(buf: array<byte>, dst: nat, src: nat, k: nat, x: seq<byte>, ghost b0: seq<byte>)
    requires dst <= src && src + k <= buf.Length && dst + k + |x| <= buf.Length && b0 == buf[..]
    modifies buf
    ensures buf[..] == b0[..dst] + b0[src..src + k] + x + b0[dst + k + |x|..]
  {
    Mem.MoveLeft(buf, dst, src, k);
    Mem.CopyIn(buf, dst + k, x);
  }


  /** With t not shorter than f the rewritten rest is never shorter than
      the rest it was rewritten from. */
  lemma MapNotShorter(s: seq<byte>, f: seq<byte>, t: seq<byte>, a: nat)
    requires a <= |s| && |t| >= |f|
    ensures |MapFrom(s, f, t, a)| >= |s| - a
  {
    MapLength(s, f, t, a);
    ScaleNonNegative(|SegFrom(s, f, a)| - 1, |t| - |f|);
  }

  lemma ScaleNonNegative(k: int, g: int)
    requires k >= 0 && g >= 0
    ensures k * g >= 0
  {
  }

  lemma Regroup(o: seq<byte>, x: seq<byte>, y: seq<byte>, m: seq<byte>)
    ensures (o + x + y) + m == o + (x + y + m)
  {
  }

  /** What a slice of the unread rest holds: the rest s[r..] sits at
      off + r, so s[k] sits at p == off + k. */
  lemma Unread(b: seq<byte>, off: nat, n: nat, s: seq<byte>, r: nat, k: nat, p: nat)
    requires n == off + |s| < |b| && r <= k <= |s| && p == off + k && b[off + r..n + 1] == s[r..] + [0]
    ensures b[off + r..p] == s[r..k]
    ensures b[p..n + 1] == s[k..] + [0]
  {
    assert b[off + r..p] == b[off + r..n + 1][..k - r];
    assert b[p..n + 1] == b[off + r..n + 1][k - r..];
  }

  /** Two buffers equal from q on agree on every slice from q on. */
  lemma SameFrom(b0: seq<byte>, b1: seq<byte>, q: nat, h: nat)
    requires q <= h <= |b0| == |b1| && b1[q..] == b0[q..]
    ensures b1[q..h] == b0[q..h] && b1[h..] == b0[h..]
  {
    assert b1[q..h] == b1[q..][..h - q];
    assert b1[h..] == b1[q..][h - q..];
  }

  /** The shape of the buffer after one MapPiece: the written part, and
      everything from the end of the write on as it was. */
  lemma PieceShape(b0: seq<byte>, b1: seq<byte>, x: seq<byte>, y: seq<byte>, z: seq<byte>, i: nat)
    requires |x| + |y| + |z| <= i <= |b0|
    requires b1 == b0[..|x|] + y + z + b0[|x| + |y| + |z|..] && b0[..|x|] == x
    ensures b1[..|x| + |y| + |z|] == x + y + z
    ensures b1[i..] == b0[i..]
  {
    assert b1[i..] == b0[|x| + |y| + |z|..][i - |x| - |y| - |z|..];
  }

  /** Where the rewrite stands between two rounds, in the buffer: the
      unread rest s[r..] and its terminator sit at buf[off + r..n + 1],
      the part written so far is buf[..a] and ends at or before the unread
      rest, and what follows the terminator is as it was. */
  ghost predicate Layout(b: seq<byte>, off: nat, n: nat, s: seq<byte>, r: nat, a: nat, out: seq<byte>, rest: seq<byte>)
  {
    n == off + |s| < |b| && r <= |s| && a <= off + r && |out| == a &&
    b[off + r..n + 1] == s[r..] + [0] && b[n + 1..] == rest && b[..a] == out
  }

  /** Where the rewrite stands between two rounds, in the result: what is
      written, followed by the rewrite of the unread rest, is the whole
      rewrite; when t is longer than f the string was shifted so that the
      whole rewrite ends exactly where the string does. */
  ghost predicate Accounted(s: seq<byte>, f: seq<byte>, t: seq<byte>, off: nat, r: nat, out: seq<byte>)
  {
    r <= |s| && out + MapFrom(s, f, t, r) == MapSpec(s, f, t) &&
    (|t| > |f| ==> off + |s| == |MapSpec(s, f, t)|)
  }

  /** One replacement keeps the account, and the written part still ends
      at or before the unread part: trivially when t is not longer than
      f, and when it is, because the bytes still to be written are never
      fewer than those still to be read. */
  lemma AccountOne(s: seq<byte>, f: seq<byte>, t: seq<byte>, off: nat, r: nat, e: int, out: seq<byte>,
                    r2: nat, out2: seq<byte>)
    requires Accounted(s, f, t, off, r, out) && |out| <= off + r && e == Occ(s, f, r) && e >= 0
    requires r2 == e + |f| && out2 == out + s[r..e] + t
    ensures r <= e <= r2 <= |s| && r < r2 && Accounted(s, f, t, off, r2, out2)
    ensures |out| + (e - r) + |t| <= off + r2
  {
    MapStep(s, f, t, r);
    var m := MapFrom(s, f, t, e + |f|);
    assert MapFrom(s, f, t, r) == s[r..e] + t + m;
    Regroup(out, s[r..e], t, m);
    if |t| > |f| {
      MapNotShorter(s, f, t, e + |f|);
    }
  }

  /** Without a further f the rewrite of the rest is the rest. */
  lemma AccountLast(s: seq<byte>, f: seq<byte>, t: seq<byte>, off: nat, r: nat, out: seq<byte>)
    requires Accounted(s, f, t, off, r, out) && Occ(s, f, r) < 0
    ensures out + s[r..] == MapSpec(s, f, t)
  {
    MapStep(s, f, t, r);
  }

  /** The buffer after the round that finds f at e and writes x. */
  lemma LayoutOne(b0: seq<byte>, b1: seq<byte>, off: nat, n: nat, s: seq<byte>, r: nat, e: nat, r2: nat,
                  a: nat, out: seq<byte>, x: seq<byte>, rest: seq<byte>, src: nat, k: nat,
                  a2: nat, out2: seq<byte>)
    requires Layout(b0, off, n, s, r, a, out, rest) && r <= e <= r2 <= |s| && a2 <= off + r2
    requires src == off + r && k == e - r && a2 == a + k + |x| && out2 == out + s[r..e] + x
    requires b1 == b0[..a] + b0[src..src + k] + x + b0[a + k + |x|..]
    ensures Layout(b1, off, n, s, r2, a2, out2, rest)
  {
    Unread(b0, off, n, s, r, e, off + r + (e - r));
    Unread(b0, off, n, s, r, r2, off + r2);
    PieceShape(b0, b1, out, s[r..e], x, off + r2);
    SameFrom(b0, b1, off + r2, n + 1);
  }

  /** The buffer after the last round, which moves the rest down and
      terminates it. */
  lemma LayoutLast(b0: seq<byte>, b1: seq<byte>, b2: seq<byte>, off: nat, n: nat, s: seq<byte>, r: nat,
                   a: nat, out: seq<byte>, rest: seq<byte>, src: nat, k: nat)
    requires Layout(b0, off, n, s, r, a, out, rest)
    requires src == off + r && k == n - off - r
    requires b1 == b0[..a] + b0[src..src + k] + b0[a + k..]
    requires b2 == b1[a + k := 0]
    ensures b2[..a + k + 1] == out + s[r..] + [0]
    ensures b2[n] == 0 && b2[n + 1..] == rest
  {
    MovedRest(b0, b1, off, n, s, r, a, out, rest, src, k);
    Terminate(b1, b2, a + k, n, out + s[r..], rest);
  }

  /** The rest moved down to the write index follows the written part;
      the old terminator and what follows it are still in place. */
  lemma MovedRest(b0: seq<byte>, b1: seq<byte>, off: nat, n: nat, s: seq<byte>, r: nat,
                  a: nat, out: seq<byte>, rest: seq<byte>, src: nat, k: nat)
    requires Layout(b0, off, n, s, r, a, out, rest)
    requires src == off + r && k == n - off - r
    requires b1 == b0[..a] + b0[src..src + k] + b0[a + k..]
    ensures a + k <= n < |b1| && b1[..a + k] == out + s[r..]
    ensures b1[n] == 0 && b1[n + 1..] == rest
  {
    var none: seq<byte> := [];
    Unread(b0, off, n, s, r, |s|, src + k);
    assert b0[src..src + k] == s[r..];
    assert b1 == b0[..|out|] + s[r..] + none + b0[|out| + |s[r..]| + |none|..];
    PieceShape(b0, b1, out, s[r..], none, n);
    assert b0[n] == b0[off + r..n + 1][|s| - r] == 0;
    assert b1[n] == b1[n..][0] == 0;
    assert b1[n + 1..] == b1[n..][1..];
  }

  /** Writing the terminator at a2 ends the string m there and leaves
      the bytes from n on as they were. */
  lemma Terminate(b1: seq<byte>, b2: seq<byte>, a2: nat, n: nat, m: seq<byte>, rest: seq<byte>)
    requires a2 <= n < |b1| && b1[..a2] == m && b1[n] == 0 && b1[n + 1..] == rest
    requires b2 == b1[a2 := 0]
    ensures b2[..a2 + 1] == m + [0]
    ensures b2[n] == 0 && b2[n + 1..] == rest
  {
    assert b2[..a2 + 1] == b1[..a2] + [0];
    assert b2[n + 1..] == b1[n + 1..];
  }

  /** slidx from the read index: the next occurrence of f in the unread
      rest, or -1. */
  method Next(buf: array<byte>, off: nat, n: nat, f: seq<byte>, r: nat, ghost s: seq<byte>) returns (e: int)
    requires n == off + |s| < buf.Length && r <= |s| && buf[off + r..n + 1] == s[r..] + [0]
    ensures e == Occ(s, f, r)
  {
    Unread(buf[..], off, n, s, r, |s|, n);
    assert buf[off..n][r..] == buf[off + r..n];
    FindSameTail(buf[off..n], s, f, r);
    OccIsFind(s, f, r);
    e := Find(buf[off..n], f, r);
  }

  /** A round that finds f at e: the bytes before it move down to the
      write index, t follows them, and f is skipped. */
  method ReplaceOne(buf: array<byte>, off: nat, n: nat, t: seq<byte>, r: nat, a: nat, e: nat, r2: nat, a2: nat,
                    ghost s: seq<byte>, ghost out: seq<byte>, ghost rest: seq<byte>, ghost out2: seq<byte>)
    requires Layout(buf[..], off, n, s, r, a, out, rest) && r <= e <= r2 <= |s| && a2 <= off + r2
    requires a2 == a + (e - r) + |t| && out2 == out + s[r..e] + t
    modifies buf
    ensures Layout(buf[..], off, n, s, r2, a2, out2, rest)
  {
    ghost var b0 := buf[..];
    var src, k := off + r, e - r;
    MapPiece(buf, a, src, k, t, b0);
    LayoutOne(b0, buf[..], off, n, s, r, e, r2, a, out, t, rest, src, k, a2, out2);
  }

  /** The round that finds no further f: the rest moves down to the write
      index and is terminated there. */
  method ReplaceLast(buf: array<byte>, off: nat, n: nat, r: nat, a: nat,
                     ghost s: seq<byte>, ghost out: seq<byte>, ghost rest: seq<byte>)
    returns (a2: nat)
    requires Layout(buf[..], off, n, s, r, a, out, rest)
    modifies buf
    ensures a2 == a + (|s| - r) <= n && buf[..a2 + 1] == out + s[r..] + [0]
    ensures buf[n] == 0 && buf[n + 1..] == rest
  {
    ghost var b0 := buf[..];
    var src, k := off + r, n - off - r;
    Mem.MoveLeft(buf, a, src, k);
    ghost var b1 := buf[..];
    buf[a + k] := 0;
    LayoutLast(b0, b1, buf[..], off, n, s, r, a, out, rest, src, k);
    a2 := a + k;
  }

  /** One round of the rewrite loop, from a read index that is not yet
      at the terminator: either it replaces one f and keeps the loop's
      state, or, with no f left, it finishes the rewrite. */
  method Round(buf: array<byte>, off: nat, n: nat, f: seq<byte>, t: seq<byte>, r: nat, a: nat,
               ghost s: seq<byte>, ghost out: seq<byte>, ghost rest: seq<byte>)
    returns (done: bool, r2: nat, a2: nat, ghost out2: seq<byte>)
    requires Layout(buf[..], off, n, s, r, a, out, rest) && Accounted(s, f, t, off, r, out)
    modifies buf
    ensures !done ==> r < r2 && Layout(buf[..], off, n, s, r2, a2, out2, rest) && Accounted(s, f, t, off, r2, out2)
    ensures done ==> a2 == |MapSpec(s, f, t)| <= n && buf[..a2 + 1] == MapSpec(s, f, t) + [0]
    ensures done ==> buf[n] == 0 && buf[n + 1..] == rest
  {
    var e := Next(buf, off, n, f, r, s);
    if e >= 0 {
      done, r2, a2, out2 := false, e + |f|, a + (e - r) + |t|, out + s[r..e] + t;
      AccountOne(s, f, t, off, r, e, out, r2, out2);
      ReplaceOne(buf, off, n, t, r, a, e, r2, a2, s, out, rest, out2);
    } else {
      AccountLast(s, f, t, off, r, out);
      a2 := ReplaceLast(buf, off, n, r, a, s, out, rest);
      done, r2, out2 := true, r, out;
    }
  }

  /** The rewrite loop of slmap over the string s held at buf[off..n] and
      terminated at n. a is the write index; the read index is off + r.
      Each round searches from the read index, moves the bytes before the
      occurrence down to the write index, writes t after them and skips f;
      without a further occurrence the rest is moved down and terminated. */
  method Rewrite(buf: array<byte>, off: nat, n: nat, f: seq<byte>, t: seq<byte>, ghost s: seq<byte>) returns (a: nat)
    requires n == off + |s| && NoZero(s) && n < buf.Length && buf[off..n + 1] == s + [0]
    requires |t| > |f| ==> n == |MapSpec(s, f, t)|
    requires |t| <= |f| ==> off == 0
    modifies buf
    ensures a == |MapSpec(s, f, t)| <= n && buf[..a + 1] == MapSpec(s, f, t) + [0]
    ensures buf[n] == 0 && buf[n + 1..] == old(buf[n + 1..])
  {
    ghost var rest := buf[n + 1..];
    ghost var out: seq<byte> := [];
    a := 0;
    var r: nat := 0;
    assert s[0..] == s;
    while buf[off + r] != 0
      invariant Layout(buf[..], off, n, s, r, a, out, rest) && Accounted(s, f, t, off, r, out)
      decreases |s| - r
    {
      var done;
      done, r, a, out := Round(buf, off, n, f, t, r, a, s, out, rest);
      if done {
        return;
      }
    }
    assert buf[off + r] == buf[off + r..n + 1][0] == (s[r..] + [0])[0];
    assert r == |s|;
    Split.OccAtEnd(s, f);
    AccountLast(s, f, t, off, r, out);
    a := ReplaceLast(buf, off, n, r, a, s, out, rest);
  }

  /** slmap on the string. When t is longer than f, the occurrences are
      counted, the reservation is made to fit exactly the result and its
      terminator, and the content with its terminator is moved to the end
      of the new length before the rewrite; otherwise the rewrite runs in
      place. The length is the rewritten string's. */
  method Map(ss: Sl, f: seq<byte>, t: seq<byte>)
    requires ss.Valid() && NoZero(ss.Content()) && NoZero(f) && NoZero(t)
    modifies ss, ss.buf
    ensures ss.Valid() && ss.Content() == MapSpec(old(ss.Content()), f, t)
    ensures |t| > |f| ==> ss.buf.Length == Max(old(ss.buf.Length), |ss.Content()| + 1)
    ensures |t| <= |f| ==> ss.buf == old(ss.buf)
    ensures ss.buf == old(ss.buf) || fresh(ss.buf)
  {
    ghost var s := ss.Content();
    if |t| > |f| {
      var nlen, off := Grow(ss, f, t, s);
      var a := Rewrite(ss.buf, off, nlen, f, t, s);
      Terminated(ss.buf[..], a, MapSpec(s, f, t));
    } else {
      var a := Rewrite(ss.buf, 0, ss.len, f, t, s);
      ss.len := a;
      Terminated(ss.buf[..], a, MapSpec(s, f, t));
    }
  }

  /** A prefix that ends in the terminator is a C string of its bytes. */
  lemma Terminated(b: seq<byte>, a: nat, m: seq<byte>)
    requires a < |b| && b[..a + 1] == m + [0]
    ensures b[..a] == m && b[a] == 0
  {
    assert b[..a] == b[..a + 1][..a];
  }

  /** The grow branch of slmap before the rewrite: count, reserve, set the
      new length and move the content with its terminator to its end. */
  method Grow(ss: Sl, f: seq<byte>, t: seq<byte>, ghost s: seq<byte>) returns (nlen: nat, off: nat)
    requires ss.Valid() && s == ss.Content() && |t| > |f|
    modifies ss, ss.buf
    ensures nlen == |MapSpec(s, f, t)| == off + |s| && ss.len == nlen < ss.buf.Length
    ensures ss.buf.Length == Max(old(ss.buf.Length), nlen + 1)
    ensures ss.buf[off..nlen + 1] == s + [0]
    ensures ss.buf == old(ss.buf) || fresh(ss.buf)
  {
    var olen := ss.len;
    var cnt := MapCount(ss.buf, ss.len, f, s);
    MapLength(s, f, t, 0);
    MapNotShorter(s, f, t, 0);
    nlen := olen + cnt * (|t| - |f|);
    ss.Reserve(nlen + 1);
    ss.len := nlen;
    off := nlen - olen;
    Mem.MoveRight(ss.buf, off, 0, olen + 1);
  }

  /** With t shorter than f and f occurring, the rewrite is strictly
      shorter than the string. */
  lemma MapShrinks(s: seq<byte>, f: seq<byte>, t: seq<byte>)
    requires |t| < |f| && Idx(s, f) >= 0
    ensures |MapSpec(s, f, t)| < |s|
  {
    OccIsFind(s, f, 0);
    var e := Occ(s, f, 0);
    Split.SegNext(s, f, 0, e + |f|);
    MapLength(s, f, t, 0);
    ScaleNegative(|SegFrom(s, f, 0)| - 1, |t| - |f|);
  }

  lemma {:induction false} ScaleNegative(k: nat, g: int)
    requires k >= 1 && g < 0
    ensures k * g <= g
  {
    if k > 1 {
      ScaleNegative(k - 1, g);
      assert k * g == (k - 1) * g + g;
    }
  }

  /** slmap as the source writes it: the in-place branch taken when t is
      not longer than f never stores the new length, so the length stays
      the old one. The buffer holds the rewrite and its terminator; when t
      is shorter and f occurs, the content read at the old length is not
      the rewrite. */
  method MapAsWritten(ss: Sl, f: seq<byte>, t: seq<byte>)
    requires ss.Valid() && NoZero(ss.Content()) && NoZero(f) && NoZero(t)
    modifies ss, ss.buf
    ensures ss.Valid()
    ensures |t| > |f| ==> ss.Content() == MapSpec(old(ss.Content()), f, t)
    ensures |t| <= |f| ==> ss.buf == old(ss.buf) && ss.len == old(ss.len)
    ensures |t| <= |f| ==> |MapSpec(old(ss.Content()), f, t)| <= ss.len && ss.buf[..|MapSpec(old(ss.Content()), f, t)| + 1] == MapSpec(old(ss.Content()), f, t) + [0]
    ensures |t| < |f| && Idx(old(ss.Content()), f) >= 0 ==> ss.Content() != MapSpec(old(ss.Content()), f, t)
  {
    ghost var s := ss.Content();
    if |t| > |f| {
      var nlen, off := Grow(ss, f, t, s);
      var a := Rewrite(ss.buf, off, nlen, f, t, s);
      Terminated(ss.buf[..], a, MapSpec(s, f, t));
    } else {
      var a := Rewrite(ss.buf, 0, ss.len, f, t, s);
      if |t| < |f| && Idx(s, f) >= 0 {
        MapShrinks(s, f, t);
      }
    }
  }

  // ----- the examples of the library's tests

  const X: byte := 0x58
  const Y: byte := 0x59
  const G: byte := 0x47
  const I: byte := 0x49
  const Abc: seq<byte> := [0x61, 0x62, 0x63]

  /** "XYabcXYabc" and "XYabcXYabcXY": the occurrences of "XY" sit at 0, 5
      and 10. */
  lemma XYAt(s: seq<byte>)
    requires s == [X, Y] + Abc + [X, Y] + Abc || s == [X, Y] + Abc + [X, Y] + Abc + [X, Y]
    ensures Occ(s, [X, Y], 0) == 0 && Occ(s, [X, Y], 2) == 5
    ensures Occ(s, [X, Y], 7) == (if |s| == 12 then 10 else -1)
  {
    var f := [X, Y];
    OccIsFind(s, f, 0);
    OccIsFind(s, f, 2);
    OccIsFind(s, f, 7);
    assert s[0..2] == f && s[5..7] == f;
    FindAt(s, f, 0, 0);
    FindAt(s, f, 2, 5);
    if |s| == 12 {
      assert s[10..12] == f;
      FindAt(s, f, 7, 10);
    } else {
      FindNone(s, f, 7);
    }
  }

  /** The rewrite of "XYabcXYabc", where "XY" sits at 0 and 5. */
  lemma MapXY10(s: seq<byte>, t: seq<byte>)
    requires s == [X, Y] + Abc + [X, Y] + Abc
    ensures MapSpec(s, [X, Y], t) == t + Abc + t + Abc
  {
    var f := [X, Y];
    XYAt(s);
    XYPieces(s);
    MapStep(s, f, t, 7);
    var m7 := MapFrom(s, f, t, 7);
    assert m7 == Abc;
    MapStep(s, f, t, 2);
    var m2 := MapFrom(s, f, t, 2);
    assert m2 == Abc + t + m7;
    MapStep(s, f, t, 0);
    assert MapFrom(s, f, t, 0) == [] + t + m2;
  }

  /** The rewrite of "XYabcXYabcXY", where "XY" sits at 0, 5 and 10. */
  lemma MapXY12(s: seq<byte>, t: seq<byte>)
    requires s == [X, Y] + Abc + [X, Y] + Abc + [X, Y]
    ensures MapSpec(s, [X, Y], t) == t + Abc + t + Abc + t
  {
    var f := [X, Y];
    XYAt(s);
    XYPieces(s);
    Split.OccAtEnd(s, f);
    MapStep(s, f, t, 12);
    var m12 := MapFrom(s, f, t, 12);
    assert m12 == [];
    MapStep(s, f, t, 7);
    var m7 := MapFrom(s, f, t, 7);
    assert m7 == Abc + t + m12;
    MapStep(s, f, t, 2);
    var m2 := MapFrom(s, f, t, 2);
    assert m2 == Abc + t + m7;
    MapStep(s, f, t, 0);
    assert MapFrom(s, f, t, 0) == [] + t + m2;
  }

  /** The bytes between the occurrences of "XY" in those strings. */
  lemma XYPieces(s: seq<byte>)
    requires s == [X, Y] + Abc + [X, Y] + Abc || s == [X, Y] + Abc + [X, Y] + Abc + [X, Y]
    ensures s[0..0] == [] && s[2..5] == Abc && s[7..10] == Abc
    ensures |s| == 10 ==> s[7..] == Abc
    ensures |s| == 12 ==> s[12..] == []
  {
  }

  /** The library's tests: "XYabcXYabcXY" with "XY" mapped to "GIG" gives
      "GIGabcGIGabcGIG"; "XYabcXYabc" gives "GIGabcGIGabc", and with "XY"
      mapped to "GG", "GGabcGGabc". */
  lemma MapExamples()
    ensures MapSpec([X, Y] + Abc + [X, Y] + Abc + [X, Y], [X, Y], [G, I, G]) ==
            [G, I, G] + Abc + [G, I, G] + Abc + [G, I, G]
    ensures MapSpec([X, Y] + Abc + [X, Y] + Abc, [X, Y], [G, I, G]) == [G, I, G] + Abc + [G, I, G] + Abc
    ensures MapSpec([X, Y] + Abc + [X, Y] + Abc, [X, Y], [G, G]) == [G, G] + Abc + [G, G] + Abc
  {
    MapXY12([X, Y] + Abc + [X, Y] + Abc + [X, Y], [G, I, G]);
    MapXY10([X, Y] + Abc + [X, Y] + Abc, [G, I, G]);
    MapXY10([X, Y] + Abc + [X, Y] + Abc, [G, G]);
  }

  /** The stale length in one case: "XYabc" with "XY" mapped to "G" is
      "Gabc", one byte shorter than the length slmap leaves. */
  lemma MapStaleExample()
    ensures MapSpec([X, Y] + Abc, [X, Y], [G]) == [G] + Abc
    ensures |MapSpec([X, Y] + Abc, [X, Y], [G])| < |[X, Y] + Abc|
  {
    var s := [X, Y] + Abc;
    var f := [X, Y];
    OccIsFind(s, f, 0);
    OccIsFind(s, f, 2);
    assert s[0..2] == f;
    FindAt(s, f, 0, 0);
    FindNone(s, f, 2);
    MapStep(s, f, [G], 0);
    MapStep(s, f, [G], 2);
    assert s[0..0] == [] && s[2..] == Abc;
  }
}
