/** Splitting a string at the occurrences of a delimiter and joining
    pieces with a glue string: the value-level meaning of sldiv, slseg,
    slglu and slmap.

    A split is described from a current piece start a: the next
    occurrence of the delimiter d at or after a (Search.Find) ends the
    piece, and the next piece starts right after that occurrence.
    Occurrences found this way never overlap. */
module Pieces {
  import opened Bytes
  import opened Search

  /** e is the first occurrence of d at or after a, or -1 when there is
      none (or d is empty). */
  ghost predicate FirstAt(s: seq<byte>, d: seq<byte>, a: nat, e: int)
  {
    (e == -1 && (d == [] || forall j :: a <= j ==> !MatchAt(s, d, j))) ||
    (d != [] && a <= e && MatchAt(s, d, e) && forall j :: a <= j < e ==> !MatchAt(s, d, j))
  }

  /** The occurrence that ends the piece starting at a, characterised
      rather than computed, so that the split can be reasoned about one
      occurrence at a time. OccIsFind: it is what slidx finds. */
  ghost function Occ(s: seq<byte>, d: seq<byte>, a: nat): (e: int)
    requires a <= |s|
    ensures e == -1 || (d != [] && a <= e && e + |d| <= |s|)
    ensures d == [] ==> e == -1
  {
    FindIsFirst(s, d, a);
    assert FirstAt(s, d, a, Find(s, d, a));
    var e :| FirstAt(s, d, a, e); e
  }

  lemma OccIsFirst(s: seq<byte>, d: seq<byte>, a: nat)
    requires a <= |s|
    ensures FirstAt(s, d, a, Occ(s, d, a))
  {
    FindIsFirst(s, d, a);
    assert FirstAt(s, d, a, Find(s, d, a));
  }

  /** There is only one first occurrence, so Occ and the search agree. */
  lemma OccIsFind(s: seq<byte>, d: seq<byte>, a: nat)
    requires a <= |s|
    ensures Occ(s, d, a) == Find(s, d, a)
  {
    OccIsFirst(s, d, a);
    FindIsFirst(s, d, a);
  }

  /** Start offsets of the pieces from a on (slseg_base's div[]). */
  ghost function SegFrom(s: seq<byte>, d: seq<byte>, a: nat): (r: seq<nat>)
    requires a <= |s|
    decreases |s| - a
    ensures |r| >= 1 && r[0] == a
  {
    var e := Occ(s, d, a);
    if e < 0 then [a] else [a] + SegFrom(s, d, e + |d|)
  }

  /** The pieces themselves from a on; the last one runs to the end. */
  ghost function PiecesFrom(s: seq<byte>, d: seq<byte>, a: nat): seq<seq<byte>>
    requires a <= |s|
    decreases |s| - a
  {
    var e := Occ(s, d, a);
    if e < 0 then [s[a..]] else [s[a..e]] + PiecesFrom(s, d, e + |d|)
  }

  /** The bytes from a on once the first byte of every occurrence has been
      replaced by the terminating zero. */
  ghost function NulledFrom(s: seq<byte>, d: seq<byte>, a: nat): (r: seq<byte>)
    requires a <= |s|
    decreases |s| - a
    ensures |r| == |s| - a
  {
    var e := Occ(s, d, a);
    if e < 0 then s[a..]
    else NullAt(s, a, e, e + |d|) + NulledFrom(s, d, e + |d|)
  }

  /** s[a..b) with the byte at e replaced by the terminator. */
  function NullAt(s: seq<byte>, a: nat, e: nat, b: nat): (r: seq<byte>)
    requires a <= e < b <= |s|
    ensures |r| == b - a
  {
    s[a..e] + [0] + s[e + 1..b]
  }

  lemma NullAtHead(s: seq<byte>, a: nat, e: nat, b: nat)
    requires a <= e < b <= |s|
    ensures NullAt(s, a, e, b)[..e - a] == s[a..e] && NullAt(s, a, e, b)[e - a] == 0
  {
    var h := NullAt(s, a, e, b);
    assert h == s[a..e] + ([0] + s[e + 1..b]);
  }

  lemma NullAtBytes(s: seq<byte>, a: nat, e: nat, b: nat)
    requires a <= e < b <= |s|
    ensures forall j :: 0 <= j < b - a ==> NullAt(s, a, e, b)[j] == if a + j == e then 0 else s[a + j]
  {
  }

  ghost function SegStarts(s: seq<byte>, d: seq<byte>): seq<nat> { SegFrom(s, d, 0) }
  ghost function SegPieces(s: seq<byte>, d: seq<byte>): seq<seq<byte>> { PiecesFrom(s, d, 0) }
  ghost function SegNulled(s: seq<byte>, d: seq<byte>): seq<byte> { NulledFrom(s, d, 0) }

  /** One piece per recorded start. */
  lemma {:induction false} PiecesCount(s: seq<byte>, d: seq<byte>, a: nat)
    requires a <= |s|
    decreases |s| - a
    ensures |PiecesFrom(s, d, a)| == |SegFrom(s, d, a)|
  {
    var e := Occ(s, d, a);
    if e >= 0 {
      PiecesCount(s, d, e + |d|);
    }
  }

  /** Every recorded start lies in the string, and they increase. */
  lemma {:induction false} SegBounds(s: seq<byte>, d: seq<byte>, a: nat)
    requires a <= |s|
    decreases |s| - a
    ensures forall k :: 0 <= k < |SegFrom(s, d, a)| ==> a <= SegFrom(s, d, a)[k] <= |s|
    ensures forall i, j :: 0 <= i < j < |SegFrom(s, d, a)| ==> SegFrom(s, d, a)[i] < SegFrom(s, d, a)[j]
  {
    var e := Occ(s, d, a);
    if e >= 0 {
      SegBounds(s, d, e + |d|);
      var r, t := SegFrom(s, d, a), SegFrom(s, d, e + |d|);
      assert r == [a] + t;
      forall i, j | 0 <= i < j < |r| ensures r[i] < r[j] {
        assert r[j] == t[j - 1];
        if i > 0 {
          assert r[i] == t[i - 1];
        }
      }
    }
  }

  function SumLen(ps: seq<seq<byte>>): nat
  {
    if |ps| == 0 then 0 else |ps[0]| + SumLen(ps[1..])
  }

  /** slglu on values: the pieces with g between consecutive ones. */
  function Join(ps: seq<seq<byte>>, g: seq<byte>): (r: seq<byte>)
    ensures |ps| == 0 ==> r == []
    ensures |ps| == 1 ==> r == ps[0]
  {
    if |ps| == 0 then []
    else if |ps| == 1 then ps[0]
    else ps[0] + g + Join(ps[1..], g)
  }

  /** The joined length: every piece plus one glue per gap. */
  lemma {:induction false} JoinLength(ps: seq<seq<byte>>, g: seq<byte>)
    requires |ps| >= 1
    ensures |Join(ps, g)| == SumLen(ps) + (|ps| - 1) * |g|
  {
    if |ps| > 1 {
      JoinLength(ps[1..], g);
    }
  }

  lemma JoinCons(p: seq<byte>, ps: seq<seq<byte>>, g: seq<byte>)
    requires |ps| >= 1
    ensures Join([p] + ps, g) == p + g + Join(ps, g)
  {
    assert ([p] + ps)[1..] == ps;
  }

  /** Joining the pieces with the delimiter gives back the string. */
  lemma {:induction false} JoinPiecesFrom(s: seq<byte>, d: seq<byte>, a: nat)
    requires a <= |s|
    decreases |s| - a
    ensures Join(PiecesFrom(s, d, a), d) == s[a..]
  {
    var e := Occ(s, d, a);
    if e >= 0 {
      var b := e + |d|;
      JoinPiecesFrom(s, d, b);
      JoinCons(s[a..e], PiecesFrom(s, d, b), d);
      assert s[a..] == s[a..e] + s[e..b] + s[b..];
    }
  }

  lemma JoinPieces(s: seq<byte>, d: seq<byte>)
    ensures Join(SegPieces(s, d), d) == s
  {
    JoinPiecesFrom(s, d, 0);
  }

  lemma NoZeroSlice(s: seq<byte>, a: nat, b: nat)
    requires NoZero(s) && a <= b <= |s|
    ensures NoZero(s[a..b])
  {
    forall j | 0 <= j < b - a ensures s[a..b][j] != 0 {
      assert s[a..b][j] == s[a + j];
    }
  }

  /** p sits at offset i of n as a C string: its bytes, then either a
      terminator or the end of n. */
  ghost predicate CStrAt(n: seq<byte>, i: nat, p: seq<byte>)
  {
    NoZero(p) && i + |p| <= |n| && n[i..i + |p|] == p && (i + |p| == |n| || n[i + |p|] == 0)
  }

  lemma CStrAtIsCStr(n: seq<byte>, i: nat, p: seq<byte>)
    requires CStrAt(n, i, p)
    ensures i <= |n| && CStr(n[i..]) == p
  {
    if i + |p| == |n| {
      assert n[i..] == p;
      CStrOfText(p, []);
    } else {
      assert n[i..] == p + [0] + n[i + |p| + 1..];
      CStrOfText(p, n[i + |p| + 1..]);
    }
  }

  /** A C string found in a suffix of n is found in n, further on. */
  lemma CStrAtShift(n: seq<byte>, m: seq<byte>, a: nat, b: nat, q: nat, p: seq<byte>)
    requires a <= b <= q && b - a <= |n| && n[b - a..] == m && CStrAt(m, q - b, p)
    ensures CStrAt(n, q - a, p)
  {
    DropSlice(n, m, b - a, q - b, q - b + |p|);
    if q - b + |p| < |m| {
      assert n[q - a + |p|] == m[q - b + |p|];
    }
  }

  lemma DropSlice(n: seq<byte>, m: seq<byte>, o: nat, i: nat, j: nat)
    requires o <= |n| && n[o..] == m && i <= j <= |m|
    ensures n[o + i..o + j] == m[i..j]
  {
    forall k | 0 <= k < j - i ensures n[o + i..o + j][k] == m[i..j][k] {
      assert n[o + i + k] == m[i + k];
    }
  }

  /** Every piece ps[k], read as a C string in n at its recorded start
      st[k] (offsets in n counted from a), is that piece. */
  ghost predicate Terminated(n: seq<byte>, st: seq<nat>, ps: seq<seq<byte>>, a: nat)
  {
    |st| == |ps| && forall k :: 0 <= k < |st| ==> a <= st[k] && CStrAt(n, st[k] - a, ps[k])
  }

  lemma TerminatedLast(x: seq<byte>, a: nat)
    requires NoZero(x)
    ensures Terminated(x, [a], [x], a)
  {
    assert x[0..|x|] == x;
  }

  /** Putting a terminated head h, holding piece x, in front of bytes
      whose pieces are terminated keeps every piece terminated. */
  lemma TerminatedCons(h: seq<byte>, x: seq<byte>, m: seq<byte>, st: seq<nat>, ps: seq<seq<byte>>, a: nat, b: nat)
    requires |h| == b - a && |x| < |h| && h[..|x|] == x && h[|x|] == 0 && NoZero(x)
    requires Terminated(m, st, ps, b)
    ensures Terminated(h + m, [a] + st, [x] + ps, a)
  {
    HeadAt(h, x, m);
    AppendDrop(h, m);
    forall k | 0 <= k < |st| ensures a <= st[k] && CStrAt(h + m, st[k] - a, ps[k]) {
      CStrAtShift(h + m, m, a, b, st[k], ps[k]);
    }
  }

  lemma HeadAt(h: seq<byte>, x: seq<byte>, m: seq<byte>)
    requires |x| < |h| && h[..|x|] == x && h[|x|] == 0 && NoZero(x)
    ensures CStrAt(h + m, 0, x)
  {
    assert (h + m)[0..|x|] == h[..|x|];
    assert (h + m)[|x|] == h[|x|];
  }

  lemma AppendDrop(h: seq<byte>, m: seq<byte>)
    ensures (h + m)[|h|..] == m
  {
  }

  /** TerminatedCons for the head that the split cuts off at one
      occurrence. */
  lemma TerminatedConsAt(s: seq<byte>, a: nat, e: nat, b: nat, n: seq<byte>, st: seq<nat>, ps: seq<seq<byte>>,
                         m: seq<byte>, st': seq<nat>, ps': seq<seq<byte>>)
    requires a <= e < b <= |s| && NoZero(s[a..e]) && Terminated(m, st', ps', b)
    requires n == NullAt(s, a, e, b) + m && st == [a] + st' && ps == [s[a..e]] + ps'
    ensures Terminated(n, st, ps, a)
  {
    NullAtHead(s, a, e, b);
    TerminatedCons(NullAt(s, a, e, b), s[a..e], m, st', ps', a, b);
  }

  /** Over a C string every piece is a C string, and the terminator put
      at the end of each piece makes it the C string that starts at its
      recorded offset. */
  lemma {:induction false} PiecesTerminatedFrom(s: seq<byte>, d: seq<byte>, a: nat)
    requires a <= |s| && NoZero(s)
    decreases |s| - a
    ensures Terminated(NulledFrom(s, d, a), SegFrom(s, d, a), PiecesFrom(s, d, a), a)
  {
    if Occ(s, d, a) < 0 {
      NoZeroSlice(s, a, |s|);
      TerminatedLast(s[a..], a);
    } else {
      var b := Occ(s, d, a) + |d|;
      PiecesTerminatedFrom(s, d, b);
      PiecesTerminatedNext(s, d, a, b);
    }
  }

  lemma PiecesTerminatedNext(s: seq<byte>, d: seq<byte>, a: nat, b: nat)
    requires a <= |s| && NoZero(s) && Occ(s, d, a) >= 0 && b == Occ(s, d, a) + |d|
    requires Terminated(NulledFrom(s, d, b), SegFrom(s, d, b), PiecesFrom(s, d, b), b)
    ensures Terminated(NulledFrom(s, d, a), SegFrom(s, d, a), PiecesFrom(s, d, a), a)
  {
    NoZeroSlice(s, a, Occ(s, d, a));
    TerminatedConsAt(s, a, Occ(s, d, a), b, NulledFrom(s, d, a), SegFrom(s, d, a), PiecesFrom(s, d, a),
                     NulledFrom(s, d, b), SegFrom(s, d, b), PiecesFrom(s, d, b));
  }

  lemma PiecesTerminated(s: seq<byte>, d: seq<byte>, k: nat)
    requires NoZero(s) && k < |SegStarts(s, d)|
    ensures |SegPieces(s, d)| == |SegStarts(s, d)|
    ensures SegStarts(s, d)[k] <= |SegNulled(s, d)|
    ensures CStr(SegNulled(s, d)[SegStarts(s, d)[k]..]) == SegPieces(s, d)[k]
  {
    PiecesTerminatedFrom(s, d, 0);
    CStrAtIsCStr(SegNulled(s, d), SegStarts(s, d)[k], SegPieces(s, d)[k]);
  }

  lemma SwapConcat(x: seq<byte>, y: seq<byte>, f: byte, t: byte)
    ensures Swap(x + y, f, t) == Swap(x, f, t) + Swap(y, f, t)
  {
    var l, r := Swap(x + y, f, t), Swap(x, f, t) + Swap(y, f, t);
    forall j | 0 <= j < |x| + |y| ensures l[j] == r[j] {
      if j < |x| {
        assert (x + y)[j] == x[j];
      } else {
        assert (x + y)[j] == y[j - |x|];
      }
    }
  }

  lemma SwapJoined(n: seq<byte>, x: seq<byte>, y: seq<byte>, f: byte, t: byte, u: seq<byte>, v: seq<byte>)
    requires n == x + y && Swap(x, f, t) == u && Swap(y, f, t) == v
    ensures Swap(n, f, t) == u + v
  {
    SwapConcat(x, y, f, t);
  }

  lemma SwapAbsent(x: seq<byte>, f: byte, t: byte)
    requires forall j :: 0 <= j < |x| ==> x[j] != f
    ensures Swap(x, f, t) == x
  {
  }

  /** The one nulled byte of a piece of a C string is put back. */
  lemma NullAtRestores(s: seq<byte>, a: nat, e: nat, b: nat)
    requires a <= e < b <= |s| && NoZero(s)
    ensures Swap(NullAt(s, a, e, b), 0, s[e]) == s[a..b]
  {
    NullAtBytes(s, a, e, b);
    var l, r := Swap(NullAt(s, a, e, b), 0, s[e]), s[a..b];
    forall j | 0 <= j < b - a ensures l[j] == r[j] {
      assert s[a + j] != 0;
    }
  }

  lemma NulledRestoresLast(s: seq<byte>, d: seq<byte>, a: nat)
    requires a <= |s| && NoZero(s) && d != [] && Occ(s, d, a) < 0
    ensures Swap(NulledFrom(s, d, a), 0, d[0]) == s[a..]
  {
    NoZeroSlice(s, a, |s|);
    SwapAbsent(s[a..], 0, d[0]);
  }

  lemma NulledRestoresNext(s: seq<byte>, d: seq<byte>, a: nat, b: nat)
    requires a <= |s| && NoZero(s) && d != [] && Occ(s, d, a) >= 0 && b == Occ(s, d, a) + |d|
    requires Swap(NulledFrom(s, d, b), 0, d[0]) == s[b..]
    ensures Swap(NulledFrom(s, d, a), 0, d[0]) == s[a..]
  {
    OccHead(s, d, a);
    RestoreJoin(s, a, Occ(s, d, a), b, NulledFrom(s, d, a), NulledFrom(s, d, b), d[0]);
  }

  /** The occurrence starts with the delimiter's first byte. */
  lemma OccHead(s: seq<byte>, d: seq<byte>, a: nat)
    requires a <= |s| && d != [] && Occ(s, d, a) >= 0
    ensures s[Occ(s, d, a)] == d[0]
  {
    OccIsFirst(s, d, a);
    assert s[Occ(s, d, a)..Occ(s, d, a) + |d|][0] == s[Occ(s, d, a)];
  }

  /** A nulled head in front of a restored rest is restored. */
  lemma RestoreJoin(s: seq<byte>, a: nat, e: nat, b: nat, n: seq<byte>, m: seq<byte>, t: byte)
    requires a <= e < b <= |s| && NoZero(s) && s[e] == t
    requires n == NullAt(s, a, e, b) + m && Swap(m, 0, t) == s[b..]
    ensures Swap(n, 0, t) == s[a..]
  {
    NullAtRestores(s, a, e, b);
    SwapJoined(n, NullAt(s, a, e, b), m, 0, t, s[a..b], s[b..]);
    assert s[a..] == s[a..b] + s[b..];
  }

  /** slswp: mapping zero back to the delimiter's first byte repairs a
      split C string. */
  lemma {:induction false} NulledRestoresFrom(s: seq<byte>, d: seq<byte>, a: nat)
    requires a <= |s| && NoZero(s) && d != []
    decreases |s| - a
    ensures Swap(NulledFrom(s, d, a), 0, d[0]) == s[a..]
  {
    if Occ(s, d, a) < 0 {
      NulledRestoresLast(s, d, a);
    } else {
      var b := Occ(s, d, a) + |d|;
      NulledRestoresFrom(s, d, b);
      NulledRestoresNext(s, d, a, b);
    }
  }

  lemma NulledRestores(s: seq<byte>, d: seq<byte>)
    requires NoZero(s) && d != []
    ensures Swap(SegNulled(s, d), 0, d[0]) == s
  {
    NulledRestoresFrom(s, d, 0);
  }

  lemma MatchOneByte(s: seq<byte>, c: byte, j: nat)
    ensures MatchAt(s, [c], j) <==> j < |s| && s[j] == c
  {
    if j < |s| {
      assert s[j..j + 1] == [s[j]];
    }
  }

  /** For a one-byte delimiter the occurrence found from a is the first
      position at or after a holding that byte. */
  lemma OccByte(s: seq<byte>, c: byte, a: nat, b: nat)
    requires a <= b < |s| && s[b] == c
    requires forall j :: a <= j < b ==> s[j] != c
    ensures Occ(s, [c], a) == b
  {
    OccIsFirst(s, [c], a);
    MatchOneByte(s, c, b);
    var e := Occ(s, [c], a);
    if e >= 0 {
      MatchOneByte(s, c, e);
    }
  }

  lemma NoByte(s: seq<byte>, c: byte, a: nat)
    requires a <= |s|
    requires forall j :: a <= j < |s| ==> s[j] != c
    ensures Occ(s, [c], a) == -1
  {
    var e := Occ(s, [c], a);
    if e >= 0 {
      MatchOneByte(s, c, e);
    }
  }

  /** Nulling the first c of s[a..] where no c comes before e. */
  lemma NullAtIsSwap(s: seq<byte>, c: byte, a: nat, e: nat)
    requires a <= e < |s| && s[e] == c
    requires forall j :: a <= j < e ==> s[j] != c
    ensures NullAt(s, a, e, e + 1) == Swap(s[a..e + 1], c, 0)
  {
    NullAtBytes(s, a, e, e + 1);
  }

  /** sldiv nulls every occurrence of its byte: the split on [c] is slswp
      from c to zero. */
  lemma DivNulledLast(s: seq<byte>, c: byte, a: nat)
    requires a <= |s| && Occ(s, [c], a) < 0
    ensures NulledFrom(s, [c], a) == Swap(s[a..], c, 0)
  {
    OccIsFirst(s, [c], a);
    forall j | a <= j < |s| ensures s[j] != c {
      MatchOneByte(s, c, j);
    }
    SwapAbsent(s[a..], c, 0);
  }

  /** The occurrence of a one-byte delimiter is the first such byte. */
  lemma OccByteFirst(s: seq<byte>, c: byte, a: nat)
    requires a <= |s| && Occ(s, [c], a) >= 0
    ensures Occ(s, [c], a) < |s| && s[Occ(s, [c], a)] == c
    ensures forall j :: a <= j < Occ(s, [c], a) ==> s[j] != c
  {
    var e := Occ(s, [c], a);
    OccIsFirst(s, [c], a);
    forall j | a <= j < e ensures s[j] != c {
      MatchOneByte(s, c, j);
    }
    MatchOneByte(s, c, e);
  }

  lemma DivNulledNext(s: seq<byte>, c: byte, a: nat, b: nat)
    requires a <= |s| && Occ(s, [c], a) >= 0 && b == Occ(s, [c], a) + 1
    requires NulledFrom(s, [c], b) == Swap(s[b..], c, 0)
    ensures NulledFrom(s, [c], a) == Swap(s[a..], c, 0)
  {
    OccByteFirst(s, c, a);
    DivJoin(s, c, a, Occ(s, [c], a), NulledFrom(s, [c], a), NulledFrom(s, [c], b));
  }

  /** Nulling the first c, in front of the rest with every c nulled. */
  lemma DivJoin(s: seq<byte>, c: byte, a: nat, e: nat, n: seq<byte>, m: seq<byte>)
    requires a <= e < |s| && s[e] == c && forall j :: a <= j < e ==> s[j] != c
    requires n == NullAt(s, a, e, e + 1) + m && m == Swap(s[e + 1..], c, 0)
    ensures n == Swap(s[a..], c, 0)
  {
    NullAtIsSwap(s, c, a, e);
    assert s[a..] == s[a..e + 1] + s[e + 1..];
    SwapJoined(s[a..], s[a..e + 1], s[e + 1..], c, 0, NullAt(s, a, e, e + 1), m);
  }

  /** sldiv nulls every occurrence of its byte: the split on [c] is slswp
      from c to zero. */
  lemma {:induction false} DivNulledIsSwapFrom(s: seq<byte>, c: byte, a: nat)
    requires a <= |s|
    decreases |s| - a
    ensures NulledFrom(s, [c], a) == Swap(s[a..], c, 0)
  {
    if Occ(s, [c], a) < 0 {
      DivNulledLast(s, c, a);
    } else {
      var b := Occ(s, [c], a) + 1;
      DivNulledIsSwapFrom(s, c, b);
      DivNulledNext(s, c, a, b);
    }
  }

  lemma DivNulledIsSwap(s: seq<byte>, c: byte)
    ensures SegNulled(s, [c]) == Swap(s, c, 0)
  {
    DivNulledIsSwapFrom(s, c, 0);
  }

  /** slmap on values, from position a on: every occurrence of f, found
      from left to right, replaced by t. */
  ghost function MapFrom(s: seq<byte>, f: seq<byte>, t: seq<byte>, a: nat): seq<byte>
    requires a <= |s|
    decreases |s| - a
  {
    var e := Occ(s, f, a);
    if e < 0 then s[a..] else s[a..e] + t + MapFrom(s, f, t, e + |f|)
  }

  ghost function MapSpec(s: seq<byte>, f: seq<byte>, t: seq<byte>): seq<byte>
  {
    MapFrom(s, f, t, 0)
  }

  /** One replacement step, as slmap's rewrite loop performs it. */
  lemma MapStep(s: seq<byte>, f: seq<byte>, t: seq<byte>, a: nat)
    requires a <= |s|
    ensures Occ(s, f, a) < 0 ==> MapFrom(s, f, t, a) == s[a..]
    ensures Occ(s, f, a) >= 0 ==>
      var e := Occ(s, f, a);
      MapFrom(s, f, t, a) == s[a..e] + t + MapFrom(s, f, t, e + |f|)
  {
  }

  /** The rewrite is the pieces between the occurrences of f joined with
      t in f's place. */
  lemma {:induction false} MapIsJoin(s: seq<byte>, f: seq<byte>, t: seq<byte>, a: nat)
    requires a <= |s|
    decreases |s| - a
    ensures MapFrom(s, f, t, a) == Join(PiecesFrom(s, f, a), t)
  {
    var e := Occ(s, f, a);
    if e >= 0 {
      MapIsJoin(s, f, t, e + |f|);
      JoinCons(s[a..e], PiecesFrom(s, f, e + |f|), t);
    }
  }

  /** The pieces and the occurrences between them make up the string. */
  lemma PiecesSumFrom(s: seq<byte>, d: seq<byte>, a: nat)
    requires a <= |s|
    ensures SumLen(PiecesFrom(s, d, a)) + (|PiecesFrom(s, d, a)| - 1) * |d| == |s| - a
  {
    JoinPiecesFrom(s, d, a);
    JoinLength(PiecesFrom(s, d, a), d);
  }

  /** The length of the result: each of the n - 1 occurrences replaced. */
  lemma MapLength(s: seq<byte>, f: seq<byte>, t: seq<byte>, a: nat)
    requires a <= |s|
    ensures |MapFrom(s, f, t, a)| == |s| - a + (|SegFrom(s, f, a)| - 1) * (|t| - |f|)
  {
    MapIsJoin(s, f, t, a);
    PiecesSumFrom(s, f, a);
    PiecesCount(s, f, a);
    JoinLength(PiecesFrom(s, f, a), t);
    Distribute(|SegFrom(s, f, a)| - 1, |t|, |f|);
  }

  lemma Distribute(n: int, x: int, y: int)
    ensures n * x - n * y == n * (x - y)
  {
  }

  /** Mapping f to itself changes nothing; neither does mapping a string
      that does not occur. */
  lemma MapIdentity(s: seq<byte>, f: seq<byte>, t: seq<byte>)
    ensures MapSpec(s, f, f) == s
    ensures Idx(s, f) < 0 ==> MapSpec(s, f, t) == s
  {
    MapIsJoin(s, f, f, 0);
    MapIsJoin(s, f, t, 0);
    JoinPieces(s, f);
    OccIsFind(s, f, 0);
    assert s[0..] == s;
  }
}
