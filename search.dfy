/** The read-only scans of the SL library (slidx, slfcr, slfcl, slend,
    sldff), as functions over the bytes they read. The strings given to
    them are C strings: their own bytes, not the terminator. */
module Search {
  import opened Bytes

  /** Pattern p occurs in s starting at i. */
  predicate MatchAt(s: seq<byte>, p: seq<byte>, i: nat)
  {
    i + |p| <= |s| && s[i..i + |p|] == p
  }

  /** The naive scan from i: a position at or after i where p occurs,
      or -1 (IdxFromIsFirst: the first such position). */
  function IdxFrom(s: seq<byte>, p: seq<byte>, i: nat): (r: int)
    requires p != [] && i <= |s|
    decreases |s| - i
    ensures r == -1 || (i <= r < |s| && MatchAt(s, p, r))
  {
    if i + |p| > |s| then -1
    else if MatchAt(s, p, i) then i
    else IdxFrom(s, p, i + 1)
  }

  lemma {:induction false} IdxFromIsFirst(s: seq<byte>, p: seq<byte>, i: nat)
    requires p != [] && i <= |s|
    decreases |s| - i
    ensures IdxFrom(s, p, i) == -1 ==> forall j :: i <= j ==> !MatchAt(s, p, j)
    ensures IdxFrom(s, p, i) >= 0 ==> forall j :: i <= j < IdxFrom(s, p, i) ==> !MatchAt(s, p, j)
  {
    if i + |p| <= |s| && s[i..i + |p|] != p {
      IdxFromIsFirst(s, p, i + 1);
    }
  }

  /** slidx applied at offset i of s: the absolute position of an
      occurrence of p at or after i, or -1 (FindIsFirst: the first). */
  function Find(s: seq<byte>, p: seq<byte>, i: nat): (r: int)
    requires i <= |s|
    ensures r == -1 || (p != [] && i <= r && MatchAt(s, p, r))
    ensures p == [] ==> r == -1
  {
    if p == [] then -1 else IdxFrom(s, p, i)
  }

  lemma FindIsFirst(s: seq<byte>, p: seq<byte>, i: nat)
    requires i <= |s|
    ensures Find(s, p, i) == -1 <==> (p == [] || forall j :: i <= j ==> !MatchAt(s, p, j))
    ensures Find(s, p, i) >= 0 ==> forall j :: i <= j < Find(s, p, i) ==> !MatchAt(s, p, j)
  {
    if p != [] {
      IdxFromIsFirst(s, p, i);
    }
  }

  /** The search from i stops at j when p occurs at j and no byte in
      between starts like p. */
  lemma FindAt(s: seq<byte>, p: seq<byte>, i: nat, j: nat)
    requires p != [] && i <= j && MatchAt(s, p, j) && forall k :: i <= k < j ==> s[k] != p[0]
    ensures Find(s, p, i) == j
  {
    forall k | i <= k < j ensures !MatchAt(s, p, k) {
      if k + |p| <= |s| {
        assert s[k..k + |p|][0] == s[k];
      }
    }
    FindIsFirst(s, p, i);
  }

  /** The search from i finds nothing when no byte from i on starts like p. */
  lemma FindNone(s: seq<byte>, p: seq<byte>, i: nat)
    requires p != [] && i <= |s| && forall k :: i <= k < |s| ==> s[k] != p[0]
    ensures Find(s, p, i) == -1
  {
    forall k | i <= k ensures !MatchAt(s, p, k) {
      if k + |p| <= |s| {
        assert s[k..k + |p|][0] == s[k];
      }
    }
    FindIsFirst(s, p, i);
  }

  /** The scan from i reads nothing before i. */
  lemma {:induction false} IdxFromSameTail(x: seq<byte>, y: seq<byte>, p: seq<byte>, i: nat)
    requires p != [] && i <= |x| == |y| && x[i..] == y[i..]
    decreases |x| - i
    ensures IdxFrom(x, p, i) == IdxFrom(y, p, i)
  {
    if i + |p| <= |x| {
      assert x[i..i + |p|] == x[i..][..|p|] == y[i..][..|p|] == y[i..i + |p|];
      if x[i..i + |p|] != p {
        assert x[i + 1..] == x[i..][1..] == y[i..][1..] == y[i + 1..];
        IdxFromSameTail(x, y, p, i + 1);
      }
    }
  }

  lemma FindSameTail(x: seq<byte>, y: seq<byte>, p: seq<byte>, i: nat)
    requires i <= |x| == |y| && x[i..] == y[i..]
    ensures Find(x, p, i) == Find(y, p, i)
  {
    if p != [] {
      IdxFromSameTail(x, y, p, i);
    }
  }

  /** slidx as intended: the first occurrence of p in s, or -1. */
  function Idx(s: seq<byte>, p: seq<byte>): (r: int)
    ensures r == -1 || (p != [] && 0 <= r < |s| && MatchAt(s, p, r))
    ensures p == [] ==> r == -1
  {
    Find(s, p, 0)
  }

  /** The first occurrence, and -1 exactly when p is empty or absent. */
  lemma IdxIsFirst(s: seq<byte>, p: seq<byte>)
    ensures Idx(s, p) == -1 <==> (p == [] || forall j :: !MatchAt(s, p, j))
    ensures Idx(s, p) >= 0 ==> forall j :: 0 <= j < Idx(s, p) ==> !MatchAt(s, p, j)
  {
    FindIsFirst(s, p, 0);
  }

  /** Number of consecutive equal bytes in s from i and p from j (the
      inner loop of slidx). */
  function Run(s: seq<byte>, p: seq<byte>, i: nat, j: nat): (k: nat)
    requires i <= |s| && j <= |p|
    decreases |p| - j
    ensures i + k <= |s| && j + k <= |p|
    ensures forall m :: i <= m < i + k ==> s[m] == p[m - i + j]
    ensures i + k < |s| && j + k < |p| ==> s[i + k] != p[j + k]
  {
    if i < |s| && j < |p| && s[i] == p[j] then 1 + Run(s, p, i + 1, j + 1) else 0
  }

  /** The outer loop of slidx as written: the pattern index i2 carries
      over from one candidate position to the next. */
  function IdxScan(s: seq<byte>, p: seq<byte>, i1: nat, i2: nat): (r: int)
    requires i1 <= |s| && i2 < |p|
    decreases |s| - i1
    ensures r == -1 || i1 <= r < |s|
  {
    if i1 == |s| then -1
    else
      var k := Run(s, p, i1, i2);
      if i2 + k == |p| then i1 else IdxScan(s, p, i1 + 1, i2 + k)
  }

  /** slidx exactly as the source writes it (src/sl.c:647-670). */
  function IdxAsWritten(s: seq<byte>, p: seq<byte>): (r: int)
    ensures p == [] ==> r == -1
    ensures r == -1 || 0 <= r < |s|
  {
    if p == [] then -1 else IdxScan(s, p, 0, 0)
  }

  /** Because i2 is never reset after a partial match, "aab" searched for
      "ab" gives 2, not the first occurrence 1 (and 2 + |"ab"| is past
      the end of the string). */
  lemma IdxAsWrittenMissesFirst()
    ensures IdxAsWritten([0x61, 0x61, 0x62], [0x61, 0x62]) == 2
    ensures Idx([0x61, 0x61, 0x62], [0x61, 0x62]) == 1
  {
    var s: seq<byte> := [0x61, 0x61, 0x62];
    var p: seq<byte> := [0x61, 0x62];
    assert Run(s, p, 0, 0) == 1 by {
      assert Run(s, p, 1, 1) == 0;
    }
    assert Run(s, p, 1, 1) == 0;
    assert Run(s, p, 2, 1) == 1 by {
      assert Run(s, p, 3, 2) == 0;
    }
    assert IdxScan(s, p, 1, 1) == IdxScan(s, p, 2, 1);
    assert s[1..3] == p;
    assert IdxFrom(s, p, 1) == 1;
    assert s[0..2] != p by { assert s[0..2][1] != p[1]; }
  }

  lemma {:induction false} IdxScanOneByte(s: seq<byte>, p: seq<byte>, i: nat)
    requires |p| == 1 && i <= |s|
    decreases |s| - i
    ensures IdxScan(s, p, i, 0) == IdxFrom(s, p, i)
  {
    if i < |s| {
      assert (s[i..i + 1] == p) == (s[i] == p[0]) by {
        assert s[i..i + 1] == [s[i]];
      }
      if s[i] != p[0] {
        IdxScanOneByte(s, p, i + 1);
      }
    }
  }

  /** For a one-byte pattern the source's scan does find the first
      occurrence. */
  lemma IdxAsWrittenOneByte(s: seq<byte>, p: seq<byte>)
    requires |p| == 1
    ensures IdxAsWritten(s, p) == Idx(s, p)
  {
    IdxScanOneByte(s, p, 0);
  }

  /** A candidate whose run stops short of the end of the pattern
      hands the pattern index it reached on to the next candidate. */
  lemma IdxScanStep(s: seq<byte>, p: seq<byte>, i1: nat, i2: nat, j: nat)
    requires i1 < |s| && i2 < |p| && j == i2 + Run(s, p, i1, i2) && j < |p|
    ensures IdxScan(s, p, i1, i2) == IdxScan(s, p, i1 + 1, j)
  {
  }

  /** A position whose byte differs from the pattern's first byte is
      skipped with the pattern index still at 0. */
  lemma IdxScanSkip(s: seq<byte>, p: seq<byte>, i: nat)
    requires i < |s| && 0 < |p| && s[i] != p[0]
    ensures IdxScan(s, p, i, 0) == IdxScan(s, p, i + 1, 0)
  {
    assert Run(s, p, i, 0) == 0;
  }

  /** Scanning s from i up to a position j where the pattern matches at
      its first candidate, past bytes that cannot start it. */
  lemma {:induction false} IdxScanReaches(s: seq<byte>, p: seq<byte>, i: nat, j: nat)
    requires i <= j < |s| && 0 < |p| && Run(s, p, j, 0) == |p|
    requires forall m :: i <= m < j ==> s[m] != p[0]
    decreases j - i
    ensures IdxScan(s, p, i, 0) == j
  {
    if i < j {
      IdxScanSkip(s, p, i);
      IdxScanReaches(s, p, i + 1, j);
    }
  }

  /** "abcdefghijkl", the subject of the source's search test. */
  const Alphabet12: seq<byte> := [0x61, 0x62, 0x63, 0x64, 0x65, 0x66, 0x67, 0x68, 0x69, 0x6A, 0x6B, 0x6C]

  /** The lookups of the source's test, which the code as written passes:
      each multi-byte pattern matches at its first candidate. */
  lemma IdxAsWrittenFindsKl()
    ensures IdxAsWritten(Alphabet12, [0x6B, 0x6C]) == 10
  {
    var kl: seq<byte> := [0x6B, 0x6C];
    assert Run(Alphabet12, kl, 10, 0) == 2 by {
      assert Run(Alphabet12, kl, 11, 1) == 1;
    }
    IdxScanReaches(Alphabet12, kl, 0, 10);
  }

  lemma IdxAsWrittenFindsL()
    ensures IdxAsWritten(Alphabet12, [0x6C]) == 11
  {
    var l: seq<byte> := [0x6C];
    assert Run(Alphabet12, l, 11, 0) == 1;
    IdxScanReaches(Alphabet12, l, 0, 11);
  }

  lemma IdxAsWrittenFindsAb()
    ensures IdxAsWritten(Alphabet12, [0x61, 0x62]) == 0
    ensures IdxAsWritten(Alphabet12, []) == -1
  {
    var ab: seq<byte> := [0x61, 0x62];
    assert Run(Alphabet12, ab, 0, 0) == 2 by {
      assert Run(Alphabet12, ab, 1, 1) == 1;
    }
  }

  /** slfcr: first c at or after pos, or -1. A start beyond the length
      skips the scan and is returned as it is. */
  function Fcr(s: seq<byte>, c: byte, pos: nat): (r: int)
    decreases |s| - pos
    ensures |s| < pos ==> r == pos
    ensures pos <= |s| ==> (r == -1 <==> forall j :: pos <= j < |s| ==> s[j] != c)
    ensures pos <= |s| && r != -1 ==>
      pos <= r < |s| && s[r] == c && forall j :: pos <= j < r ==> s[j] != c
  {
    if pos < |s| && s[pos] != c then Fcr(s, c, pos + 1)
    else if pos == |s| then -1
    else pos
  }

  /** slfcl over the content and its terminator t: last c at or before
      pos, or -1. */
  function Fcl(t: seq<byte>, c: byte, pos: nat): (r: int)
    requires pos < |t|
    ensures r == -1 <==> forall j :: 0 <= j <= pos ==> t[j] != c
    ensures r != -1 ==> 0 <= r <= pos && t[r] == c && forall j :: r < j <= pos ==> t[j] != c
  {
    if pos > 0 && t[pos] != c then Fcl(t, c, pos - 1)
    else if pos == 0 && t[0] != c then -1
    else pos
  }

  /** slend: the last content byte, or zero for the empty string. */
  function LastByte(s: seq<byte>): (r: byte)
    ensures s == [] ==> r == 0
    ensures s != [] ==> r == s[|s| - 1]
  {
    if |s| == 0 then 0 else s[|s| - 1]
  }

  /** sldff: 1 when the lengths differ or strcmp finds the C strings
      different, else 0. */
  function Differ(a: seq<byte>, b: seq<byte>): (r: int)
    ensures r == 0 || r == 1
  {
    if |a| != |b| then 1
    else if CStr(a) == CStr(b) then 0
    else 1
  }

  /** On C strings sldff is exactly inequality. */
  lemma DifferOnText(a: seq<byte>, b: seq<byte>)
    requires NoZero(a) && NoZero(b)
    ensures Differ(a, b) == 0 <==> a == b
  {
    CStrOfText(a, []);
    CStrOfText(b, []);
  }

  /** Once a split has put a zero inside, contents that differ after the
      zero compare as equal. */
  lemma DifferIgnoresAfterZero(a: seq<byte>, b: seq<byte>, k: nat)
    requires |a| == |b| && k < |a|
    requires a[..k] == b[..k] && a[k] == 0 && b[k] == 0
    ensures Differ(a, b) == 0
  {
    assert a[..k + 1] == b[..k + 1];
    CStrUpToZero(a, k);
    CStrUpToZero(b, k);
  }

  /** The C string of s stops at or before any zero byte. */
  lemma CStrUpToZero(s: seq<byte>, k: nat)
    requires k < |s| && s[k] == 0
    ensures CStr(s) == CStr(s[..k + 1])
  {
    assert StrLen(s) <= k;
    assert s[..k + 1][..StrLen(s)] == s[..StrLen(s)];
    assert forall i :: 0 <= i < StrLen(s) ==> s[..k + 1][i] == s[i];
  }

  lemma DifferIgnoresAfterZeroExample()
    ensures Differ([0, 1], [0, 2]) == 0
  {
    DifferIgnoresAfterZero([0, 1], [0, 2], 0);
  }
}
