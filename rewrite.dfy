/** The in-place byte rewrites of the SL library that keep the length or
    only shorten the string: slswp, slcap, sltou, sltol, sldir and slbas. */
module Rewrite {
  import opened Bytes
  import Search
  import Mem
  import opened SlString

  /** slswp: every byte f of the content becomes t; the terminator and
      the reservation are untouched, so the string stays terminated even
      when t is zero. */
  method Swp(ss: Sl, f: byte, t: byte)
    requires ss.Valid()
    modifies ss.buf
    ensures ss.Valid() && ss.Content() == Swap(old(ss.Content()), f, t)
  {
    ghost var s := ss.Content();
    var i := 0;
    while i < ss.len
      invariant i <= ss.len && ss.Valid()
      invariant forall j :: 0 <= j < i ==> ss.buf[j] == if s[j] == f then t else s[j]
      invariant forall j :: i <= j < ss.len ==> ss.buf[j] == s[j]
    {
      if ss.buf[i] == f {
        ss.buf[i] := t;
      }
      i := i + 1;
    }
    assert ss.buf[..ss.len] == Swap(s, f, t);
  }

  /** slcap: the first byte upper-cased, nothing else changed. */
  method Cap(ss: Sl)
    requires ss.Valid()
    modifies ss.buf
    ensures ss.Valid() && ss.Content() == Capitalized(old(ss.Content()))
  {
    if ss.len > 0 {
      ss.buf[0] := ToUpper(ss.buf[0]);
    }
  }

  /** The content with its first byte upper-cased. */
  function Capitalized(s: seq<byte>): (r: seq<byte>)
  {
    if s == [] then [] else [ToUpper(s[0])] + s[1..]
  }

  /** Capitalizing changes only the first byte, and only a lower-case
      letter; upper-casing the whole string absorbs it. */
  lemma CapitalizedIsFirstUpper(s: seq<byte>)
    ensures |Capitalized(s)| == |s| && (s != [] ==> Capitalized(s)[1..] == s[1..])
    ensures s != [] ==> (Capitalized(s)[0] != s[0] <==> IsLower(s[0]))
    ensures UpperAll(Capitalized(s)) == UpperAll(s)
  {
    var c := Capitalized(s);
    if s != [] {
      assert c[1..] == s[1..];
      forall i | 0 <= i < |s| ensures UpperAll(c)[i] == UpperAll(s)[i] {
        if i > 0 {
          assert c[i] == s[i];
        }
      }
    }
  }

  /** sltou: every content byte upper-cased. */
  method Tou(ss: Sl)
    requires ss.Valid()
    modifies ss.buf
    ensures ss.Valid() && ss.Content() == UpperAll(old(ss.Content()))
  {
    ghost var s := ss.Content();
    var i := 0;
    while i < ss.len
      invariant i <= ss.len && ss.Valid()
      invariant forall j :: 0 <= j < i ==> ss.buf[j] == ToUpper(s[j])
      invariant forall j :: i <= j < ss.len ==> ss.buf[j] == s[j]
    {
      ss.buf[i] := ToUpper(ss.buf[i]);
      i := i + 1;
    }
    assert ss.buf[..ss.len] == UpperAll(s);
  }

  /** sltol: every content byte lower-cased. */
  method Tol(ss: Sl)
    requires ss.Valid()
    modifies ss.buf
    ensures ss.Valid() && ss.Content() == LowerAll(old(ss.Content()))
  {
    ghost var s := ss.Content();
    var i := 0;
    while i < ss.len
      invariant i <= ss.len && ss.Valid()
      invariant forall j :: 0 <= j < i ==> ss.buf[j] == ToLower(s[j])
      invariant forall j :: i <= j < ss.len ==> ss.buf[j] == s[j]
    {
      ss.buf[i] := ToLower(ss.buf[i]);
      i := i + 1;
    }
    assert ss.buf[..ss.len] == LowerAll(s);
  }

  // ----- sldir and slbas

  /** The position of the last '/' of a path, or -1: the scan of sldir
      and slbas, slfcl from the terminator down. */
  function LastSlash(s: seq<byte>): (r: int)
    ensures r == -1 <==> forall j :: 0 <= j < |s| ==> s[j] != SLASH
    ensures r != -1 ==> 0 <= r < |s| && s[r] == SLASH && forall j :: r < j < |s| ==> s[j] != SLASH
  {
    var t := s + [0];
    assert forall j :: 0 <= j < |s| ==> t[j] == s[j];
    Search.Fcl(t, SLASH, |s|)
  }

  /** sldir on values: the path before the last '/'; "/" when that is
      the first byte; "." when there is none. */
  function DirName(s: seq<byte>): (r: seq<byte>)
  {
    var k := LastSlash(s);
    if k < 0 then [DOT] else if k == 0 then [SLASH] else s[..k]
  }

  /** slbas on values: the path after the last '/', or all of it. */
  function BaseName(s: seq<byte>): (r: seq<byte>)
  {
    var k := LastSlash(s);
    if k < 0 then s else s[k + 1..]
  }

  /** The directory, a '/' and the base name make up the path again
      (the directory "/" already holds its '/'); a path without '/' is
      its own base name in the directory ".". The base name holds no
      '/'. */
  lemma DirBaseSplit(s: seq<byte>)
    ensures forall j :: 0 <= j < |BaseName(s)| ==> BaseName(s)[j] != SLASH
    ensures LastSlash(s) > 0 ==> DirName(s) + [SLASH] + BaseName(s) == s
    ensures LastSlash(s) == 0 ==> DirName(s) == [SLASH] && DirName(s) + BaseName(s) == s
    ensures LastSlash(s) < 0 ==> DirName(s) == [DOT] && BaseName(s) == s
  {
    var k := LastSlash(s);
    if k >= 0 {
      assert s == s[..k] + [SLASH] + s[k + 1..];
      forall j | 0 <= j < |BaseName(s)| ensures BaseName(s)[j] != SLASH {
        assert BaseName(s)[j] == s[k + 1 + j];
      }
    }
  }

  /** The scan of sldir and slbas stopped at i: the last '/' when i > 0,
      otherwise position 0 decides. */
  lemma ScanStop(s: seq<byte>, t: seq<byte>, i: nat)
    requires t == s + [0] && i <= |s|
    requires forall j :: i < j <= |s| ==> t[j] != SLASH
    requires i > 0 ==> t[i] == SLASH
    ensures i > 0 ==> LastSlash(s) == i
    ensures i == 0 ==> LastSlash(s) == (if |s| > 0 && s[0] == SLASH then 0 else -1)
  {
    assert forall j :: 0 <= j < |s| ==> t[j] == s[j];
  }

  /** The scan from the terminator down to the last '/' or position 0. */
  method SlashScan(ss: Sl) returns (i: nat)
    requires ss.Valid()
    ensures i <= ss.len
    ensures i > 0 ==> i == LastSlash(ss.Content())
    ensures i == 0 ==> LastSlash(ss.Content()) == (if ss.len > 0 && ss.buf[0] == SLASH then 0 else -1)
  {
    ghost var t := ss.Content() + [0];
    assert t == ss.buf[..ss.len + 1];
    i := ss.len;
    while i > 0 && ss.buf[i] != SLASH
      invariant i <= ss.len
      invariant forall j :: i < j <= ss.len ==> t[j] != SLASH
    {
      i := i - 1;
    }
    ScanStop(ss.Content(), t, i);
  }

  /** sldir: the string becomes its directory part. On the empty string
      the source writes "." and a terminator after it, so it needs two
      bytes of reservation. */
  method Dir(ss: Sl)
    requires ss.Valid() && (ss.len > 0 || ss.buf.Length >= 2)
    modifies ss, ss.buf
    ensures ss.Valid() && ss.buf == old(ss.buf)
    ensures ss.Content() == DirName(old(ss.Content()))
  {
    var i := SlashScan(ss);
    if i == 0 {
      if ss.buf[0] == SLASH {
        ss.buf[1] := 0;
        ss.len := 1;
      } else {
        ss.buf[0] := DOT;
        ss.buf[1] := 0;
        ss.len := 1;
      }
    } else {
      ghost var was := ss.buf[..i];
      ss.buf[i] := 0;
      ss.len := i;
      assert ss.buf[..i] == was;
    }
  }

  /** slbas: the string becomes its base name, moved to the front. */
  method Bas(ss: Sl)
    requires ss.Valid()
    modifies ss, ss.buf
    ensures ss.Valid() && ss.buf == old(ss.buf)
    ensures ss.Content() == BaseName(old(ss.Content()))
  {
    ghost var s := ss.Content();
    var i := SlashScan(ss);
    var c := ss.buf[0];
    BaseAfterScan(s, i, c);
    if i > 0 || c == SLASH {
      ToFront(ss, i + 1, s);
    }
  }

  /** What the scan's stop i and the first byte c tell about the base
      name: all of s when neither shows a '/', else what follows i. */
  lemma BaseAfterScan(s: seq<byte>, i: nat, c: byte)
    requires i <= |s| && (if |s| > 0 then c == s[0] else c == 0)
    requires i > 0 ==> i == LastSlash(s)
    requires i == 0 ==> LastSlash(s) == (if |s| > 0 && c == SLASH then 0 else -1)
    ensures i == 0 && c != SLASH ==> BaseName(s) == s
    ensures i > 0 || c == SLASH ==> i < |s| && BaseName(s) == s[i + 1..]
  {
  }

  /** The content from position i on moved to the front and terminated. */
  method ToFront(ss: Sl, i: nat, ghost s: seq<byte>)
    requires ss.Valid() && ss.Content() == s && i <= |s|
    modifies ss, ss.buf
    ensures ss.Valid() && ss.buf == old(ss.buf) && ss.Content() == s[i..]
  {
    var n := ss.len - i;
    ghost var b0 := ss.buf[..];
    Mem.MoveLeft(ss.buf, 0, i, n);
    ghost var b1 := ss.buf[..];
    ss.buf[n] := 0;
    ss.len := n;
    MovedFront(b0, b1, ss.buf[..], s, i, n);
  }

  /** Moving the n bytes after position i of the content s to the front
      and terminating them leaves s[i..] as the new content. */
  lemma MovedFront(b0: seq<byte>, b1: seq<byte>, b2: seq<byte>, s: seq<byte>, i: nat, n: nat)
    requires i + n == |s| < |b0| && s == b0[..|s|]
    requires b1 == b0[..0] + b0[i..i + n] + b0[n..]
    requires n < |b1| && b2 == b1[n := 0]
    ensures |b2| == |b0| && b2[..n] == s[i..] && b2[n] == 0
  {
    assert b1[..n] == b0[i..i + n];
    assert b2[..n] == b1[..n];
  }

  /** The paths of the library's tests. */
  const FooBarDii: seq<byte> := [0x2F, 0x66, 0x6F, 0x6F, 0x2F, 0x62, 0x61, 0x72, 0x2F, 0x64, 0x69, 0x69, 0x2E, 0x74, 0x78, 0x74]
  const Foo: seq<byte> := [0x2F, 0x66, 0x6F, 0x6F]
  const Dii: seq<byte> := [0x64, 0x69, 0x69, 0x2E, 0x74, 0x78, 0x74]

  /** "/foo/bar/dii.txt" has directory "/foo/bar" and base "dii.txt";
      "/foo" has "/" and "foo"; "dii.txt" has "." and itself. */
  lemma PathExamples()
    ensures DirName(FooBarDii) == FooBarDii[..8] && BaseName(FooBarDii) == Dii
    ensures DirName(Foo) == [SLASH] && BaseName(Foo) == Foo[1..]
    ensures DirName(Dii) == [DOT] && BaseName(Dii) == Dii
  {
    assert LastSlash(FooBarDii) == 8 by {
      ScanStop(FooBarDii, FooBarDii + [0], 8);
    }
    assert FooBarDii[9..] == Dii;
    ScanStop(Foo, Foo + [0], 0);
    ScanStop(Dii, Dii + [0], 0);
  }
}
