/** The managed buffer of the SL library: a content array whose length is
    the reservation (counting the terminator slot) and a logical length.

    In the C library the reservation and the length sit in a descriptor
    just before the content, and every call that may grow the string takes
    a pointer to the caller's handle so that it can overwrite it after a
    realloc. Here the handle is the object: growth allocates a fresh array
    of exactly the requested size, copies the old block into it and
    replaces buf, so every holder of the object sees the new storage. */
module SlString {
  import opened Bytes
  import opened Index
  import Mem
  import Search

  /** The descriptor holds two 32-bit fields, res and len. */
  const DescriptorSize: nat := 8

  class Sl {
    var buf: array<byte>
    var len: nat

    /** The string is terminated within its reservation. */
    ghost predicate Valid()
      reads this, buf
    {
      len < buf.Length && buf[len] == 0
    }

    /** The bytes before the terminator. */
    function Content(): (c: seq<byte>)
      reads this, buf
      requires Valid()
      ensures |c| == len && c + [0] <= buf[..]
    {
      buf[..len]
    }

    /** sllen: the descriptor length is the length of the content. */
    function Length(): (n: nat)
      reads this, buf
      requires Valid()
      ensures n == |Content()|
    {
      len
    }

    /** slall: the reservation always has room for the terminator. */
    function Reservation(): (n: nat)
      reads this, buf
      requires Valid()
      ensures n >= |Content()| + 1
    {
      buf.Length
    }

    /** slend: the last byte, read through the descriptor length. */
    function End(): (c: byte)
      reads this, buf
      requires Valid()
      ensures c == Search.LastByte(Content())
    {
      if len == 0 then 0 else buf[len - 1]
    }

    /** sldff: lengths first, then strcmp on what each buffer holds up
        to its first zero byte. */
    function Differs(other: Sl): (r: int)
      reads this, buf, other, other.buf
      requires Valid() && other.Valid()
      ensures r == Search.Differ(Content(), other.Content())
    {
      TerminatedCStr(buf[..], len);
      TerminatedCStr(other.buf[..], other.len);
      if len != other.len then 1
      else if CStr(buf[..]) == CStr(other.buf[..]) then 0
      else 1
    }

    /** slfcr: the scan right from pos for c; -1 when it reaches the
        end, pos itself when pos starts beyond it. */
    method FindRight(c: byte, pos: nat) returns (r: int)
      requires Valid()
      ensures r == Search.Fcr(Content(), c, pos)
    {
      var p := pos;
      while p < len && buf[p] != c
        invariant pos <= p && Search.Fcr(Content(), c, p) == Search.Fcr(Content(), c, pos)
        decreases len - p
      {
        p := p + 1;
      }
      if p == len {
        r := -1;
      } else {
        r := p;
      }
    }

    /** slfcl: the scan left from pos for c, which may start on the
        terminator; -1 when position 0 does not hold c either. */
    method FindLeft(c: byte, pos: nat) returns (r: int)
      requires Valid() && pos <= len
      ensures r == Search.Fcl(Content() + [0], c, pos)
    {
      ghost var t := Content() + [0];
      assert forall k :: 0 <= k <= len ==> t[k] == buf[k];
      var p: nat := pos;
      while p > 0 && buf[p] != c
        invariant p <= pos && Search.Fcl(t, c, p) == Search.Fcl(t, c, pos)
        decreases p
      {
        p := p - 1;
      }
      if p == 0 && buf[p] != c {
        r := -1;
      } else {
        r := p;
      }
    }

    /** slidx as the source writes it: the outer loop stops at the first
        zero byte, the inner loop compares while the pattern lasts, and
        the pattern index i2 carries over from one candidate to the
        next. The pattern is a C string, so it holds no zero byte. */
    method Index(pat: seq<byte>) returns (r: int)
      requires Valid() && NoZero(pat)
      ensures r == Search.IdxAsWritten(CStr(Content()), pat)
    {
      ghost var s := CStr(Content());
      TextView();
      if |pat| == 0 {
        return -1;
      }
      var i1: nat, i2: nat := 0, 0;
      while buf[i1] != 0
        invariant i1 <= |s| && i2 < |pat|
        invariant Search.IdxScan(s, pat, i1, i2) == Search.IdxAsWritten(s, pat)
        decreases |s| - i1
      {
        var j := i2;
        if buf[i1] == pat[i2] {
          j := MatchRun(pat, i1, i2);
          if j == |pat| {
            return i1;
          }
        }
        Search.IdxScanStep(s, pat, i1, i2, j);
        i1, i2 := i1 + 1, j;
      }
      r := -1;
    }

    /** The inner loop of slidx: from position i1 of the string and j0
        of the pattern, the pattern index where the bytes stop agreeing
        or the pattern ends. */
    method MatchRun(pat: seq<byte>, i1: nat, j0: nat) returns (j: nat)
      requires Valid() && NoZero(pat) && i1 <= |CStr(Content())| && j0 < |pat|
      ensures j == j0 + Search.Run(CStr(Content()), pat, i1, j0)
    {
      ghost var s := CStr(Content());
      TextView();
      var i := i1;
      j := j0;
      while j < |pat| && buf[i] == pat[j]
        invariant i1 <= i <= |s| && j0 <= j <= |pat| && i - i1 == j - j0
        invariant Search.Run(s, pat, i1, j0) == (i - i1) + Search.Run(s, pat, i, j)
        decreases |pat| - j
      {
        i, j := i + 1, j + 1;
      }
    }

    /** The C string the content starts with sits at the front of the
        buffer, followed by a zero byte. */
    lemma TextView()
      requires Valid()
      ensures |CStr(Content())| <= len && buf[|CStr(Content())|] == 0
      ensures forall k :: 0 <= k < |CStr(Content())| ==> buf[k] == CStr(Content())[k] && buf[k] != 0
    {
    }

    /** slnew: an empty string with reservation size. Writing the first
        terminator needs at least one byte. */
    constructor New(size: nat)
      requires size >= 1
      ensures Valid() && fresh(buf)
      ensures buf.Length == size && Content() == []
    {
      var a := new byte[size];
      a[0] := 0;
      buf, len := a, 0;
    }

    /** sluse: storage of size bytes taken over by a string; the
        descriptor takes its share, so 128 bytes hold 119 bytes of
        content and the terminator. */
    constructor Use(size: nat)
      requires size >= DescriptorSize + 1
      ensures Valid() && fresh(buf)
      ensures buf.Length == size - DescriptorSize && Content() == []
    {
      var a := new byte[size - DescriptorSize];
      a[0] := 0;
      buf, len := a, 0;
    }

    /** slstr_c: a string holding cs with the smallest reservation. */
    constructor FromCStr(cs: seq<byte>)
      requires NoZero(cs)
      ensures Valid() && fresh(buf)
      ensures buf.Length == |cs| + 1 && Content() == cs
    {
      var a := new byte[|cs| + 1];
      Mem.CopyIn(a, 0, cs + [0]);
      buf, len := a, |cs|;
    }

    /** slsiz_c: a string holding cs with reservation size, or the
        smallest one when size is too small for cs. */
    constructor Sized(cs: seq<byte>, size: nat)
      requires NoZero(cs)
      ensures Valid() && fresh(buf)
      ensures buf.Length == Max(size, |cs| + 1) && Content() == cs
    {
      var a := new byte[if size > |cs| + 1 then size else |cs| + 1];
      Mem.CopyIn(a, 0, cs + [0]);
      buf, len := a, |cs|;
    }

    /** slres: grow the reservation to exactly size when it is smaller;
        the content, the length and the old block are kept. */
    method Reserve(size: nat)
      requires Valid()
      modifies this
      ensures Valid() && len == old(len) && Content() == old(Content())
      ensures buf.Length == Max(old(buf.Length), size)
      ensures buf[..old(buf.Length)] == old(buf[..])
      ensures buf == old(buf) || fresh(buf)
    {
      if buf.Length < size {
        var a := new byte[size];
        Mem.CopyIn(a, 0, buf[..]);
        assert a[..buf.Length] == buf[..];
        buf := a;
        assert buf[..len] == old(buf[..])[..len];
      }
    }

    /** slmin: shrink the reservation to the content and its terminator. */
    method Shrink()
      requires Valid()
      modifies this
      ensures Valid() && len == old(len) && Content() == old(Content())
      ensures buf.Length == len + 1
      ensures buf == old(buf) || fresh(buf)
    {
      if buf.Length > len + 1 {
        var a := new byte[len + 1];
        Mem.CopyIn(a, 0, buf[..len + 1]);
        assert a[..] == buf[..len + 1];
        buf := a;
      }
    }

    /** slcpy_base: the content becomes src, copied with strncpy over
        |src| + 1 bytes, so a zero inside src pads the rest with zeros.
        src is a value taken before any growth. */
    method CopyBase(src: seq<byte>)
      requires Valid()
      modifies this, buf
      ensures Valid() && Content() == Padded(src)
      ensures buf.Length == Max(old(buf.Length), |src| + 1)
      ensures buf == old(buf) || fresh(buf)
    {
      Reserve(|src| + 1);
      Put(buf, 0, Padded(src));
      len := |src|;
    }

    /** slcpy: copy another string's content; other may be this string. */
    method Copy(other: Sl)
      requires Valid() && other.Valid()
      modifies this, buf
      ensures Valid() && Content() == Padded(old(other.Content()))
      ensures buf.Length == Max(old(buf.Length), old(other.len) + 1)
      ensures buf == old(buf) || fresh(buf)
    {
      CopyBase(other.Content());
    }

    /** slcpy_c: copy a C string. */
    method CopyC(cs: seq<byte>)
      requires Valid() && NoZero(cs)
      modifies this, buf
      ensures Valid() && Content() == cs
      ensures buf.Length == Max(old(buf.Length), |cs| + 1)
      ensures buf == old(buf) || fresh(buf)
    {
      PaddedOfText(cs);
      CopyBase(cs);
    }

    /** slcat_base: append src after the content. */
    method CatBase(src: seq<byte>)
      requires Valid()
      modifies this, buf
      ensures Valid() && Content() == old(Content()) + Padded(src)
      ensures buf.Length == Max(old(buf.Length), old(len) + |src| + 1)
      ensures buf == old(buf) || fresh(buf)
    {
      Reserve(len + |src| + 1);
      Put(buf, len, Padded(src));
      len := len + |src|;
    }

    /** slcat: append another string's content; appending a string to
        itself doubles it, whether or not the reservation grows. */
    method Cat(other: Sl)
      requires Valid() && other.Valid()
      modifies this, buf
      ensures Valid() && Content() == old(Content()) + Padded(old(other.Content()))
      ensures buf.Length == Max(old(buf.Length), old(len) + old(other.len) + 1)
      ensures buf == old(buf) || fresh(buf)
    {
      CatBase(other.Content());
    }

    /** slcat_c: append a C string. */
    method CatC(cs: seq<byte>)
      requires Valid() && NoZero(cs)
      modifies this, buf
      ensures Valid() && Content() == old(Content()) + cs
      ensures buf.Length == Max(old(buf.Length), old(len) + |cs| + 1)
      ensures buf == old(buf) || fresh(buf)
    {
      PaddedOfText(cs);
      CatBase(cs);
    }

    /** slfil: append cnt copies of c. */
    method Fill(c: byte, cnt: nat)
      requires Valid()
      modifies this, buf
      ensures Valid() && Content() == old(Content()) + Repeat(c, cnt)
      ensures buf.Length == Max(old(buf.Length), old(len) + cnt + 1)
      ensures buf == old(buf) || fresh(buf)
    {
      Reserve(len + cnt + 1);
      PutRepeat(buf, len, c, cnt);
      len := len + cnt;
    }

    /** slins_base: insert src at the normalised position pos; the tail
        moves right by |src|. */
    method InsertBase(pos: int, src: seq<byte>)
      requires Valid() && -(len as int) <= pos
      modifies this, buf
      ensures Valid()
      ensures Content() == old(Content()[..NormIdx(len, pos)]) + Padded(src) + old(Content()[NormIdx(len, pos)..])
      ensures buf.Length == Max(old(buf.Length), old(len) + |src| + 1)
      ensures buf == old(buf) || fresh(buf)
    {
      ghost var was := Content();
      Reserve(len + |src| + 1);
      var p := NormIdx(len, pos);
      ghost var b0 := buf[..];
      Parts(b0, was, p, len);
      Splice(buf, p, len, Padded(src));
      ghost var b2 := buf[..];
      len := len + |src|;
      buf[len] := 0;
      assert buf[..len] == b2[..len];
    }

    /** slins: insert another string's content (possibly this string's). */
    method Insert(pos: int, other: Sl)
      requires Valid() && other.Valid() && -(len as int) <= pos
      modifies this, buf
      ensures Valid()
      ensures Content() == old(Content()[..NormIdx(len, pos)]) + Padded(old(other.Content())) + old(Content()[NormIdx(len, pos)..])
      ensures buf.Length == Max(old(buf.Length), old(len) + old(other.len) + 1)
      ensures buf == old(buf) || fresh(buf)
    {
      InsertBase(pos, other.Content());
    }

    /** slins_c: insert a C string. */
    method InsertC(pos: int, cs: seq<byte>)
      requires Valid() && NoZero(cs) && -(len as int) <= pos
      modifies this, buf
      ensures Valid()
      ensures Content() == old(Content()[..NormIdx(len, pos)]) + cs + old(Content()[NormIdx(len, pos)..])
      ensures buf.Length == Max(old(buf.Length), old(len) + |cs| + 1)
      ensures buf == old(buf) || fresh(buf)
    {
      PaddedOfText(cs);
      InsertBase(pos, cs);
    }

    /** slpsh with the reservation it needs: one byte more for c and one
        for the terminator that moves to len + 1. */
    method Push(pos: int, c: byte)
      requires Valid() && -(len as int) <= pos
      modifies this, buf
      ensures Valid()
      ensures Content() == old(Content()[..NormIdx(len, pos)]) + [c] + old(Content()[NormIdx(len, pos)..])
      ensures buf.Length == Max(old(buf.Length), old(len) + 2)
      ensures buf == old(buf) || fresh(buf)
    {
      ghost var was := Content();
      Reserve(len + 2);
      var p := NormIdx(len, pos);
      ghost var b0 := buf[..];
      Parts(b0, was, p, len);
      Splice(buf, p, len, [c]);
      ghost var b2 := buf[..];
      len := len + 1;
      buf[len] := 0;
      assert buf[..len] == b2[..len];
    }

    /** slpop: remove the byte at the normalised position; the end
        position removes nothing. */
    method Pop(pos: int)
      requires Valid() && -(len as int) <= pos
      modifies this, buf
      ensures Valid() && buf == old(buf)
      ensures NormIdx(old(len), pos) < old(len) ==>
        Content() == old(Content()[..NormIdx(len, pos)]) + old(Content()[NormIdx(len, pos) + 1..])
      ensures NormIdx(old(len), pos) == old(len) ==> Content() == old(Content())
    {
      var p := NormIdx(len, pos);
      if p != len {
        Parts(buf[..], buf[..len], p, len);
        Remove(buf, p, len);
        len := len - 1;
      }
    }

    /** sllim: terminate at pos. The source does not compare pos with the
        length: a pos inside the reservation but past the content brings
        the stale bytes before it into the string. */
    method Limit(pos: int)
      requires Valid() && 0 <= pos < buf.Length
      modifies this, buf
      ensures Valid() && buf == old(buf)
      ensures Content() == old(buf[..pos])
      ensures pos <= old(len) ==> Content() == old(Content()[..pos])
    {
      buf[pos] := 0;
      len := pos;
    }

    /** slcut: a non-negative cnt drops that many bytes from the end, a
        negative one drops -cnt bytes from the start. */
    method Cut(cnt: int)
      requires Valid() && -(len as int) <= cnt <= len as int
      modifies this, buf
      ensures Valid() && buf == old(buf)
      ensures cnt >= 0 ==> Content() == old(Content()[..len - cnt])
      ensures cnt < 0 ==> Content() == old(Content()[-cnt..])
    {
      if cnt >= 0 {
        var pos := len - cnt;
        buf[pos] := 0;
        len := pos;
      } else {
        var n := len + cnt;
        ghost var was := buf[..len];
        Mem.MoveLeft(buf, 0, -cnt, n);
        assert buf[..n] == was[-cnt..];
        len := n;
        buf[n] := 0;
      }
    }

    /** slsel: keep the slice between two normalised boundaries, in
        either order, the upper one exclusive. */
    method Select(a: int, b: int)
      requires Valid() && -(len as int) <= a && -(len as int) <= b
      modifies this, buf
      ensures Valid() && buf == old(buf)
      ensures Content() == old(Content()[Min(NormIdx(len, a), NormIdx(len, b))..Max(NormIdx(len, a), NormIdx(len, b))])
    {
      var an, bn := NormIdx(len, a), NormIdx(len, b);
      if bn < an {
        an, bn := bn, an;
      }
      SliceOfPrefix(buf[..], len, an, bn);
      Narrow(buf, an, bn);
      ghost var moved := buf[..];
      buf[bn - an] := 0;
      len := bn - an;
      assert buf[..len] == moved[..bn - an];
    }

    /** slclr: the empty string, reservation untouched. */
    method Clear()
      requires Valid()
      modifies this, buf
      ensures Valid() && buf == old(buf) && Content() == []
    {
      len := 0;
      buf[0] := 0;
    }

    /** sldup: a new string with the same reservation. */
    method Dup() returns (n: Sl)
      requires Valid()
      ensures fresh(n) && fresh(n.buf) && n.Valid()
      ensures n.buf.Length == buf.Length && n.Content() == Padded(Content())
    {
      n := new Sl.New(buf.Length);
      n.Copy(this);
    }

    /** slrep: a new string with the smallest reservation. */
    method Rep() returns (n: Sl)
      requires Valid()
      ensures fresh(n) && fresh(n.buf) && n.Valid()
      ensures n.buf.Length == len + 1 && n.Content() == Padded(Content())
    {
      n := new Sl.New(len + 1);
      n.Copy(this);
    }
  }

  /** slpsh as written, on the buffer b holding a string of length len:
      it asks for a reservation of len + 1, which every string already
      has, so the buffer never grows; then it moves the tail right by
      one, writes c, and writes the terminator at len + 1. None when that
      last write falls outside the reservation. */
  function PushAsWritten(b: seq<byte>, len: nat, pos: int, c: byte): (r: Option<seq<byte>>)
    requires len < |b| && b[len] == 0 && -(len as int) <= pos
    ensures r.None? <==> |b| == len + 1
    ensures r.Some? ==> |r.value| == |b|
  {
    var p := NormIdx(len, pos);
    if len + 1 == |b| then None
    else Some(b[..p] + [c] + b[p..len] + [0] + b[len + 2..])
  }

  /** Every string whose reservation is exactly its length plus the
      terminator, as slstr_c and slmin leave it, makes slpsh write one
      byte past the reservation. */
  lemma PushAsWrittenOverruns(s: seq<byte>, pos: int, c: byte)
    requires -|s| <= pos
    ensures PushAsWritten(s + [0], |s|, pos, c) == None
  {
  }

  /** With a spare byte the source's slpsh gives what Sl.Push gives. */
  lemma PushAsWrittenWithRoom(b: seq<byte>, len: nat, pos: int, c: byte)
    requires len + 1 < |b| && b[len] == 0 && -(len as int) <= pos
    ensures PushAsWritten(b, len, pos, c).Some?
    ensures var p := NormIdx(len, pos); var r := PushAsWritten(b, len, pos, c).value;
      r[..len + 1] == b[..p] + [c] + b[p..len] && r[len + 1] == 0
  {
    var p := NormIdx(len, pos);
    var r := PushAsWritten(b, len, pos, c).value;
    assert r == (b[..p] + [c] + b[p..len]) + [0] + b[len + 2..];
  }

  /** Up to its first zero, a terminated buffer reads as its content. */
  lemma TerminatedCStr(b: seq<byte>, n: nat)
    requires n < |b| && b[n] == 0
    ensures CStr(b) == CStr(b[..n])
  {
    StrLenPrefix(b, n);
  }

  lemma {:induction false} StrLenPrefix(b: seq<byte>, n: nat)
    requires n < |b| && b[n] == 0
    ensures StrLen(b) == StrLen(b[..n]) && StrLen(b) <= n
  {
    if b[0] != 0 {
      if n > 0 {
        StrLenPrefix(b[1..], n - 1);
        assert b[..n][1..] == b[1..][..n - 1];
      }
    }
  }

  /** The array effect of sl_cpy (and of strncpy over |x| + 1 bytes of
      a terminated x): x and a terminator written at n; what comes before
      n is kept. */
  method Put(a: array<byte>, n: nat, x: seq<byte>)
    requires n + |x| < a.Length
    modifies a
    ensures a[..n + |x| + 1] == old(a[..n]) + x + [0]
  {
    ghost var b0 := a[..];
    Mem.CopyIn(a, n, x + [0]);
    PutShape(b0, a[..], n, x + [0]);
  }

  /** The array effect of slfil: memset of cnt bytes at n, then the
      terminator. */
  method PutRepeat(a: array<byte>, n: nat, c: byte, cnt: nat)
    requires n + cnt < a.Length
    modifies a
    ensures a[..n + cnt + 1] == old(a[..n]) + Repeat(c, cnt) + [0]
  {
    ghost var b0 := a[..];
    Mem.Fill(a, n, c, cnt);
    ghost var b1 := a[..];
    a[n + cnt] := 0;
    PutShape(b0, b1, n, Repeat(c, cnt));
    assert a[..n + cnt + 1] == b1[..n + cnt] + [0];
  }

  lemma PutShape(b0: seq<byte>, b1: seq<byte>, n: nat, x: seq<byte>)
    requires n + |x| <= |b0| && b1 == b0[..n] + x + b0[n + |x|..]
    ensures b1[..n + |x|] == b0[..n] + x
  {
  }

  /** The array effect of slpop: the bytes after p, up to and including
      the terminator at n, move left over the byte at p. */
  method Remove(a: array<byte>, p: nat, n: nat)
    requires p < n < a.Length && a[n] == 0
    modifies a
    ensures a[..n - 1] == old(a[..p]) + old(a[p + 1..n]) && a[n - 1] == 0
  {
    ghost var b0 := a[..];
    Mem.MoveLeft(a, p, p + 1, n - p);
    RemoveShape(b0, a[..], p, n);
  }

  lemma RemoveShape(b0: seq<byte>, b1: seq<byte>, p: nat, n: nat)
    requires p < n < |b0| && b1 == b0[..p] + b0[p + 1..p + 1 + (n - p)] + b0[p + (n - p)..]
    ensures b1[..n - 1] == b0[..p] + b0[p + 1..n] && b1[n - 1] == b0[n]
  {
    assert b1[..n - 1] == b0[..p] + b0[p + 1..n];
  }

  /** The array effect of slins_base and slpsh: of the n content bytes
      of a, the tail from p moves right by |src| and src is written into
      the gap. */
  method Splice(a: array<byte>, p: nat, n: nat, src: seq<byte>)
    requires p <= n && n + |src| < a.Length
    modifies a
    ensures a[..n + |src|] == old(a[..p]) + src + old(a[p..n])
  {
    ghost var b0 := a[..];
    var tail, cnt := p + |src|, n - p;
    Mem.MoveRight(a, tail, p, cnt);
    ghost var b1 := a[..];
    assert b1 == b0[..tail] + b0[p..p + cnt] + b0[tail + cnt..];
    Mem.CopyIn(a, p, src);
    SpliceShape(b0, b1, a[..], p, n, src);
  }

  lemma SpliceShape(b0: seq<byte>, b1: seq<byte>, b2: seq<byte>, p: nat, n: nat, src: seq<byte>)
    requires p <= n && n + |src| < |b0|
    requires b1 == b0[..p + |src|] + b0[p..p + (n - p)] + b0[p + |src| + (n - p)..]
    requires b2 == b1[..p] + src + b1[p + |src|..]
    ensures |b2| == |b0| && b2[..n + |src|] == b0[..p] + src + b0[p..n]
  {
    assert b1[..p] == b0[..p];
    assert b1[p + |src|..n + |src|] == b0[p..n];
    assert b2[..n + |src|] == b1[..p] + src + b1[p + |src|..n + |src|];
  }

  /** The pieces of a buffer whose first n bytes are was. */
  lemma Parts(b: seq<byte>, was: seq<byte>, p: nat, n: nat)
    requires p <= n <= |b| && b[..n] == was
    ensures b[..p] == was[..p] && b[p..n] == was[p..]
  {
  }

  /** The array effect of slsel: memmove(str, str + an, bn - an) brings
      the selected bytes to the front. */
  method Narrow(a: array<byte>, an: nat, bn: nat)
    requires an <= bn <= a.Length
    modifies a
    ensures a[..bn - an] == old(a[an..bn])
  {
    ghost var was := a[..];
    Mem.MoveLeft(a, 0, an, bn - an);
    SliceOfMoved(was, a[..], an, bn);
  }

  lemma SliceOfPrefix(b: seq<byte>, n: nat, i: nat, j: nat)
    requires i <= j <= n <= |b|
    ensures b[..n][i..j] == b[i..j]
  {
  }

  /** What memmove(str, str + an, bn - an) leaves at the front. */
  lemma SliceOfMoved(was: seq<byte>, moved: seq<byte>, an: nat, bn: nat)
    requires an <= bn <= |was|
    requires moved == was[..0] + was[an..bn] + was[bn - an..]
    ensures moved[..bn - an] == was[an..bn]
  {
  }
}
