/** slvpq, the library's own formatter: a measure pass over the format
    that adds up the size of what each directive will write, one
    reservation for the content, the terminator and that size, then a
    write pass that expands the format at the end of the content.

    The directives are %s (a C string), %S (an SL string, copied with
    strncpy over its length), %i and %I (signed integers), %u and %U
    (unsigned integers), %c (a character) and %% (a '%'). The variable
    argument list is a sequence of Arg values. Reading an argument as a
    type it was not passed as is undefined in C (a pointer read as an
    integer, an int read as int64_t), and the functions here give None
    for it; the reads ISO C11 section 7.16.1.1 allows between signed
    and unsigned integers are modelled by ReadAs. */
module Format {
  import opened Bytes
  import opened Decimal
  import opened SlString
  import Mem

  const DIR_STR: byte := 0x73
  const DIR_SL: byte := 0x53
  const DIR_INT: byte := 0x69
  const DIR_INT64: byte := 0x49
  const DIR_UNS: byte := 0x75
  const DIR_UNS64: byte := 0x55
  const DIR_CHAR: byte := 0x63

  /** One argument of the variable list: a C string's bytes, an SL
      string's content, an integer or a character. */
  datatype Arg = Str(s: seq<byte>) | SlStr(s: seq<byte>) | Int(i: int) | UInt(u: nat) | Char(c: byte)

  /** The directives that read an argument. */
  predicate TakesArg(dir: byte)
  {
    dir == DIR_STR || dir == DIR_SL || dir == DIR_INT || dir == DIR_INT64
    || dir == DIR_UNS || dir == DIR_UNS64 || dir == DIR_CHAR
  }

  /** The argument is of the kind the directive reads. */
  predicate Fits(dir: byte, a: Arg)
  {
    match a
    case Str(_) => dir == DIR_STR
    case SlStr(_) => dir == DIR_SL
    case Int(i) => (dir == DIR_INT || dir == DIR_INT64) && I64Min <= i
    case UInt(_) => dir == DIR_UNS || dir == DIR_UNS64
    case Char(_) => dir == DIR_CHAR
  }

  const I64Limit: nat := 0x8000_0000_0000_0000

  /** The arguments passed as pointers. */
  predicate IsPointer(a: Arg) { a.Str? || a.SlStr? }

  /** How va_arg reads argument a for directive dir; the two need not
      agree (after a %c the measure pass as written reads every later
      argument one directive early). An argument of the kind the
      directive names is read as itself. Otherwise the read is defined
      only where ISO C11 section 7.16.1.1 allows it: a character,
      promoted to int, read by %i or %u; a signed value read as unsigned
      and back when both types hold it; an SL string read by %s, both
      being char pointers. An integer read as a pointer, a pointer read
      as an integer, a C string read as an SL string (there is no
      descriptor in front of it) and an int read as a 64-bit integer
      give None. */
  function ReadAs(dir: byte, a: Arg): (r: Option<Arg>)
    ensures Fits(dir, a) ==> r == Some(a)
    ensures r.Some? ==> Fits(dir, r.value) && IsPointer(a) == IsPointer(r.value)
    ensures a.Char? && (dir == DIR_INT || dir == DIR_UNS) ==> r.Some?
    ensures a.Char? && (dir == DIR_INT64 || dir == DIR_UNS64) ==> r.None?
    ensures a.Int? && 0 <= a.i && (dir == DIR_UNS || dir == DIR_UNS64) ==> r == Some(UInt(a.i))
    ensures a.UInt? && a.u < I64Limit && (dir == DIR_INT || dir == DIR_INT64) ==> r == Some(Int(a.u))
  {
    if Fits(dir, a) then Some(a)
    else
      match a
      case Char(c) =>
        if dir == DIR_INT then Some(Int(c as int))
        else if dir == DIR_UNS then Some(UInt(c as nat))
        else None
      case Int(i) =>
        if (dir == DIR_UNS || dir == DIR_UNS64) && 0 <= i then Some(UInt(i)) else None
      case UInt(u) =>
        if (dir == DIR_INT || dir == DIR_INT64) && u < I64Limit then Some(Int(u)) else None
      case SlStr(t) =>
        if dir == DIR_STR then Some(Str(t)) else None
      case Str(_) => None
  }

  /** What a directive writes for its argument: a C string up to its
      terminator, an SL string through strncpy over its length (zero
      padding after an inner zero byte), the decimal text of an integer,
      or the character. */
  function ArgText(dir: byte, a: Arg): (x: seq<byte>)
    requires Fits(dir, a)
    ensures a.Str? ==> x == CStr(a.s)
    ensures a.SlStr? ==> |x| == |a.s| && (NoZero(a.s) ==> x == a.s)
    ensures a.Int? ==> |x| >= 1 && (x[0] == MINUS || IsDigit(x[0])) && forall k :: 1 <= k < |x| ==> IsDigit(x[k])
    ensures a.Int? ==> SignedValue(x) == a.i
    ensures a.UInt? ==> |x| >= 1 && forall k :: 0 <= k < |x| ==> IsDigit(x[k])
    ensures a.UInt? ==> Value(x) == a.u
    ensures a.Char? ==> x == [a.c]
  {
    match a
    case Str(s) => CStr(s)
    case SlStr(s) =>
      if NoZero(s) then PaddedOfText(s); Padded(s) else Padded(s)
    case Int(i) => I64TextReadsBack(i); I64Text(i)
    case UInt(u) => U64TextReadsBack(u); U64Text(u)
    case Char(c) => [c]
  }

  /** The write pass at fmt[i] with args[j] the next argument: the bytes
      it writes, the next format position and the next argument, or
      None when the argument is missing or ReadAs cannot read it. A '%' at
      the very end of the format ends it. */
  function Step(fmt: seq<byte>, args: seq<Arg>, i: nat, j: nat): (r: Option<(seq<byte>, nat, nat)>)
    requires i < |fmt|
    ensures r.Some? ==> i < r.value.1 <= |fmt| && j <= r.value.2 <= j + 1
    ensures r.Some? && fmt[i] != PERCENT ==> r.value == ([fmt[i]], i + 1, j)
    ensures r.None? <==> fmt[i] == PERCENT && i + 1 < |fmt| && TakesArg(fmt[i + 1])
                         && !(j < |args| && ReadAs(fmt[i + 1], args[j]).Some?)
  {
    if fmt[i] != PERCENT then Some(([fmt[i]], i + 1, j))
    else if i + 1 == |fmt| then Some(([], i + 1, j))
    else
      var dir := fmt[i + 1];
      if !TakesArg(dir) then Some(([dir], i + 2, j))
      else if j < |args| && ReadAs(dir, args[j]).Some? then Some((ArgText(dir, ReadAs(dir, args[j]).value), i + 2, j + 1))
      else None
  }

  /** The expansion of fmt from position i on, with args[j..] to read. */
  function ExpandFrom(fmt: seq<byte>, args: seq<Arg>, i: nat, j: nat): Option<seq<byte>>
    requires i <= |fmt|
    decreases |fmt| - i
  {
    if i == |fmt| then Some([])
    else
      var r := Step(fmt, args, i, j);
      if r.None? then None
      else
        var rest := ExpandFrom(fmt, args, r.value.1, r.value.2);
        if rest.None? then None else Some(r.value.0 + rest.value)
  }

  /** What the formatter appends for fmt and args. */
  function Expand(fmt: seq<byte>, args: seq<Arg>): Option<seq<byte>>
  {
    ExpandFrom(fmt, args, 0, 0)
  }

  /** A format without '%' is copied as it is. */
  lemma {:induction false} PlainTextExpands(fmt: seq<byte>, args: seq<Arg>, i: nat, j: nat)
    requires i <= |fmt| && forall k :: i <= k < |fmt| ==> fmt[k] != PERCENT
    decreases |fmt| - i
    ensures ExpandFrom(fmt, args, i, j) == Some(fmt[i..])
  {
    if i < |fmt| {
      PlainTextExpands(fmt, args, i + 1, j);
      assert fmt[i..] == [fmt[i]] + fmt[i + 1..];
    }
  }

  /** The expansion is one step's bytes followed by the expansion after
      that step. */
  lemma ExpandStep(fmt: seq<byte>, args: seq<Arg>, i: nat, j: nat)
    requires i < |fmt| && ExpandFrom(fmt, args, i, j).Some?
    ensures Step(fmt, args, i, j).Some?
    ensures var r := Step(fmt, args, i, j).value;
      ExpandFrom(fmt, args, r.1, r.2).Some? && ExpandFrom(fmt, args, i, j).value == r.0 + ExpandFrom(fmt, args, r.1, r.2).value
  {
  }

  /** The other direction: a step that succeeds followed by an expansion
      that succeeds. */
  lemma ExpandUnfold(fmt: seq<byte>, args: seq<Arg>, i: nat, j: nat, x: seq<byte>, i2: nat, j2: nat, y: seq<byte>, z: seq<byte>)
    requires i < |fmt| && Step(fmt, args, i, j) == Some((x, i2, j2)) && i2 <= |fmt|
    requires ExpandFrom(fmt, args, i2, j2) == Some(y) && z == x + y
    ensures ExpandFrom(fmt, args, i, j) == Some(z)
  {
  }

  /** The measure pass for the directive at fmt[i]: the size of what the
      write pass will write for it, and where both go on. */
  method StepSize(fmt: seq<byte>, args: seq<Arg>, i: nat, j: nat) returns (n: nat, i2: nat, j2: nat)
    requires i < |fmt| && Step(fmt, args, i, j).Some?
    ensures var r := Step(fmt, args, i, j).value; n == |r.0| && i2 == r.1 && j2 == r.2
  {
    if fmt[i] != PERCENT {
      return 1, i + 1, j;
    }
    if i + 1 == |fmt| {
      return 0, i + 1, j;
    }
    var dir := fmt[i + 1];
    i2 := i + 2;
    if !TakesArg(dir) {
      n, j2 := 1, j;
      return;
    }
    j2 := j + 1;
    match ReadAs(dir, args[j]).value {
      case Str(s) => n := StrLen(s);
      case SlStr(s) => n := |s|;
      case Int(v) => n := I64StrLen(v);
      case UInt(u) => n := U64StrLen(u);
      case Char(_) => n := 1;
    }
  }

  /** The measure pass: the size the expansion will take. fmt is the
      format up to its terminator, where the source's loop stops. */
  method MeasurePass(fmt: seq<byte>, args: seq<Arg>) returns (size: nat)
    requires NoZero(fmt) && Expand(fmt, args).Some?
    ensures size == |Expand(fmt, args).value|
  {
    var i, j := 0, 0;
    size := 0;
    while i < |fmt|
      invariant i <= |fmt| && ExpandFrom(fmt, args, i, j).Some?
      invariant size + |ExpandFrom(fmt, args, i, j).value| == |Expand(fmt, args).value|
      decreases |fmt| - i
    {
      ExpandStep(fmt, args, i, j);
      var n, i2, j2 := StepSize(fmt, args, i, j);
      size, i, j := size + n, i2, j2;
    }
  }

  /** The write pass for the directive at fmt[i]: its bytes written at
      w. A number's conversion also writes a terminator right after it,
      which the next step or the final terminator overwrites. */
  method WriteStep(a: array<byte>, w: nat, fmt: seq<byte>, args: seq<Arg>, i: nat, j: nat)
    returns (n: nat, i2: nat, j2: nat)
    requires i < |fmt| && Step(fmt, args, i, j).Some?
    requires w + |Step(fmt, args, i, j).value.0| < a.Length
    modifies a
    ensures var r := Step(fmt, args, i, j).value; n == |r.0| && i2 == r.1 && j2 == r.2
    ensures a[w..w + n] == Step(fmt, args, i, j).value.0
    ensures forall k {:trigger a[k]} :: 0 <= k < a.Length && !(w <= k <= w + n) ==> a[k] == old(a[k])
  {
    if fmt[i] != PERCENT {
      a[w] := fmt[i];
      return 1, i + 1, j;
    }
    if i + 1 == |fmt| {
      return 0, i + 1, j;
    }
    var dir := fmt[i + 1];
    if !TakesArg(dir) {
      a[w] := dir;
      return 1, i + 2, j;
    }
    var arg := ReadAs(dir, args[j]).value;
    n := WriteArg(a, w, dir, arg, ArgText(dir, arg));
    i2, j2 := i + 2, j + 1;
  }

  /** A directive's argument written at w, as ArgText gives it. */
  method WriteArg(a: array<byte>, w: nat, dir: byte, arg: Arg, ghost x: seq<byte>) returns (n: nat)
    requires Fits(dir, arg) && x == ArgText(dir, arg) && w + |x| < a.Length
    modifies a
    ensures n == |x| && a[w..w + n] == x
    ensures forall k {:trigger a[k]} :: 0 <= k < a.Length && !(w <= k <= w + n) ==> a[k] == old(a[k])
  {
    if arg.Int? || arg.UInt? {
      n := WriteNumber(a, w, dir, arg, x);
    } else {
      n := WriteBytes(a, w, dir, arg, x);
    }
  }

  /** %i, %I, %u and %U: the decimal text, through the conversions. */
  method WriteNumber(a: array<byte>, w: nat, dir: byte, arg: Arg, ghost x: seq<byte>) returns (n: nat)
    requires Fits(dir, arg) && (arg.Int? || arg.UInt?) && x == ArgText(dir, arg) && w + |x| < a.Length
    modifies a
    ensures n == |x| && a[w..w + n] == x
    ensures forall k {:trigger a[k]} :: 0 <= k < a.Length && !(w <= k <= w + n) ==> a[k] == old(a[k])
  {
    if arg.Int? {
      n := I64StrLen(arg.i);
      PutSigned(a, w, arg.i);
    } else {
      n := U64StrLen(arg.u);
      PutUnsigned(a, w, arg.u);
    }
  }

  /** %s, %S and %c: the bytes copied as they are. */
  method WriteBytes(a: array<byte>, w: nat, dir: byte, arg: Arg, ghost x: seq<byte>) returns (n: nat)
    requires Fits(dir, arg) && (arg.Str? || arg.SlStr? || arg.Char?) && x == ArgText(dir, arg) && w + |x| < a.Length
    modifies a
    ensures n == |x| && a[w..w + n] == x
    ensures forall k {:trigger a[k]} :: 0 <= k < a.Length && !(w <= k <= w + n) ==> a[k] == old(a[k])
  {
    match arg {
      case Str(s) =>
        n := StrLen(s);
        PutText(a, w, s[..n]);
        return;
      case SlStr(s) =>
        n := |s|;
        PutText(a, w, Padded(s));
        return;
      case Char(ch) =>
        n := 1;
        PutText(a, w, [ch]);
        return;
    }
  }

  /** x copied to w; nothing else changes. */
  method PutText(a: array<byte>, w: nat, x: seq<byte>)
    requires w + |x| <= a.Length
    modifies a
    ensures a[w..w + |x|] == x
    ensures forall k {:trigger a[k]} :: 0 <= k < a.Length && !(w <= k < w + |x|) ==> a[k] == old(a[k])
  {
    ghost var b0 := a[..];
    Mem.CopyIn(a, w, x);
    Wrote(b0, a[..], w, x);
  }

  /** The decimal text of a signed integer written at w, with the
      terminator the conversion puts after it. */
  method PutSigned(a: array<byte>, w: nat, v: int)
    requires I64Min <= v && w + |I64Text(v)| < a.Length
    modifies a
    ensures a[w..w + |I64Text(v)|] == I64Text(v)
    ensures forall k {:trigger a[k]} :: 0 <= k < a.Length && !(w <= k <= w + |I64Text(v)|) ==> a[k] == old(a[k])
  {
    ghost var b0 := a[..];
    I64ToStr(a, w, v);
    WroteTerminated(b0, a[..], w, I64Text(v));
  }

  /** The decimal text of an unsigned integer written at w, with the
      terminator the conversion puts after it. */
  method PutUnsigned(a: array<byte>, w: nat, u: nat)
    requires w + |U64Text(u)| < a.Length
    modifies a
    ensures a[w..w + |U64Text(u)|] == U64Text(u)
    ensures forall k {:trigger a[k]} :: 0 <= k < a.Length && !(w <= k <= w + |U64Text(u)|) ==> a[k] == old(a[k])
  {
    ghost var b0 := a[..];
    U64ToStr(a, w, u);
    WroteTerminated(b0, a[..], w, U64Text(u));
  }

  /** Byte by byte, what writing x at w leaves. */
  lemma Wrote(b0: seq<byte>, b1: seq<byte>, w: nat, x: seq<byte>)
    requires w + |x| <= |b0| && b1 == b0[..w] + x + b0[w + |x|..]
    ensures |b1| == |b0| && b1[w..w + |x|] == x
    ensures forall k {:trigger b1[k]} :: 0 <= k < |b1| && !(w <= k < w + |x|) ==> b1[k] == b0[k]
  {
    assert b1[w..w + |x|] == x;
  }

  /** Byte by byte, what writing x and a terminator at w leaves. */
  lemma WroteTerminated(b0: seq<byte>, b1: seq<byte>, w: nat, x: seq<byte>)
    requires w + |x| < |b0| && b1 == b0[..w] + x + [0] + b0[w + |x| + 1..]
    ensures |b1| == |b0| && b1[w..w + |x|] == x
    ensures forall k {:trigger b1[k]} :: 0 <= k < |b1| && !(w <= k <= w + |x|) ==> b1[k] == b0[k]
  {
    assert b1[w..w + |x|] == x;
  }

  /** Where the write pass stands: the bytes from w0 to w followed by
      the expansion from fmt[i] and args[j] on make up out, and a
      outside w0..w is as it was in b0. */
  ghost predicate Progress(a: array<byte>, b0: seq<byte>, w0: nat, w: nat, fmt: seq<byte>, args: seq<Arg>, i: nat, j: nat, out: seq<byte>)
    reads a
  {
    i <= |fmt| && w0 <= w && |b0| == a.Length && ExpandFrom(fmt, args, i, j).Some?
    && w + |ExpandFrom(fmt, args, i, j).value| == w0 + |out| < a.Length
    && a[w0..w] + ExpandFrom(fmt, args, i, j).value == out
    && forall k {:trigger a[k]} :: 0 <= k < a.Length && (k < w0 || w < k) ==> a[k] == b0[k]
  }

  /** The write pass: the expansion and a terminator written at w0;
      nothing else in a changes. fmt is the format up to its
      terminator. */
  method WritePass(a: array<byte>, w0: nat, fmt: seq<byte>, args: seq<Arg>)
    requires NoZero(fmt) && Expand(fmt, args).Some? && w0 + |Expand(fmt, args).value| < a.Length
    modifies a
    ensures a[..] == old(a[..w0]) + Expand(fmt, args).value + [0] + old(a[w0 + |Expand(fmt, args).value| + 1..])
  {
    ghost var b0 := a[..];
    var w := WriteExpansion(a, w0, fmt, args);
    a[w] := 0;
    Rebuilt(b0, a[..], w0, Expand(fmt, args).value);
  }

  /** The loop of the write pass: the expansion written at w0, with
      nothing outside w0..w changed. */
  method WriteExpansion(a: array<byte>, w0: nat, fmt: seq<byte>, args: seq<Arg>) returns (w: nat)
    requires Expand(fmt, args).Some? && w0 + |Expand(fmt, args).value| < a.Length
    modifies a
    ensures w == w0 + |Expand(fmt, args).value| && a[w0..w] == Expand(fmt, args).value
    ensures forall k {:trigger a[k]} :: 0 <= k < a.Length && (k < w0 || w < k) ==> a[k] == old(a[k])
  {
    ghost var b0 := a[..];
    ghost var out := Expand(fmt, args).value;
    var i: nat, j: nat := 0, 0;
    w := w0;
    while i < |fmt|
      invariant Progress(a, b0, w0, w, fmt, args, i, j, out)
      decreases |fmt| - i
    {
      var n, i2, j2 := WriteNext(a, b0, w0, w, fmt, args, i, j, out);
      i, j, w := i2, j2, w + n;
    }
  }

  /** One step of the write pass, keeping its progress. */
  method WriteNext(a: array<byte>, ghost b0: seq<byte>, w0: nat, w: nat, fmt: seq<byte>, args: seq<Arg>, i: nat, j: nat, ghost out: seq<byte>)
    returns (n: nat, i2: nat, j2: nat)
    requires i < |fmt| && Progress(a, b0, w0, w, fmt, args, i, j, out)
    modifies a
    ensures i < i2 && Progress(a, b0, w0, w + n, fmt, args, i2, j2, out)
  {
    ExpandStep(fmt, args, i, j);
    ghost var b1 := a[..];
    ghost var rest := ExpandFrom(fmt, args, i, j).value;
    ghost var x := Step(fmt, args, i, j).value.0;
    n, i2, j2 := WriteStep(a, w, fmt, args, i, j);
    ghost var rest2 := ExpandFrom(fmt, args, i2, j2).value;
    Extended(b1, a[..], w0, w, x);
    PassStep(b1[w0..w], x, rest, rest2, out);
  }

  /** Writing x at w, and at most a terminator after it, extends what
      was written from w0 on by x. */
  lemma Extended(b1: seq<byte>, b2: seq<byte>, w0: nat, w: nat, x: seq<byte>)
    requires w0 <= w && w + |x| < |b1| == |b2| && b2[w..w + |x|] == x
    requires forall k {:trigger b2[k]} :: 0 <= k < |b2| && !(w <= k <= w + |x|) ==> b2[k] == b1[k]
    ensures b2[w0..w + |x|] == b1[w0..w] + x
  {
    assert b2[w0..w] == b1[w0..w];
    assert b2[w0..w + |x|] == b2[w0..w] + b2[w..w + |x|];
  }

  /** One step of the write pass keeps the written bytes followed by
      the expansion still to write equal to the whole expansion. */
  lemma PassStep(done: seq<byte>, x: seq<byte>, rest: seq<byte>, rest2: seq<byte>, out: seq<byte>)
    requires done + rest == out && rest == x + rest2
    ensures (done + x) + rest2 == out
  {
    assert done + (x + rest2) == (done + x) + rest2;
  }

  /** slvpq: the content followed by the expansion of the C string at
      fmt (both passes stop at its first zero byte); the reservation
      grows to exactly what the measure pass asks for when it is
      smaller. Every argument must be one the directive that
      takes it can read (ReadAs). */
  method Vpq(ss: Sl, fmt: seq<byte>, args: seq<Arg>)
    requires ss.Valid() && Expand(CStr(fmt), args).Some?
    modifies ss, ss.buf
    ensures ss.Valid() && ss.Content() == old(ss.Content()) + Expand(CStr(fmt), args).value
    ensures ss.buf.Length == Max(old(ss.buf.Length), old(ss.len) + 1 + |Expand(CStr(fmt), args).value|)
    ensures ss.buf == old(ss.buf) || fresh(ss.buf)
  {
    ghost var was := ss.Content();
    var text := fmt[..StrLen(fmt)];
    assert text == CStr(fmt);
    ghost var x := Expand(text, args).value;
    var size := MeasurePass(text, args);
    ss.Reserve(ss.len + 1 + size);
    var w := ss.len;
    ghost var b0 := ss.buf[..];
    assert b0[..w] == was;
    WritePass(ss.buf, w, text, args);
    ghost var b1 := ss.buf[..];
    assert b1 == b0[..w] + x + [0] + b0[w + |x| + 1..];
    ss.len := ss.len + size;
    Appended(b0, b1, was, x);
  }

  lemma Appended(b0: seq<byte>, b1: seq<byte>, was: seq<byte>, x: seq<byte>)
    requires |was| + |x| < |b0| && b0[..|was|] == was
    requires b1 == b0[..|was|] + x + [0] + b0[|was| + |x| + 1..]
    ensures b1[..|was| + |x|] == was + x && b1[|was| + |x|] == 0
  {
    assert b1[..|was| + |x|] == b0[..|was|] + x;
  }

  /** "%s=%i%%" with "x" and -5 expands to "x=-5%". */
  lemma ExpandExample()
    ensures Expand([PERCENT, DIR_STR, 0x3D, PERCENT, DIR_INT, PERCENT, PERCENT], [Str([0x78]), Int(-5)])
         == Some([0x78, 0x3D, 0x2D, 0x35, PERCENT])
  {
    var fmt := [PERCENT, DIR_STR, 0x3D, PERCENT, DIR_INT, PERCENT, PERCENT];
    var args := [Str([0x78]), Int(-5)];
    assert I64Text(-5) == [0x2D, 0x35];
    assert CStr([0x78]) == [0x78];
    assert !TakesArg(PERCENT);
    ExpandUnfold(fmt, args, 5, 2, [PERCENT], 7, 2, [], [PERCENT]);
    ExpandUnfold(fmt, args, 3, 1, [0x2D, 0x35], 5, 2, [PERCENT], [0x2D, 0x35, PERCENT]);
    ExpandUnfold(fmt, args, 2, 1, [0x3D], 3, 1, [0x2D, 0x35, PERCENT], [0x3D, 0x2D, 0x35, PERCENT]);
    ExpandUnfold(fmt, args, 0, 0, [0x78], 2, 1, [0x3D, 0x2D, 0x35, PERCENT], [0x78, 0x3D, 0x2D, 0x35, PERCENT]);
  }

  /** "a\0b": slvpq stops at the zero byte and appends only "a". */
  lemma ExpandStopsAtZero()
    ensures Expand(CStr([0x61, 0, 0x62]), []) == Some([0x61])
  {
    var text: seq<byte> := [0x61];
    assert CStr([0x61, 0, 0x62]) == text;
    ExpandUnfold(text, [], 0, 0, [0x61], 1, 0, [], [0x61]);
  }

  // ----- the measure pass as written

  /** The measure pass as the source writes it: %c counts one byte but
      does not take its argument, so every later argument is read one
      place early, as ReadAs says; a directive it does not know counts
      nothing; and a '%' at the end of the format steps over the
      terminator and reads on past the end of the format (None, like an
      undefined read). */
  function MeasureAsWrittenFrom(fmt: seq<byte>, args: seq<Arg>, i: nat, j: nat): (r: Option<nat>)
    requires i <= |fmt|
    decreases |fmt| - i
  {
    if i == |fmt| then Some(0)
    else if fmt[i] != PERCENT then Plus(1, MeasureAsWrittenFrom(fmt, args, i + 1, j))
    else if i + 1 == |fmt| then None
    else
      var dir := fmt[i + 1];
      if dir == DIR_CHAR || dir == PERCENT then Plus(1, MeasureAsWrittenFrom(fmt, args, i + 2, j))
      else if !TakesArg(dir) then MeasureAsWrittenFrom(fmt, args, i + 2, j)
      else if j < |args| && ReadAs(dir, args[j]).Some? then
        Plus(|ArgText(dir, ReadAs(dir, args[j]).value)|, MeasureAsWrittenFrom(fmt, args, i + 2, j + 1))
      else None
  }

  function Plus(n: nat, r: Option<nat>): Option<nat>
  {
    if r.None? then None else Some(n + r.value)
  }

  /** The measure pass as written over the whole format. Where it gets
      the size right is stated by MeasureAsWrittenOnPlain; the three
      lemmas after it show where it does not. */
  function MeasureAsWritten(fmt: seq<byte>, args: seq<Arg>): (r: Option<nat>)
    ensures PlainFrom(fmt, 0) && Expand(fmt, args).Some? ==> r == Some(|Expand(fmt, args).value|)
  {
    if PlainFrom(fmt, 0) && Expand(fmt, args).Some? then
      MeasureAsWrittenOnPlain(fmt, args, 0, 0);
      MeasureAsWrittenFrom(fmt, args, 0, 0)
    else
      MeasureAsWrittenFrom(fmt, args, 0, 0)
  }

  /** The formats on which the two passes as written agree: every '%'
      is followed by a directive the measure pass knows, other than %c. */
  predicate PlainFrom(fmt: seq<byte>, i: nat)
    requires i <= |fmt|
    decreases |fmt| - i
  {
    if i == |fmt| then true
    else if fmt[i] != PERCENT then PlainFrom(fmt, i + 1)
    else i + 1 < |fmt| && (fmt[i + 1] == PERCENT || (TakesArg(fmt[i + 1]) && fmt[i + 1] != DIR_CHAR))
         && PlainFrom(fmt, i + 2)
  }

  /** On such formats the measure pass as written measures exactly what
      the write pass writes. */
  lemma {:induction false} MeasureAsWrittenOnPlain(fmt: seq<byte>, args: seq<Arg>, i: nat, j: nat)
    requires i <= |fmt| && PlainFrom(fmt, i) && ExpandFrom(fmt, args, i, j).Some?
    decreases |fmt| - i
    ensures MeasureAsWrittenFrom(fmt, args, i, j) == Some(|ExpandFrom(fmt, args, i, j).value|)
  {
    if i < |fmt| {
      ExpandStep(fmt, args, i, j);
      var r := Step(fmt, args, i, j).value;
      MeasureAsWrittenOnPlain(fmt, args, r.1, r.2);
    }
  }

  /** "%c%s": the measure pass reads the character where %s reads its
      string pointer, while the write pass writes both. */
  lemma MeasureSkipsCharArg()
    ensures MeasureAsWritten([PERCENT, DIR_CHAR, PERCENT, DIR_STR], [Char(0x41), Str([0x42])]) == None
    ensures Expand([PERCENT, DIR_CHAR, PERCENT, DIR_STR], [Char(0x41), Str([0x42])]) == Some([0x41, 0x42])
  {
    var fmt := [PERCENT, DIR_CHAR, PERCENT, DIR_STR];
    var args := [Char(0x41), Str([0x42])];
    assert !Fits(DIR_STR, args[0]);
    assert MeasureAsWrittenFrom(fmt, args, 2, 0) == None;
    assert CStr([0x42]) == [0x42];
    ExpandUnfold(fmt, args, 2, 1, [0x42], 4, 2, [], [0x42]);
    assert ArgText(DIR_CHAR, args[0]) == [0x41];
    ExpandUnfold(fmt, args, 0, 0, [0x41], 2, 1, [0x42], [0x41, 0x42]);
  }

  /** "%c%i" with 'A' and 5: the measure pass reads 'A' as the int 65
      for %i, a defined read, and counts 1 + 2 bytes, while the write
      pass writes "A5". The length grows by 3 and the terminator lands
      at the second new byte, so content[len] is not the terminator. */
  lemma MeasureOvercountsAfterChar()
    ensures MeasureAsWritten([PERCENT, DIR_CHAR, PERCENT, DIR_INT], [Char(0x41), Int(5)]) == Some(3)
    ensures Expand([PERCENT, DIR_CHAR, PERCENT, DIR_INT], [Char(0x41), Int(5)]) == Some([0x41, 0x35])
  {
    var fmt := [PERCENT, DIR_CHAR, PERCENT, DIR_INT];
    var args := [Char(0x41), Int(5)];
    assert ReadAs(DIR_INT, args[0]) == Some(Int(0x41));
    assert U64Text(6) == [DigitByte(6)];
    assert |I64Text(0x41)| == 2 by {
      assert U64Text(0x41) == U64Text(6) + [DigitByte(5)];
    }
    assert MeasureAsWrittenFrom(fmt, args, 4, 1) == Some(0);
    assert MeasureAsWrittenFrom(fmt, args, 2, 0) == Some(2);
    assert I64Text(5) == [DigitByte(5)] == [0x35];
    ExpandUnfold(fmt, args, 2, 1, [0x35], 4, 2, [], [0x35]);
    assert ArgText(DIR_CHAR, args[0]) == [0x41];
    ExpandUnfold(fmt, args, 0, 0, [0x41], 2, 1, [0x35], [0x41, 0x35]);
  }

  /** "%d": the measure pass counts nothing, the write pass writes 'd',
      one byte past the reservation it sized. */
  lemma MeasureMissesUnknown()
    ensures MeasureAsWritten([PERCENT, 0x64], []) == Some(0)
    ensures Expand([PERCENT, 0x64], []) == Some([0x64])
  {
    var fmt: seq<byte> := [PERCENT, 0x64];
    assert !TakesArg(fmt[1]) && fmt[1] != DIR_CHAR && fmt[1] != PERCENT;
    assert MeasureAsWrittenFrom(fmt, [], 2, 0) == Some(0);
    ExpandUnfold(fmt, [], 0, 0, [0x64], 2, 0, [], [0x64]);
  }

  /** "a%": the measure pass runs past the end of the format, the
      corrected expansion stops there. */
  lemma MeasureRunsOff()
    ensures MeasureAsWritten([0x61, PERCENT], []) == None
    ensures Expand([0x61, PERCENT], []) == Some([0x61])
  {
    var fmt: seq<byte> := [0x61, PERCENT];
    assert fmt[0] != PERCENT && fmt[1] == PERCENT;
    assert MeasureAsWrittenFrom(fmt, [], 1, 0) == None;
    ExpandUnfold(fmt, [], 1, 0, [], 2, 0, [], []);
    ExpandUnfold(fmt, [], 0, 0, [0x61], 1, 0, [], [0x61]);
  }
}
