/** int2str and vsnprintf (stdio.c), and atoi (stdlib.c). */
module Format {
  type Byte = b: int | 0 <= b < 256

  const ZERO: Byte := 48
  const MINUS: Byte := 45
  const SPACE: Byte := 32
  const PERCENT: Byte := 37
  const LOWER_S: Byte := 115
  const LOWER_D: Byte := 100
  const LOWER_C: Byte := 99

  const INT_MIN := -0x8000_0000

  predicate IsInt(v: int) { -0x8000_0000 <= v < 0x8000_0000 }

  /** A string without its terminating NUL. */
  predicate IsText(s: seq<Byte>) { forall k :: 0 <= k < |s| ==> s[k] != 0 }

  // ---- decimal numbers ----

  function Digits(v: nat): (s: seq<Byte>)
    ensures |s| > 0 && forall k :: 0 <= k < |s| ==> ZERO <= s[k] <= ZERO + 9
  {
    if v < 10 then [ZERO + v] else Digits(v / 10) + [ZERO + v % 10]
  }

  function Decimal(v: int): seq<Byte> {
    if v < 0 then [MINUS] + Digits(-v) else Digits(v)
  }

  /** The value of a run of digits. */
  function Value(s: seq<Byte>): int {
    if s == [] then 0 else Value(s[..|s| - 1]) * 10 + s[|s| - 1] - ZERO
  }

  lemma {:induction false} ValueOfDigits(v: nat)
    ensures Value(Digits(v)) == v && (v > 0 ==> Digits(v)[0] != ZERO)
  {
    if v >= 10 {
      ValueOfDigits(v / 10);
      assert Digits(v)[..|Digits(v)| - 1] == Digits(v / 10);
    }
  }

  /** Digits with or without a leading minus sign. */
  function SignedValue(s: seq<Byte>): int {
    if s != [] && s[0] == MINUS then -Value(s[1..]) else Value(s)
  }

  /** The decimal form reads back as the number; it starts with a minus sign
      exactly for negative numbers, and has no leading zero. */
  lemma SignedInverts(v: int)
    ensures SignedValue(Decimal(v)) == v
    ensures |Decimal(v)| > 0 && (Decimal(v)[0] == MINUS <==> v < 0)
    ensures Decimal(v)[0] == ZERO ==> v == 0
  {
    hide Digits, Value;
    ValueOfDigits(if v < 0 then -v else v);
    if v < 0 {
      assert Decimal(v)[1..] == Digits(-v);
    }
  }

  function Min(a: nat, b: nat): nat { if a < b then a else b }

  /** The bound that makes a 16-byte buffer large enough for ten digits. */
  lemma {:induction false} DigitsLength(v: nat, n: nat, p: nat)
    requires n > 0 && v < p && p == Ten(n)
    ensures |Digits(v)| <= n
    decreases n
  {
    if v >= 10 {
      TenSmall(n);
      DigitsLength(v / 10, n - 1, Ten(n - 1));
    }
  }

  lemma TenSmall(n: nat)
    requires n > 0 && Ten(n) > 10
    ensures n > 1 && Ten(n) == 10 * Ten(n - 1)
  {
  }

  function Ten(n: nat): nat { if n == 0 then 1 else 10 * Ten(n - 1) }

  lemma TenTen()
    ensures Ten(10) == 10_000_000_000
  {
    assert Ten(5) == 100_000;
    assert Ten(7) == 10_000_000;
    assert Ten(9) == 1_000_000_000;
  }

  lemma DigitsStep(v: nat)
    requires v >= 10
    ensures Digits(v) == Digits(v / 10) + [ZERO + v % 10]
  {
  }

  lemma DigitsShort(v: nat)
    requires v < 10
    ensures Digits(v) == [ZERO + v]
  {
  }

  lemma IntMinDecimal()
    ensures Decimal(INT_MIN) == [MINUS, 50, 49, 52, 55, 52, 56, 51, 54, 52, 56]
  {
    hide Digits;
    DigitsShort(2);
    DigitsStep(21);
    DigitsStep(214);
    DigitsStep(2147);
    DigitsStep(21474);
    DigitsStep(214748);
    DigitsStep(2147483);
    DigitsStep(21474836);
    DigitsStep(214748364);
    DigitsStep(2147483648);
    assert Digits(21474) == [50, 49, 52, 55, 52];
  }

  // ---- int2str ----

  /** Only [lo, hi) of the array changed. */
  twostate predicate Changed(out: array<Byte>, lo: int, hi: int)
    reads out
  {
    forall k :: 0 <= k < out.Length && !(lo <= k < hi) ==> out[k] == old(out[k])
  }

  /** stpncpy: copies up to n bytes, or one more than the string, its NUL. */
  method Stpncpy(out: array<Byte>, at: nat, src: seq<Byte>, n: nat) returns (end: nat)
    requires IsText(src) && at + Min(n, |src| + 1) <= out.Length
    modifies out
    ensures end == at + Min(n, |src|) && out[at..end] == src[..end - at]
    ensures Changed(out, at, at + Min(n, |src| + 1))
  {
    var k, left := 0, n;
    end := at;
    while left != 0
      invariant 0 <= k <= |src| && left == n - k >= 0 && end == at + k <= out.Length
      invariant out[at..end] == src[..k]
      invariant Changed(out, at, at + k)
      decreases left
    {
      if k == |src| {
        out[end] := 0;
        return;
      }
      out[end] := src[k];
      assert src[..k + 1] == src[..k] + [src[k]];
      k := k + 1;
      end := end + 1;
      left := left - 1;
    }
  }

  /** int2str writes the first n characters of the decimal form, or all. */
  method Int2Str(out: array<Byte>, at: nat, v: int, n: nat) returns (len: nat)
    requires IsInt(v) && at + Min(n, |Decimal(v)| + 1) <= out.Length
    modifies out
    ensures len == Min(n, |Decimal(v)|) && out[at..at + len] == Decimal(v)[..len]
    ensures Changed(out, at, at + Min(n, |Decimal(v)| + 1))
  {
    hide Digits, Decimal;
    if n == 0 {
      return 0;
    }
    if v == 0 {
      DecimalParts(v);
      DigitsShort(0);
      out[at] := ZERO;
      return 1;
    }
    if v == INT_MIN {
      IntMinDecimal();
      var text: seq<Byte> := [MINUS, 50, 49, 52, 55, 52, 56, 51, 54, 52, 56];
      var end := Stpncpy(out, at, text, n);
      return end - at;
    }
    len := PutDigits(out, at, v, n);
  }

  lemma DecimalParts(v: int)
    ensures Decimal(v) == if v < 0 then [MINUS] + Digits(-v) else Digits(v)
  {
  }

  /** The general case: a sign, and the digits from the last one of buf down. */
  method PutDigits(out: array<Byte>, at: nat, v: int, n: nat) returns (len: nat)
    requires IsInt(v) && v != 0 && v != INT_MIN && n > 0 && at + Min(n, |Decimal(v)|) <= out.Length
    modifies out
    ensures len == Min(n, |Decimal(v)|) && out[at..at + len] == Decimal(v)[..len]
    ensures Changed(out, at, at + len)
  {
    hide Decimal, Digits, IsInt, Min;
    MinIs(n, |Decimal(v)|);
    DecimalParts(v);
    IntRange(v);
    var buf, idx := FillDigits(if v < 0 then -v else v);
    var p, left := at, n;
    ghost var dec, size := Decimal(v), idx;
    assert forall k :: 0 <= k < size ==> buf[k] == dec[|dec| - 1 - k];
    if v < 0 {
      out[p] := MINUS;
      left := left - 1;
      p := p + 1;
    }
    len := CopyDown(out, at, p, buf, idx - 1, left, dec);
  }

  /** The loop that copies the digits, from the highest down, while room is left. */
  method CopyDown(out: array<Byte>, at: nat, from: nat, buf: array<Byte>, last: int, room: int, ghost dec: seq<Byte>)
    returns (len: nat)
    requires out != buf && -1 <= last < buf.Length && last < |dec| && room >= 0 && at <= from
    requires forall k :: 0 <= k <= last ==> buf[k] == dec[|dec| - 1 - k]
    requires from - at == |dec| - 1 - last &&
      at + (if |dec| < from - at + room then |dec| else from - at + room) <= out.Length
    requires forall k :: at <= k < from ==> out[k] == dec[k - at]
    modifies out
    ensures len == if |dec| < from - at + room then |dec| else from - at + room
    ensures at + len <= out.Length && out[at..at + len] == dec[..len]
    ensures Changed(out, from, at + len)
  {
    var p, idx, left := from, last, room;
    while idx >= 0 && left > 0
      invariant -1 <= idx <= last && left >= 0
      invariant p - at == |dec| - 1 - idx && p - from == room - left && p <= out.Length
      invariant forall k :: at <= k < p ==> out[k] == dec[k - at]
      invariant Changed(out, from, p)
      decreases idx + 1
    {
      out[p] := buf[idx];
      p := p + 1;
      idx := idx - 1;
      left := left - 1;
    }
    len := p - at;
    assert forall k :: 0 <= k < len ==> out[at..p][k] == dec[..len][k];
    assert out[at..p] == dec[..len];
  }

  lemma MinIs(a: nat, b: nat)
    ensures Min(a, b) == if a < b then a else b
  {
  }

  lemma IntRange(v: int)
    requires IsInt(v)
    ensures -0x8000_0000 <= v < 0x8000_0000
  {
  }

  /** The digit loop fills buf from the lowest digit up. */
  method FillDigits(v: nat) returns (buf: array<Byte>, idx: int)
    requires 0 < v < 0x8000_0000
    ensures fresh(buf) && buf.Length == 16 && idx == |Digits(v)| <= 10
    ensures forall k :: 0 <= k < idx ==> buf[k] == Digits(v)[idx - 1 - k]
  {
    hide Digits, DigitsOrNone;
    buf := new Byte[16](i => 0);
    idx := 0;
    var tmp := v;
    TenTen();
    DigitsLength(v, 10, Ten(10));
    NoneYet(v);
    ghost var all := Digits(v);
    while tmp != 0
      invariant 0 <= idx <= |all| <= 10 && tmp >= 0
      invariant all[..|all| - idx] == DigitsOrNone(tmp)
      invariant forall k :: 0 <= k < idx ==> buf[k] == all[|all| - 1 - k]
    {
      NextDigit(tmp, all, |all| - idx);
      buf[idx] := tmp % 10 + ZERO;
      idx := idx + 1;
      tmp := tmp / 10;
    }
    NoneLeft(all, |all| - idx);
  }

  function DigitsOrNone(v: nat): seq<Byte> { if v == 0 then [] else Digits(v) }

  lemma NoneYet(v: nat)
    requires v > 0
    ensures Digits(v)[..|Digits(v)|] == DigitsOrNone(v)
  {
  }

  lemma NoneLeft(all: seq<Byte>, n: nat)
    requires n <= |all| && all[..n] == DigitsOrNone(0)
    ensures n == 0
  {
    assert |all[..n]| == n;
  }

  lemma NextDigit(v: nat, all: seq<Byte>, n: nat)
    requires v > 0 && n <= |all| && all[..n] == DigitsOrNone(v)
    ensures n > 0 && all[n - 1] == v % 10 + ZERO && all[..n - 1] == DigitsOrNone(v / 10)
  {
    assert DigitsOrNone(v) == DigitsOrNone(v / 10) + [ZERO + v % 10];
    assert |all[..n]| == n && all[..n][n - 1] == all[n - 1] && all[..n][..n - 1] == all[..n - 1];
  }

  // ---- vsnprintf ----

  datatype Arg = Str(s: seq<Byte>) | Int(v: int)

  /** The output without a limit. */
  function Expand(fmt: seq<Byte>, args: seq<Arg>): seq<Byte>
    requires Fits(fmt, args)
    decreases |fmt|
  {
    if fmt == [] then []
    else if fmt[0] != PERCENT then [fmt[0]] + Expand(fmt[1..], args)
    else if fmt[1] == PERCENT then [PERCENT] + Expand(fmt[2..], args)
    else if fmt[1] == LOWER_S then args[0].s + Expand(fmt[2..], args[1..])
    else if fmt[1] == LOWER_D then Decimal(args[0].v) + Expand(fmt[2..], args[1..])
    else if fmt[1] == LOWER_C then [args[0].v % 0x100] + Expand(fmt[2..], args[1..])
    else Expand(fmt[2..], args)
  }

  /** No lone % ends the format, and every conversion has its argument. */
  predicate Fits(fmt: seq<Byte>, args: seq<Arg>)
    decreases |fmt|
  {
    if fmt == [] then true
    else if fmt[0] == 0 then false
    else if fmt[0] != PERCENT then Fits(fmt[1..], args)
    else if |fmt| == 1 || fmt[1] == 0 then false
    else if fmt[1] == LOWER_S then |args| > 0 && args[0].Str? && IsText(args[0].s) && Fits(fmt[2..], args[1..])
    else if fmt[1] == LOWER_D || fmt[1] == LOWER_C then |args| > 0 && args[0].Int? && IsInt(args[0].v) &&
      Fits(fmt[2..], args[1..])
    else Fits(fmt[2..], args)
  }

  /** Copying a %s argument until it or the room ends. */
  method CopyText(out: array<Byte>, count0: nat, n: nat, p: seq<Byte>) returns (count: nat)
    requires IsText(p) && count0 < n && Min(n - 1, count0 + |p|) <= out.Length
    modifies out
    ensures count == Min(n - 1, count0 + |p|) && out[..count] == old(out[..count0]) + p[..count - count0]
    ensures Changed(out, count0, count)
  {
    count := count0;
    var k := 0;
    assert out[..count] == old(out[..count0]) + p[..0];
    while count < n - 1 && k < |p|
      invariant 0 <= k <= |p| && count == count0 + k <= n - 1
      invariant out[..count] == old(out[..count0]) + p[..k]
      invariant Changed(out, count0, count)
    {
      out[count] := p[k];
      assert out[..count + 1] == out[..count] + [p[k]];
      assert p[..k + 1] == p[..k] + [p[k]];
      count := count + 1;
      k := k + 1;
    }
  }

  /** What has been written, and what is left to expand. */
  predicate Progress(done: seq<Byte>, n: nat, all: seq<Byte>, rest: seq<Byte>)
    requires n >= 1
  {
    done + rest == all || (|done| == n - 1 && done <= all)
  }

  lemma ProgressText(done: seq<Byte>, n: nat, all: seq<Byte>, text: seq<Byte>, rest: seq<Byte>, len: nat)
    requires n >= 1 && |done| < n - 1 && Progress(done, n, all, text + rest) && len == Min(n - 1 - |done|, |text|)
    ensures Progress(done + text[..len], n, all, rest) && text[..len] == (if len == |text| then text else text[..len])
    ensures |done| + |text| <= |all|
  {
    assert done + (text + rest) == done + text + rest;
    if len == |text| {
      assert text[..len] == text;
    } else {
      assert done + text[..len] == all[..n - 1];
    }
  }

  predicate Takes(conversion: Byte, arg: Arg) {
    if conversion == LOWER_S then arg.Str? && IsText(arg.s) else arg.Int? && IsInt(arg.v)
  }

  function Part(conversion: Byte, arg: Arg): seq<Byte>
    requires Takes(conversion, arg)
  {
    if conversion == LOWER_S then arg.s else if conversion == LOWER_D then Decimal(arg.v) else [arg.v % 0x100]
  }

  /** What the next conversion contributes. */
  lemma NextPart(fmt: seq<Byte>, args: seq<Arg>, f: nat, a: nat)
    requires f < |fmt| && a <= |args| && Fits(fmt[f..], args[a..])
    ensures fmt[f] != PERCENT ==> Fits(fmt[f + 1..], args[a..])
    ensures fmt[f] != PERCENT ==> Expand(fmt[f..], args[a..]) == [fmt[f]] + Expand(fmt[f + 1..], args[a..])
    ensures fmt[f] == PERCENT ==> f + 1 < |fmt|
    ensures fmt[f] == PERCENT && fmt[f + 1] !in {LOWER_S, LOWER_D, LOWER_C} ==> Fits(fmt[f + 2..], args[a..])
    ensures fmt[f] == PERCENT && fmt[f + 1] in {LOWER_S, LOWER_D, LOWER_C} ==>
      a < |args| && Fits(fmt[f + 2..], args[a + 1..]) && Takes(fmt[f + 1], args[a])
    ensures fmt[f] == PERCENT && fmt[f + 1] in {LOWER_S, LOWER_D, LOWER_C} ==>
      Expand(fmt[f..], args[a..]) == Part(fmt[f + 1], args[a]) + Expand(fmt[f + 2..], args[a + 1..])
    ensures fmt[f] == PERCENT && fmt[f + 1] == PERCENT ==>
      Expand(fmt[f..], args[a..]) == [PERCENT] + Expand(fmt[f + 2..], args[a..])
    ensures fmt[f] == PERCENT && fmt[f + 1] !in {LOWER_S, LOWER_D, LOWER_C, PERCENT} ==>
      Expand(fmt[f..], args[a..]) == Expand(fmt[f + 2..], args[a..])
  {
    hide Decimal;
    var g, b := fmt[f..], args[a..];
    assert g[0] == fmt[f] && g[1..] == fmt[f + 1..];
    if |g| > 1 {
      assert g[1] == fmt[f + 1] && g[2..] == fmt[f + 2..];
    }
    if |b| > 0 {
      assert b[0] == args[a] && b[1..] == args[a + 1..];
    }
  }

  /** How many arguments a format uses. */
  function Conversions(fmt: seq<Byte>): nat
    decreases |fmt|
  {
    if fmt == [] then 0
    else if fmt[0] != PERCENT || |fmt| == 1 then Conversions(fmt[1..])
    else (if fmt[1] in {LOWER_S, LOWER_D, LOWER_C} then 1 else 0) + Conversions(fmt[2..])
  }

  lemma {:induction false} FitsConcat(fmt: seq<Byte>, args: seq<Arg>, fmt': seq<Byte>, args': seq<Arg>)
    requires Fits(fmt, args) && Fits(fmt', args') && |args| == Conversions(fmt)
    ensures Fits(fmt + fmt', args + args')
    decreases |fmt|
  {
    var f, a := fmt + fmt', args + args';
    if fmt == [] {
      assert f == fmt' && a == args';
    } else if fmt[0] != PERCENT {
      assert f[1..] == fmt[1..] + fmt';
      FitsConcat(fmt[1..], args, fmt', args');
    } else {
      assert f[2..] == fmt[2..] + fmt';
      var rest := if fmt[1] in {LOWER_S, LOWER_D, LOWER_C} then args[1..] else args;
      assert fmt[1] in {LOWER_S, LOWER_D, LOWER_C} ==> a[1..] == rest + args';
      FitsConcat(fmt[2..], rest, fmt', args');
    }
  }

  /** The number of bytes of the next part of a format, what it contributes, and
      the arguments after it. */
  lemma FirstPart(fmt: seq<Byte>, args: seq<Arg>) returns (n: nat, text: seq<Byte>, rest: seq<Arg>)
    requires Fits(fmt, args) && fmt != []
    ensures n == (if fmt[0] == PERCENT then 2 else 1) <= |fmt| && Fits(fmt[n..], rest)
    ensures n == 2 && fmt[1] in {LOWER_S, LOWER_D, LOWER_C} ==>
      |args| > 0 && rest == args[1..] && Takes(fmt[1], args[0]) && text == Part(fmt[1], args[0])
    ensures !(n == 2 && fmt[1] in {LOWER_S, LOWER_D, LOWER_C}) ==>
      rest == args && text == if n == 2 && fmt[1] != PERCENT then [] else [fmt[0]]
    ensures Expand(fmt, args) == text + Expand(fmt[n..], rest)
  {
    hide Expand, Fits, Part, Takes;
    assert fmt[0..] == fmt && args[0..] == args;
    NextPart(fmt, args, 0, 0);
    n := if fmt[0] == PERCENT then 2 else 1;
    if n == 2 && fmt[1] in {LOWER_S, LOWER_D, LOWER_C} {
      text, rest := Part(fmt[1], args[0]), args[1..];
    } else {
      text, rest := if n == 2 && fmt[1] != PERCENT then [] else [fmt[0]], args;
    }
  }

  /** Two formats in a row expand to their expansions in a row. */
  lemma {:induction false} ExpandConcat(fmt: seq<Byte>, args: seq<Arg>, fmt': seq<Byte>, args': seq<Arg>)
    requires Fits(fmt, args) && Fits(fmt', args') && |args| == Conversions(fmt)
    ensures Fits(fmt + fmt', args + args')
    ensures Expand(fmt + fmt', args + args') == Expand(fmt, args) + Expand(fmt', args')
    decreases |fmt|
  {
    hide Expand, Fits, Part, Takes;
    var f, a := fmt + fmt', args + args';
    FitsConcat(fmt, args, fmt', args');
    if fmt == [] {
      assert f == fmt' && a == args';
      ExpandNone(args);
    } else {
      var n, text, rest := FirstPart(fmt, args);
      var n', text', rest' := FirstPart(f, a);
      assert f[n..] == fmt[n..] + fmt' && rest' == rest + args';
      ExpandConcat(fmt[n..], rest, fmt', args');
    }
  }

  /** Text without % stands for itself. */
  lemma {:induction false} ExpandText(text: seq<Byte>)
    requires IsText(text) && PERCENT !in text
    ensures Fits(text, []) && Conversions(text) == 0 && Expand(text, []) == text
  {
    if text != [] {
      assert IsText(text[1..]);
      ExpandText(text[1..]);
    }
  }

  /** A conversion alone: the argument's bytes, the number that reads back as the
      argument, or the one byte that agrees with it modulo 256; and %% is %. */
  lemma ExpandOne(s: seq<Byte>, v: int)
    requires IsText(s) && IsInt(v)
    ensures Fits([PERCENT, LOWER_S], [Str(s)]) && Expand([PERCENT, LOWER_S], [Str(s)]) == s
    ensures Fits([PERCENT, LOWER_D], [Int(v)]) && SignedValue(Expand([PERCENT, LOWER_D], [Int(v)])) == v
    ensures Fits([PERCENT, LOWER_C], [Int(v)]) && |Expand([PERCENT, LOWER_C], [Int(v)])| == 1
    ensures (v - Expand([PERCENT, LOWER_C], [Int(v)])[0]) % 0x100 == 0
    ensures Fits([PERCENT, PERCENT], []) && Expand([PERCENT, PERCENT], []) == [PERCENT]
  {
    hide Decimal, SignedValue;
    SignedInverts(v);
    var s2, d2, c2, p2 := [PERCENT, LOWER_S], [PERCENT, LOWER_D], [PERCENT, LOWER_C], [PERCENT, PERCENT];
    assert s2[2..] == d2[2..] == c2[2..] == p2[2..] == [];
    assert Expand(s2, [Str(s)]) == s + [];
    assert Expand(d2, [Int(v)]) == Decimal(v) + [] == Decimal(v);
    var b: Byte := v % 0x100;
    assert Expand(c2, [Int(v)]) == [b] + [];
    assert v - b == 0x100 * (v / 0x100);
    assert Expand(p2, []) == [PERCENT] + [];
  }

  method Emit(out: array<Byte>, count: nat, b: Byte)
    requires count < out.Length
    modifies out
    ensures out[..count + 1] == old(out[..count]) + [b] && Changed(out, count, count + 1)
  {
    out[count] := b;
  }

  lemma NoMore(done: seq<Byte>, n: nat, all: seq<Byte>, rest: seq<Byte>)
    requires n >= 1 && |done| <= n - 1 && Progress(done, n, all, rest) && (|done| == n - 1 || rest == [])
    ensures done == all[..|done|] && |done| <= |all| && |done| == Min(n - 1, |all|)
  {
    if done + rest == all {
      assert all[..|done|] == done;
    }
  }

  /** One of the conversions %s, %d and %c. */
  method Convert(out: array<Byte>, count0: nat, n: nat, conversion: Byte, arg: Arg,
    ghost limit: nat) returns (count: nat)
    requires conversion in {LOWER_S, LOWER_D, LOWER_C} && Takes(conversion, arg) && count0 < n - 1
    requires limit <= out.Length && count0 + Min(n - count0, |Part(conversion, arg)| + 1) <= limit
    modifies out
    ensures var text := Part(conversion, arg); var len := Min(n - 1 - count0, |text|);
      count == count0 + len && out[..count] == old(out[..count0]) + text[..len]
    ensures Changed(out, count0, limit)
  {
    hide Decimal;
    if conversion == LOWER_S {
      count := CopyText(out, count0, n, arg.s);
    } else if conversion == LOWER_D {
      count := EmitNumber(out, count0, n, arg.v, limit);
    } else {
      Emit(out, count0, arg.v % 0x100);
      count := count0 + 1;
    }
  }

  /** vsnprintf for n >= 1: exactly the first n - 1 bytes of the expansion, or
      all of it, then a NUL; nothing else is written, and the count returned. */
  method Vsnprintf(out: array<Byte>, n: nat, fmt: seq<Byte>, args: seq<Arg>) returns (count: nat)
    requires n >= 1 && Fits(fmt, args) && Min(n, |Expand(fmt, args)| + 1) <= out.Length
    modifies out
    ensures count == Min(n - 1, |Expand(fmt, args)|)
    ensures count < out.Length && out[..count] == Expand(fmt, args)[..count] && out[count] == 0
    ensures Changed(out, 0, Min(n, |Expand(fmt, args)| + 1))
  {
    hide Decimal, Expand, Fits, Progress, Part, Takes;
    ghost var all := Expand(fmt, args);
    ghost var limit := Min(n, |all| + 1);
    count := 0;
    var f, a := 0, 0;
    assert fmt[f..] == fmt && args[a..] == args && out[..count] == [];
    ProgressStart(n, all);
    while count < n - 1 && f < |fmt|
      invariant 0 <= f <= |fmt| && 0 <= a <= |args| && count <= n - 1 && count < limit
      invariant Fits(fmt[f..], args[a..])
      invariant Progress(out[..count], n, all, Expand(fmt[f..], args[a..]))
      invariant Changed(out, 0, limit)
      decreases |fmt| - f
    {
      ghost var done := out[..count];
      NextPart(fmt, args, f, a);
      if fmt[f] == PERCENT {
        if fmt[f + 1] == PERCENT {
          ProgressText(done, n, all, [PERCENT], Expand(fmt[f + 2..], args[a..]), 1);
          Emit(out, count, PERCENT);
          count := count + 1;
        } else if fmt[f + 1] in {LOWER_S, LOWER_D, LOWER_C} {
          ghost var text := Part(fmt[f + 1], args[a]);
          ProgressText(done, n, all, text, Expand(fmt[f + 2..], args[a + 1..]), Min(n - 1 - count, |text|));
          count := Convert(out, count, n, fmt[f + 1], args[a], limit);
          a := a + 1;
        }
        f := f + 2;
      } else {
        ProgressText(done, n, all, [fmt[f]], Expand(fmt[f + 1..], args[a..]), 1);
        Emit(out, count, fmt[f]);
        count := count + 1;
        f := f + 1;
      }
    }
    ghost var done := out[..count];
    ExpandNone(args[a..]);
    assert f == |fmt| ==> fmt[f..] == [];
    NoMore(done, n, all, Expand(fmt[f..], args[a..]));
    out[count] := 0;
    assert out[..count] == done;
  }

  lemma ProgressStart(n: nat, all: seq<Byte>)
    requires n >= 1
    ensures Progress([], n, all, all)
  {
    assert [] + all == all;
  }

  lemma ExpandNone(args: seq<Arg>)
    ensures Fits([], args) && Expand([], args) == []
  {
  }

  method EmitNumber(out: array<Byte>, count0: nat, n: nat, v: int, ghost limit: nat) returns (count: nat)
    requires IsInt(v) && count0 < n && limit <= out.Length && count0 + Min(n - 1 - count0, |Decimal(v)| + 1) <= limit
    modifies out
    ensures var text := Decimal(v); var len := Min(n - 1 - count0, |text|);
      count == count0 + len && out[..count] == old(out[..count0]) + text[..len]
    ensures Changed(out, count0, limit)
  {
    var len := Int2Str(out, count0, v, n - 1 - count0);
    count := count0 + len;
    assert out[..count] == out[..count0] + out[count0..count];
  }

  // ---- atoi ----

  predicate IsDigit(b: Byte) { ZERO <= b <= ZERO + 9 }

  /** atoi on the bytes before the NUL: the digits after the leading spaces. */
  method Atoi(s: seq<Byte>) returns (x: int, ghost from: nat, ghost to: nat)
    ensures from <= to <= |s| && x == Value(s[from..to])
    ensures (forall k :: 0 <= k < from ==> s[k] == SPACE) && (from < |s| ==> s[from] != SPACE)
    ensures (forall k :: from <= k < to ==> IsDigit(s[k])) && (to < |s| ==> !IsDigit(s[to]))
  {
    var i := 0;
    while i < |s| && s[i] == SPACE
      invariant 0 <= i <= |s| && forall k :: 0 <= k < i ==> s[k] == SPACE
    {
      i := i + 1;
    }
    x, from := 0, i;
    while i < |s| && ZERO <= s[i] && s[i] <= ZERO + 9
      invariant from <= i <= |s| && x == Value(s[from..i])
      invariant forall k :: from <= k < i ==> IsDigit(s[k])
    {
      assert s[from..i + 1][..i - from] == s[from..i];
      x := x * 10 + s[i] - ZERO;
      i := i + 1;
    }
    to := i;
  }

  /** atoi inverts int2str on the non-negative numbers. */
  method AtoiInverts(v: nat, spaces: seq<Byte>) returns (x: int)
    requires v < 0x8000_0000 && forall k :: 0 <= k < |spaces| ==> spaces[k] == SPACE
    ensures x == v
  {
    var s := spaces + Decimal(v);
    assert forall k :: |spaces| <= k < |s| ==> s[k] == Decimal(v)[k - |spaces|] && IsDigit(s[k]);
    assert IsDigit(s[|spaces|]);
    ghost var from: nat, to: nat;
    x, from, to := Atoi(s);
    assert s[|spaces|..] == Decimal(v);
    assert from == |spaces| && to == |s|;
    assert s[from..to] == Decimal(v);
    ValueOfDigits(v);
  }
}
