/** `my_vsnprintf` of kernel/lib/printk.c, writing into a caller's buffer; proved to print
    exactly what module Format says. */
module Printf {
  import opened Bits
  import opened FrameTable
  import opened Format
  import opened NumberTexts

  type int32 = x: int | -0x8000_0000 <= x < 0x8000_0000

  const SCRATCH := 12

  /** `before` with `t` written from position `p` on. */
  function Overlay(before: seq<char>, p: nat, t: string): (after: seq<char>)
    requires p + |t| <= |before|
    ensures |after| == |before|
  {
    before[..p] + t + before[p + |t|..]
  }

  lemma OverlayTwice(before: seq<char>, p: nat, t: string, u: string)
    requires p + |t| + |u| <= |before|
    ensures Overlay(Overlay(before, p, t), p + |t|, u) == Overlay(before, p, t + u)
  {
  }

  function Reversed(s: string): (r: string)
    ensures |r| == |s|
  {
    seq(|s|, i requires 0 <= i < |s| => s[|s| - 1 - i])
  }

  lemma ReversedSnoc(s: string, c: char)
    ensures Reversed(s + [c]) == [c] + Reversed(s)
  {
  }

  /** `if (p < end) *p++ = c` */
  method PutChar(buf: array<char>, p: nat, end: nat, c: char) returns (q: nat)
    requires p <= end < buf.Length
    modifies buf
    ensures q == p + |Take([c], end - p)| && buf[..] == Overlay(old(buf[..]), p, Take([c], end - p))
  {
    q := p;
    if p < end {
      buf[p] := c;
      q := p + 1;
    }
  }

  lemma OverlayNone(before: seq<char>, p: nat)
    requires p <= |before|
    ensures Overlay(before, p, []) == before
  {
  }

  /** `*p++ = c`, where `c` is the next character of the text `s` written from `p0` on. */
  method PutNextOf(buf: array<char>, p: nat, c: char, ghost before: seq<char>, ghost p0: nat, ghost s: string)
    requires p0 <= p < buf.Length == |before| && p - p0 < |s| && s[p - p0] == c
    requires buf[..] == Overlay(before, p0, s[..p - p0])
    modifies buf
    ensures buf[..] == Overlay(before, p0, s[..p + 1 - p0])
  {
    OverlayTwice(before, p0, s[..p - p0], [c]);
    buf[p] := c;
    assert buf[..] == Overlay(Overlay(before, p0, s[..p - p0]), p, [c]);
    assert s[..p - p0] + [c] == s[..p + 1 - p0];
  }

  /** The padding loop shared by the conversions. */
  method PutPadding(buf: array<char>, p: nat, end: nat, count: nat, c: char) returns (q: nat)
    requires p <= end < buf.Length
    modifies buf
    ensures q == p + |Take(Repeat(c, count), end - p)|
    ensures buf[..] == Overlay(old(buf[..]), p, Take(Repeat(c, count), end - p))
  {
    ghost var before, s := buf[..], Repeat(c, count);
    OverlayNone(before, p);
    assert s[..0] == [];
    hide Overlay;
    q := p;
    var left: nat := count;
    while left > 0 && q < end
      invariant left <= count && p <= q <= end && q == p + (count - left)
      invariant buf[..] == Overlay(before, p, s[..q - p])
    {
      PutNextOf(buf, q, c, before, p, s);
      q := q + 1;
      left := left - 1;
    }
    assert Take(s, end - p) == s[..q - p];
  }

  /** The copying loop of `%s`. */
  method PutString(buf: array<char>, p: nat, end: nat, s: string) returns (q: nat)
    requires p <= end < buf.Length
    modifies buf
    ensures q == p + |Take(s, end - p)| && buf[..] == Overlay(old(buf[..]), p, Take(s, end - p))
  {
    ghost var before := buf[..];
    OverlayNone(before, p);
    assert s[..0] == [];
    hide Overlay;
    q := p;
    var i := 0;
    while i < |s| && q < end
      invariant i <= |s| && p <= q <= end && q == p + i
      invariant buf[..] == Overlay(before, p, s[..i])
    {
      PutNextOf(buf, q, s[i], before, p, s);
      q := q + 1;
      i := i + 1;
    }
    assert Take(s, end - p) == s[..i];
  }

  /** The loop that copies the scratch digits, last one first. */
  method PutReversed(buf: array<char>, p: nat, end: nat, tmp: array<char>, len: nat) returns (q: nat)
    requires p <= end < buf.Length && len <= tmp.Length && tmp != buf
    modifies buf
    ensures q == p + |Take(Reversed(tmp[..len]), end - p)|
    ensures buf[..] == Overlay(old(buf[..]), p, Take(Reversed(tmp[..len]), end - p))
  {
    ghost var before, s := buf[..], Reversed(tmp[..len]);
    assert forall k :: 0 <= k < len ==> s[k] == tmp[len - 1 - k];
    OverlayNone(before, p);
    assert s[..0] == [];
    hide Overlay, Reversed;
    q := p;
    var pos := len - 1;
    while pos >= 0 && q < end
      invariant -1 <= pos < len && p <= q <= end && q == p + (len - 1 - pos)
      invariant buf[..] == Overlay(before, p, s[..q - p])
    {
      assert s[q - p] == tmp[pos];
      PutNextOf(buf, q, tmp[pos], before, p, s);
      q := q + 1;
      pos := pos - 1;
    }
    assert Take(s, end - p) == s[..q - p];
  }

  /** The `do ... while` loop that leaves the digits of `n` in the scratch array, least
      significant first; the scratch array is never the reason to stop. */
  method ScratchDigits(n: uint32, b: nat) returns (tmp: array<char>, len: nat)
    requires b == 10 || b == 16
    ensures fresh(tmp) && tmp.Length == SCRATCH && 1 <= len <= 10
    ensures Reversed(tmp[..len]) == Digits(n, b)
  {
    tmp := new char[SCRATCH];
    var val: nat := n;
    DigitsFit(n);
    PeelDigit(val, b);
    tmp[0], len := DigitChar(val % b), 1;
    val := val / b;
    assert Reversed(tmp[..1]) == [DigitChar(n % b)];
    hide Reversed, DigitChar, Digits, HigherDigits;
    while val != 0 && len < SCRATCH
      invariant 1 <= len <= 10
      invariant Digits(n, b) == HigherDigits(val, b) + Reversed(tmp[..len])
      decreases val
    {
      PeelDigit(val, b);
      ReversedSnoc(tmp[..len], DigitChar(val % b));
      tmp[len] := DigitChar(val % b);
      assert tmp[..len + 1] == tmp[..len] + [DigitChar(val % b)];
      JoinMiddle(HigherDigits(val / b, b), DigitChar(val % b), Reversed(tmp[..len]));
      len := len + 1;
      val := val / b;
    }
    NoHigherDigits(b);
  }

  /** The digits still to be produced. */
  function HigherDigits(v: nat, b: nat): string
    requires 2 <= b <= 16
  {
    if v == 0 then [] else Digits(v, b)
  }

  lemma NoHigherDigits(b: nat)
    requires 2 <= b <= 16
    ensures HigherDigits(0, b) == []
  {
  }

  lemma PeelDigit(v: nat, b: nat)
    requires 2 <= b <= 16
    ensures Digits(v, b) == HigherDigits(v / b, b) + [DigitChar(v % b)]
    ensures v > 0 ==> v / b < v && HigherDigits(v, b) == Digits(v, b)
  {
    DivMod(v, b);
    if v < b {
      DivModUnique(v, b, 0, v);
    } else {
      QuotientPositive(v, b);
    }
  }

  lemma JoinMiddle(s: string, c: char, t: string)
    ensures (s + [c]) + t == s + ([c] + t)
  {
  }

  /** The same loop for `%u`, on a signed number. */
  method UnsignedScratch(n: int32) returns (tmp: array<char>, len: nat)
    ensures fresh(tmp) && tmp.Length == SCRATCH && 1 <= len <= 10
    ensures Reversed(tmp[..len]) == UnsignedText(n)
  {
    tmp := new char[SCRATCH];
    var num: int32 := n;
    UnsignedTextFits(n);
    tmp[0], len := SignedDigit(CRemainder(num, 10)), 1;
    num := CQuotient(num, 10);
    assert Reversed(tmp[..1]) == [SignedDigit(CRemainder(n, 10))];
    while num != 0 && len < SCRATCH
      invariant 1 <= len <= 10
      invariant UnsignedText(n) == (if num == 0 then [] else UnsignedText(num)) + Reversed(tmp[..len])
      decreases Magnitude(num)
    {
      ReversedSnoc(tmp[..len], SignedDigit(CRemainder(num, 10)));
      tmp[len] := SignedDigit(CRemainder(num, 10));
      assert tmp[..len + 1] == tmp[..len] + [SignedDigit(CRemainder(num, 10))];
      len := len + 1;
      num := CQuotient(num, 10);
    }
  }

  lemma {:induction false} UnsignedTextLength(n: int)
    requires -0x8000_0000 <= n < 0x8000_0000
    ensures |UnsignedText(n)| == |Digits(Magnitude(n), 10)|
    decreases Magnitude(n)
  {
    if !(-10 < n < 10) {
      UnsignedTextLength(CQuotient(n, 10));
    }
  }

  lemma UnsignedTextFits(n: int32)
    ensures |UnsignedText(n)| <= 10
  {
    UnsignedTextLength(n);
    DigitsFit(Magnitude(n));
  }

  /** Padding and then the scratch digits: the common end of `%d`, `%u` and `%x`. */
  method PutPaddedNumber(buf: array<char>, p: nat, end: nat, pad: char, width: nat, tmp: array<char>, len: nat) returns (q: nat)
    requires p <= end < buf.Length && len <= tmp.Length && tmp != buf
    modifies buf
    ensures q == p + |Take(Pad(pad, width, Reversed(tmp[..len])), end - p)|
    ensures buf[..] == Overlay(old(buf[..]), p, Take(Pad(pad, width, Reversed(tmp[..len])), end - p))
  {
    ghost var before, s := buf[..], Reversed(tmp[..len]);
    var toPad := if width < len then 0 else width - len;
    q := PutPadding(buf, p, end, toPad, pad);
    PadInParts(before, p, end, pad, toPad, s);
    q := PutReversed(buf, q, end, tmp, len);
  }

  /** Cutting a padded text is cutting its padding and then its body. */
  lemma PadInParts(before: seq<char>, p: nat, end: nat, pad: char, k: nat, s: string)
    requires p <= end <= |before|
    ensures var t := Take(Repeat(pad, k), end - p);
            var u := Take(s, end - (p + |t|));
            && t + u == Take(Repeat(pad, k) + s, end - p)
            && Overlay(Overlay(before, p, t), p + |t|, u) == Overlay(before, p, Take(Repeat(pad, k) + s, end - p))
  {
    var t := Take(Repeat(pad, k), end - p);
    var u := Take(s, end - (p + |t|));
    TakeJoin(Repeat(pad, k), s, end - p);
    OverlayTwice(before, p, t, u);
  }

  /** One case of the conversion switch. */
  method PutDirective(buf: array<char>, p: nat, end: nat, pad: char, width: int32, conv: char, args: seq<Arg>, ghost d: Directive)
    returns (q: nat)
    requires p < end < buf.Length && Suits(conv, args)
    requires d.pad == pad && d.width == width && d.conv == conv
    modifies buf
    ensures q == p + |Bounded(d, args, end - p)|
    ensures buf[..] == Overlay(old(buf[..]), p, Bounded(d, args, end - p))
  {
    match conv
    case 's' =>
      q := PutPaddedString(buf, p, end, pad, width, if args[0].s.None? then "(null)" else args[0].s.value);
    case 'c' =>
      q := PutPaddedChar(buf, p, end, pad, width, (args[0].w % 256) as char);
    case 'd' =>
      var tmp, len := DecimalScratch(args[0].w);
      q := PutPaddedNumber(buf, p, end, pad, width, tmp, len);
    case 'u' =>
      var tmp, len := UnsignedScratch(Signed(args[0].w));
      q := PutPaddedNumber(buf, p, end, pad, width, tmp, len);
    case 'x' =>
      var tmp, len := ScratchDigits(args[0].w, 16);
      q := PutPaddedNumber(buf, p, end, pad, width, tmp, len);
    case 'p' =>
      q := PutPointer(buf, p, end, args[0].w);
    case _ =>
      q := PutChar(buf, p, end, conv);
  }

  /** `%s`: padding and then the string. */
  method PutPaddedString(buf: array<char>, p: nat, end: nat, pad: char, width: int32, str: string) returns (q: nat)
    requires p <= end < buf.Length && width >= 0
    modifies buf
    ensures q == p + |Take(Pad(pad, width, str), end - p)|
    ensures buf[..] == Overlay(old(buf[..]), p, Take(Pad(pad, width, str), end - p))
  {
    ghost var before := buf[..];
    var toPad := if |str| > width then 0 else width - |str|;
    q := PutPadding(buf, p, end, toPad, pad);
    PadInParts(before, p, end, pad, toPad, str);
    q := PutString(buf, q, end, str);
  }

  /** `%c`: padding and then the character. */
  method PutPaddedChar(buf: array<char>, p: nat, end: nat, pad: char, width: int32, c: char) returns (q: nat)
    requires p <= end < buf.Length && width >= 0
    modifies buf
    ensures q == p + |Take(Pad(pad, width, [c]), end - p)|
    ensures buf[..] == Overlay(old(buf[..]), p, Take(Pad(pad, width, [c]), end - p))
  {
    ghost var before := buf[..];
    var toPad := if width - 1 < 0 then 0 else width - 1;
    q := PutPadding(buf, p, end, toPad, pad);
    PadInParts(before, p, end, pad, toPad, [c]);
    q := PutChar(buf, q, end, c);
  }

  /** The scratch array of `%d`: the digits of the magnitude and then the sign. */
  method DecimalScratch(w: uint32) returns (tmp: array<char>, len: nat)
    requires w != 0x8000_0000
    ensures fresh(tmp) && tmp.Length == SCRATCH && len <= 11
    ensures Reversed(tmp[..len]) == Decimal(Signed(w))
  {
    var num: int32 := Signed(w);
    var negative := num < 0;
    var negated: int32 := if negative then -num else num;
    tmp, len := ScratchDigits(negated, 10);
    if negative && len < SCRATCH {
      ReversedSnoc(tmp[..len], '-');
      tmp[len] := '-';
      assert tmp[..len + 1] == tmp[..len] + ['-'];
      len := len + 1;
    }
  }

  /** `%p`: the prefix only when both of its characters fit, then the hexadecimal digits. */
  method PutPointer(buf: array<char>, p: nat, end: nat, w: uint32) returns (q: nat)
    requires p < end < buf.Length
    modifies buf
    ensures var t := if end - p < 2 then Take(Digits(w, 16), end - p) else Take("0x" + Digits(w, 16), end - p);
            q == p + |t| && buf[..] == Overlay(old(buf[..]), p, t)
  {
    ghost var before := buf[..];
    q := p;
    if p < end - 1 {
      buf[q], buf[q + 1] := '0', 'x';
      q := p + 2;
      assert buf[..] == Overlay(before, p, "0x");
      TakeJoin("0x", Digits(w, 16), end - p);
      OverlayTwice(before, p, "0x", Take(Digits(w, 16), end - q));
    }
    ghost var middle := buf[..];
    var tmp, len := ScratchDigits(w, 16);
    assert buf[..] == middle;
    q := PutReversed(buf, q, end, tmp, len);
  }

  // ----- parsing -----

  /** The character at `i`, with the terminating zero behind the format. */
  function CharAt(f: string, i: nat): char
    requires i <= |f|
  {
    if i < |f| then f[i] else '\0'
  }

  /** The flag and width loops: `k` is the position of the conversion character. */
  method ParseDirective(fmt: string, i: nat) returns (pad: char, width: int32, k: nat)
    requires i <= |fmt|
    requires SkipDigits(AfterFlag(fmt[i..])) != [] && Parse(fmt[i..]).width < 0x8000_0000
    ensures i <= k < |fmt| && width >= 0
    ensures Parse(fmt[i..]) == Directive(pad, width, fmt[k], fmt[k + 1..])
  {
    ghost var d := Parse(fmt[i..]);
    pad, width, k := ' ', 0, i;
    if CharAt(fmt, k) == '0' {
      pad := '0';
      k := k + 1;
    }
    assert fmt[k..] == AfterFlag(fmt[i..]);
    while '0' <= CharAt(fmt, k) <= '9'
      invariant i <= k <= |fmt| && width >= 0
      invariant WidthFrom(fmt[k..], width) == d.width
      invariant SkipDigits(fmt[k..]) == SkipDigits(AfterFlag(fmt[i..]))
      decreases |fmt| - k
    {
      assert fmt[k..][1..] == fmt[k + 1..];
      width := width * 10 + (fmt[k] as int - 48);
      k := k + 1;
    }
    assert fmt[k..] == SkipDigits(AfterFlag(fmt[i..]));
    assert fmt[k..][1..] == fmt[k + 1..];
  }

  // ----- the formatter -----

  /** The state of the main loop: the first `p` characters of `all` are in the buffer, and
      the rest of it is what the remaining format `f` prints with the remaining `args`. */
  ghost predicate Progress(b: seq<char>, before: seq<char>, all: string, f: string, args: seq<Arg>, p: nat, end: nat) {
    && p <= end < |before| && p <= |all|
    && b == Overlay(before, 0, all[..p])
    && Readable(f, args, end - p)
    && all[p..] == Emit(f, args, end - p)
  }

  /** `my_vsnprintf`: the buffer holds the bounded rendering and a terminating zero, bytes
      behind it are untouched, and the length is returned. */
  method MyVsnprintf(buf: array<char>, size: nat, fmt: string, args: seq<Arg>) returns (len: nat)
    requires 1 <= size <= buf.Length && Readable(fmt, args, size - 1)
    modifies buf
    ensures len == |Emit(fmt, args, size - 1)| < size
    ensures buf[..] == Overlay(old(buf[..]), 0, Emit(fmt, args, size - 1) + ['\0'])
  {
    ghost var before, all := buf[..], Emit(fmt, args, size - 1);
    var p: nat, end: nat, i: nat, j: nat := 0, size - 1, 0, 0;
    ProgressStarts(before, fmt, args, end);
    assert fmt[0..] == fmt && args[0..] == args;
    hide Progress, Emit, Overlay;
    while CharAt(fmt, i) != '\0' && p < end
      invariant i <= |fmt| && j <= |args| && p <= end
      invariant Progress(buf[..], before, all, fmt[i..], args[j..], p, end)
      decreases |fmt| - i
    {
      p, i, j := PutRound(buf, p, end, fmt, i, args, j, before, all);
    }
    ProgressEnds(buf[..], before, all, fmt, i, args[j..], p, end);
    PutZero(buf, p, before, all);
    len := p;
  }

  lemma ProgressStarts(before: seq<char>, fmt: string, args: seq<Arg>, end: nat)
    requires end < |before| && Readable(fmt, args, end)
    ensures Progress(before, before, Emit(fmt, args, end), fmt, args, 0, end)
  {
    OverlayNone(before, 0);
    assert Emit(fmt, args, end)[..0] == [] && Emit(fmt, args, end)[0..] == Emit(fmt, args, end);
  }

  lemma ProgressEnds(b: seq<char>, before: seq<char>, all: string, fmt: string, i: nat, args: seq<Arg>, p: nat, end: nat)
    requires i <= |fmt| && Progress(b, before, all, fmt[i..], args, p, end)
    requires CharAt(fmt, i) == '\0' || p == end
    ensures p == |all| <= end < |before| && b == Overlay(before, 0, all)
  {
    EmitStops(fmt, i, args, end - p);
    assert all[..p] == all;
  }

  /** One round of the main loop. */
  method PutRound(buf: array<char>, p: nat, end: nat, fmt: string, i: nat, args: seq<Arg>, j: nat, ghost before: seq<char>, ghost all: string)
    returns (q: nat, i': nat, j': nat)
    requires p < end < buf.Length == |before| && i < |fmt| && j <= |args|
    requires Progress(buf[..], before, all, fmt[i..], args[j..], p, end)
    modifies buf
    ensures i < i' <= |fmt| && j' <= |args| && q <= end
    ensures Progress(buf[..], before, all, fmt[i'..], args[j'..], q, end)
  {
    hide Progress, Emit, Readable, Overlay, NextText;
    ghost var b0 := buf[..];
    ProgressParts(b0, before, all, fmt[i..], args[j..], p, end);
    q, i', j' := PutNext(buf, p, end, fmt, i, args, j);
    ProgressStep(b0, before, all, fmt[i..], args[j..], p, end, NextText(fmt[i..], args[j..], end - p), fmt[i'..], args[j'..]);
  }

  lemma ProgressParts(b: seq<char>, before: seq<char>, all: string, f: string, args: seq<Arg>, p: nat, end: nat)
    requires Progress(b, before, all, f, args, p, end)
    ensures Readable(f, args, end - p)
  {
  }

  lemma ProgressStep(b: seq<char>, before: seq<char>, all: string, f: string, args: seq<Arg>, p: nat, end: nat,
                     t: string, f': string, args': seq<Arg>)
    requires Progress(b, before, all, f, args, p, end)
    requires p + |t| <= end && Readable(f', args', end - (p + |t|))
    requires Emit(f, args, end - p) == t + Emit(f', args', end - (p + |t|))
    ensures p + |t| <= |b| && Progress(Overlay(b, p, t), before, all, f', args', p + |t|, end)
  {
    OverlayStep(before, all, p, t, Emit(f', args', end - (p + |t|)));
  }

  lemma OverlayStep(before: seq<char>, all: string, p: nat, t: string, rest: string)
    requires p <= |all| && p + |t| <= |before| && all[p..] == t + rest
    ensures p + |t| <= |all| && all[p + |t|..] == rest
    ensures Overlay(Overlay(before, 0, all[..p]), p, t) == Overlay(before, 0, all[..p + |t|])
  {
    SplitPrefix(all, p, t, rest);
    OverlayTwice(before, 0, all[..p], t);
    hide Overlay;
  }

  lemma SplitPrefix(all: string, p: nat, t: string, rest: string)
    requires p <= |all| && all[p..] == t + rest
    ensures p + |t| <= |all| && all[..p + |t|] == all[..p] + t && all[p + |t|..] == rest
  {
    assert all == all[..p] + t + rest by {
      assert all == all[..p] + all[p..];
    }
  }

  /** The loop ends only at the end of the format or of the room. */
  lemma EmitStops(fmt: string, i: nat, args: seq<Arg>, room: nat)
    requires i <= |fmt| && Readable(fmt[i..], args, room)
    requires CharAt(fmt, i) == '\0' || room == 0
    ensures Emit(fmt[i..], args, room) == []
  {
    if i < |fmt| {
      assert fmt[i..][0] == fmt[i];
    }
  }

  /** `*p = '\0'` */
  method PutZero(buf: array<char>, p: nat, ghost before: seq<char>, ghost out: string)
    requires p == |out| < buf.Length == |before| && buf[..] == Overlay(before, 0, out)
    modifies buf
    ensures buf[..] == Overlay(before, 0, out + ['\0'])
  {
    OverlayTwice(before, 0, out, ['\0']);
    buf[p] := '\0';
    assert buf[..] == Overlay(Overlay(before, 0, out), p, ['\0']);
  }

  /** What one round of the loop prints. */
  function NextText(f: string, args: seq<Arg>, room: nat): (t: string)
    requires Readable(f, args, room) && f != [] && room > 0
    ensures |t| <= room
  {
    if f[0] != '%' then [f[0]] else Bounded(Parse(f[1..]), args, room)
  }

  /** The rendering of `f` is its next text and then what `f'` prints with `args'`. */
  ghost predicate NextStep(f: string, args: seq<Arg>, room: nat, f': string, args': seq<Arg>)
    requires Readable(f, args, room) && f != [] && room > 0
  {
    var t := NextText(f, args, room);
    Readable(f', args', room - |t|) && Emit(f, args, room) == t + Emit(f', args', room - |t|)
  }

  lemma OrdinaryStep(f: string, args: seq<Arg>, room: nat)
    requires Readable(f, args, room) && f != [] && room > 0 && f[0] != '%'
    ensures NextStep(f, args, room, f[1..], args) && NextText(f, args, room) == [f[0]]
  {
  }

  lemma DirectiveStep(f: string, args: seq<Arg>, room: nat)
    requires Readable(f, args, room) && f != [] && room > 0 && f[0] == '%'
    ensures SkipDigits(AfterFlag(f[1..])) != []
    ensures var d := Parse(f[1..]);
            && d.width < 0x8000_0000 && Suits(d.conv, args)
            && NextStep(f, args, room, d.rest, Rest(d.conv, args)) && NextText(f, args, room) == Bounded(d, args, room)
  {
  }

  /** One round of the loop: an ordinary character or a directive. */
  method PutNext(buf: array<char>, p: nat, end: nat, fmt: string, i: nat, args: seq<Arg>, j: nat)
    returns (q: nat, i': nat, j': nat)
    requires p < end < buf.Length && i < |fmt| && j <= |args| && Readable(fmt[i..], args[j..], end - p)
    modifies buf
    ensures i < i' <= |fmt| && j <= j' <= |args|
    ensures NextStep(fmt[i..], args[j..], end - p, fmt[i'..], args[j'..])
    ensures var t := NextText(fmt[i..], args[j..], end - p);
            q == p + |t| && buf[..] == Overlay(old(buf[..]), p, t)
  {
    ghost var f, rest := fmt[i..], args[j..];
    assert f != [] && f[0] == fmt[i] && f[1..] == fmt[i + 1..];
    hide NextStep, NextText, Readable, Overlay, Bounded, SkipDigits, AfterFlag, Parse, Take, Suits, Rest;
    if fmt[i] == '%' {
      DirectiveStep(f, rest, end - p);
      q, i', j' := PutParsed(buf, p, end, fmt, i + 1, args, j);
    } else {
      OrdinaryStep(f, rest, end - p);
      q := PutNonzero(buf, p, end, fmt[i]);
      i', j' := i + 1, j;
    }
  }

  /** The same, where there is room. */
  method PutNonzero(buf: array<char>, p: nat, end: nat, c: char) returns (q: nat)
    requires p < end < buf.Length
    modifies buf
    ensures q == p + 1 && buf[..] == Overlay(old(buf[..]), p, [c])
  {
    q := PutChar(buf, p, end, c);
  }

  /** The directive whose text starts at `i`, behind the `%`. */
  method PutParsed(buf: array<char>, p: nat, end: nat, fmt: string, i: nat, args: seq<Arg>, j: nat)
    returns (q: nat, i': nat, j': nat)
    requires p < end < buf.Length && i <= |fmt| && j <= |args| && SkipDigits(AfterFlag(fmt[i..])) != []
    requires Parse(fmt[i..]).width < 0x8000_0000 && Suits(Parse(fmt[i..]).conv, args[j..])
    modifies buf
    ensures i < i' <= |fmt| && j <= j' <= |args|
    ensures var d := Parse(fmt[i..]);
            var t := Bounded(d, args[j..], end - p);
            && fmt[i'..] == d.rest && args[j'..] == Rest(d.conv, args[j..])
            && q == p + |t| && buf[..] == Overlay(old(buf[..]), p, t)
  {
    ghost var d := Parse(fmt[i..]);
    hide Parse, Bounded, Overlay, SkipDigits, AfterFlag;
    var pad, width, k := ParseDirective(fmt, i);
    q := PutDirective(buf, p, end, pad, width, fmt[k], args[j..], d);
    i' := k + 1;
    j' := if fmt[k] in {'s', 'c', 'd', 'u', 'x', 'p'} then j + 1 else j;
    if j < |args| {
      assert args[j..][1..] == args[j + 1..];
    }
  }
}
