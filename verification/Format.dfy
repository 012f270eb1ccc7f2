/** What `my_vsnprintf` (kernel/lib/printk.c) prints: an unbounded renderer of formats, its
    bounded form, and the number texts it produces. */
module Format {
  import opened Bits
  import opened FrameTable

  // ----- number texts -----

  function DigitChar(d: nat): (c: char)
    requires d < 16
  {
    if d < 10 then '0' + d as char else 'a' + (d - 10) as char
  }

  /** `n` in base `b`, most significant digit first. */
  function Digits(n: nat, b: nat): (s: string)
    requires 2 <= b <= 16
    ensures |s| >= 1
  {
    if n < b then [DigitChar(n)] else Digits(n / b, b) + [DigitChar(n % b)]
  }

  function Signed(w: uint32): int {
    if w < 0x8000_0000 then w else w - TWO_32
  }

  function Magnitude(n: int): nat {
    if n < 0 then -n else n
  }

  /** The text of `%d`. */
  function Decimal(n: int): string {
    if n < 0 then "-" + Digits(-n, 10) else Digits(n, 10)
  }

  /** The text of `%u`: the word is read as a signed number, and the remainders of a
      negative number, which C truncates toward zero, are added to '0'. */
  function UnsignedText(n: int): (s: string)
    requires -0x8000_0000 <= n < 0x8000_0000
    ensures |s| >= 1
    decreases Magnitude(n)
  {
    if -10 < n < 10 then [SignedDigit(n)] else UnsignedText(CQuotient(n, 10)) + [SignedDigit(CRemainder(n, 10))]
  }

  function SignedDigit(r: int): char
    requires -10 < r < 10
  {
    (48 + r) as char
  }

  /** C division and remainder by a positive number. */
  function CQuotient(n: int, d: int): int
    requires d > 0
  {
    if n < 0 then -(-n / d) else n / d
  }

  function CRemainder(n: int, d: int): int
    requires d > 0
  {
    if n < 0 then -(-n % d) else n % d
  }

  // ----- directives -----

  /** A variadic argument: a 32-bit stack word, or a pointer to a string, null included. */
  datatype Arg = Word(w: uint32) | Str(s: Option<string>)

  /** A parsed `%` directive: padding character, width, conversion, and what follows. */
  datatype Directive = Directive(pad: char, width: nat, conv: char, rest: string)

  predicate IsDigit(c: char) { '0' <= c <= '9' }

  function SkipDigits(f: string): (r: string)
    ensures |r| <= |f| && (r != [] ==> !IsDigit(r[0]))
  {
    if f != [] && IsDigit(f[0]) then SkipDigits(f[1..]) else f
  }

  function WidthFrom(f: string, width: nat): (w: nat)
    ensures w >= width
    decreases |f|
  {
    if f != [] && IsDigit(f[0]) then WidthFrom(f[1..], width * 10 + (f[0] as int - 48)) else width
  }

  function AfterFlag(f: string): (r: string)
    ensures |r| <= |f|
  {
    if f != [] && f[0] == '0' then f[1..] else f
  }

  /** The directive after a `%`; the format must not end inside it. */
  function Parse(f: string): (d: Directive)
    requires SkipDigits(AfterFlag(f)) != []
    ensures |d.rest| < |f|
  {
    var g := AfterFlag(f);
    var h := SkipDigits(g);
    Directive(if f[0] == '0' then '0' else ' ', WidthFrom(g, 0), h[0], h[1..])
  }

  predicate TakesWord(conv: char) { conv in {'c', 'd', 'u', 'x', 'p'} }

  predicate TakesArg(conv: char) { conv == 's' || TakesWord(conv) }

  /** The argument suits the conversion: a terminated string for `%s`, a word for the
      others, and for `%d` not the one number whose negation overflows. */
  predicate Suits(conv: char, args: seq<Arg>) {
    && (conv == 's' ==> args != [] && args[0].Str? && Terminated(args[0].s))
    && (TakesWord(conv) ==> args != [] && args[0].Word?)
    && (conv == 'd' ==> args[0].w != 0x8000_0000)
  }

  /** A string argument holds no zero and its length fits an `int`. */
  predicate Terminated(s: Option<string>) {
    s.Some? ==> '\0' !in s.value && |s.value| < 0x8000_0000
  }

  function Rest(conv: char, args: seq<Arg>): seq<Arg>
    requires Suits(conv, args)
  {
    if TakesArg(conv) then args[1..] else args
  }

  // ----- rendering -----

  function Repeat(c: char, n: nat): (s: string)
    ensures |s| == n
  {
    seq(n, (_: nat) => c)
  }

  function Pad(c: char, width: nat, s: string): (r: string)
    ensures |r| == Max(width, |s|)
  {
    Repeat(c, if |s| > width then 0 else width - |s|) + s
  }

  /** The text of an argument before padding. */
  function Body(conv: char, args: seq<Arg>): string
    requires Suits(conv, args) && TakesArg(conv)
  {
    match conv
    case 's' => if args[0].s.None? then "(null)" else args[0].s.value
    case 'c' => [(args[0].w % 256) as char]
    case 'd' => Decimal(Signed(args[0].w))
    case 'u' => UnsignedText(Signed(args[0].w))
    case 'x' => Digits(args[0].w, 16)
    case _ => Digits(args[0].w, 16)
  }

  /** What a directive prints when there is room for it. */
  function Text(d: Directive, args: seq<Arg>): string
    requires Suits(d.conv, args)
  {
    if d.conv == 'p' then "0x" + Body('p', args)
    else if TakesArg(d.conv) then Pad(d.pad, d.width, Body(d.conv, args))
    else [d.conv]
  }

  /** No directive is cut off, widths fit an `int`, and the arguments match. */
  predicate WellFormedFormat(f: string, args: seq<Arg>)
    decreases |f|
  {
    '\0' !in f &&
    (f == [] ||
     if f[0] != '%' then WellFormedFormat(f[1..], args)
     else
       && SkipDigits(AfterFlag(f[1..])) != []
       && var d := Parse(f[1..]);
       && d.width < 0x8000_0000 && Suits(d.conv, args)
       && WellFormedFormat(d.rest, Rest(d.conv, args)))
  }

  /** The unbounded renderer. */
  function Render(f: string, args: seq<Arg>): string
    requires WellFormedFormat(f, args)
    decreases |f|
  {
    if f == [] then []
    else if f[0] != '%' then [f[0]] + Render(f[1..], args)
    else
      var d := Parse(f[1..]);
      Text(d, args) + Render(d.rest, Rest(d.conv, args))
  }

  function Take(s: string, n: nat): (r: string)
    ensures |r| == Min(|s|, n)
  {
    if |s| <= n then s else s[..n]
  }

  lemma TakeJoin(s: string, t: string, n: nat)
    ensures Take(s, n) + Take(t, n - |Take(s, n)|) == Take(s + t, n)
  {
  }

  /** What a directive prints into `room` characters: `%p` writes its prefix only when
      both characters of it fit. */
  function Bounded(d: Directive, args: seq<Arg>, room: nat): (s: string)
    requires Suits(d.conv, args)
    ensures |s| <= room
  {
    if d.conv == 'p' && room < 2 then Take(Body('p', args), room) else Take(Text(d, args), room)
  }

  /** What is asked of the part of the format that is read before `room` characters are out:
      no directive cut off, widths that fit an `int`, and matching arguments. */
  predicate Readable(f: string, args: seq<Arg>, room: nat)
    decreases |f|
  {
    '\0' !in f &&
    (f == [] || room == 0 ||
     if f[0] != '%' then Readable(f[1..], args, room - 1)
     else
       && SkipDigits(AfterFlag(f[1..])) != []
       && var d := Parse(f[1..]);
       && d.width < 0x8000_0000 && Suits(d.conv, args)
       && Readable(d.rest, Rest(d.conv, args), room - |Bounded(d, args, room)|))
  }

  /** A well-formed format is readable into any buffer. */
  lemma {:induction false} WellFormedIsReadable(f: string, args: seq<Arg>, room: nat)
    requires WellFormedFormat(f, args)
    ensures Readable(f, args, room)
    decreases |f|
  {
    if f != [] && room != 0 {
      if f[0] != '%' {
        WellFormedIsReadable(f[1..], args, room - 1);
      } else {
        var d := Parse(f[1..]);
        WellFormedIsReadable(d.rest, Rest(d.conv, args), room - |Bounded(d, args, room)|);
      }
    }
  }

  /** What `my_vsnprintf` prints into `room` characters. */
  function Emit(f: string, args: seq<Arg>, room: nat): (s: string)
    requires Readable(f, args, room)
    ensures |s| <= room
    decreases |f|
  {
    if f == [] || room == 0 then []
    else if f[0] != '%' then [f[0]] + Emit(f[1..], args, room - 1)
    else
      var d := Parse(f[1..]);
      var t := Bounded(d, args, room);
      t + Emit(d.rest, Rest(d.conv, args), room - |t|)
  }

  /** In the unbounded rendering, the text of a `%p` of a non-null pointer starts at `k`. */
  predicate PointerAt(f: string, args: seq<Arg>, k: nat)
    requires WellFormedFormat(f, args)
    decreases |f|
  {
    f != [] &&
    if f[0] != '%' then k > 0 && PointerAt(f[1..], args, k - 1)
    else
      var d := Parse(f[1..]);
      var n := |Text(d, args)|;
      (k == 0 && d.conv == 'p' && args[0].w != 0) || (k >= n && PointerAt(d.rest, Rest(d.conv, args), k - n))
  }

  lemma {:induction false} FirstHexDigit(w: nat)
    ensures Digits(w, 16)[0] == '0' <==> w == 0
  {
    if w >= 16 {
      FirstHexDigit(w / 16);
    }
  }

  /** After a text cut to the room, the output is the cut of the whole if and only if what
      follows is the cut of the rest. */
  lemma CutTwice(text: string, t: string, e: string, r: string, room: nat)
    requires t == Take(text, room)
    ensures t + e == Take(text + r, room) <==> e == Take(r, room - |t|)
  {
    TakeJoin(text, r, room);
    assert (t + e)[|t|..] == e && (t + Take(r, room - |t|))[|t|..] == Take(r, room - |t|);
  }

  /** With one character of room, `%p` prints the first digit instead of the prefix. */
  lemma PointerInOne(f: string, args: seq<Arg>)
    requires WellFormedFormat(f, args) && f != [] && f[0] == '%' && Parse(f[1..]).conv == 'p'
    ensures Readable(f, args, 1)
    ensures Emit(f, args, 1) == [Digits(args[0].w, 16)[0]] && Take(Render(f, args), 1) == ['0']
  {
    var d := Parse(f[1..]);
    WellFormedIsReadable(f, args, 1);
    assert Emit(d.rest, Rest(d.conv, args), 0) == [];
    hide Parse, Digits, SkipDigits, AfterFlag;
    assert Render(f, args)[0] == Text(d, args)[0];
  }

  /** The output is the first `room` characters of the unbounded rendering if and only if no
      `%p` of a non-null pointer starts there with its last character. */
  lemma {:induction false} EmitIsPrefixIff(f: string, args: seq<Arg>, room: nat)
    requires WellFormedFormat(f, args)
    ensures Readable(f, args, room)
    ensures Emit(f, args, room) == Take(Render(f, args), room) <==> room == 0 || !PointerAt(f, args, room - 1)
    decreases |f|
  {
    WellFormedIsReadable(f, args, room);
    if f == [] || room == 0 {
      assert Take(Render(f, args), room) == [];
    } else if f[0] != '%' {
      EmitIsPrefixIff(f[1..], args, room - 1);
      CutTwice([f[0]], [f[0]], Emit(f[1..], args, room - 1), Render(f[1..], args), room);
    } else {
      var d := Parse(f[1..]);
      if d.conv == 'p' && room == 1 {
        FirstHexDigit(args[0].w);
        PointerInOne(f, args);
        assert PointerAt(f, args, 0) <==> args[0].w != 0;
      } else {
        var t := Bounded(d, args, room);
        EmitDirective(f, args, room);
        hide Emit, Render, PointerAt, WellFormedFormat, Readable, Take, Text, Parse, Bounded;
        EmitIsPrefixIff(d.rest, Rest(d.conv, args), room - |t|);
        CutTwice(Text(d, args), t, Emit(d.rest, Rest(d.conv, args), room - |t|), Render(d.rest, Rest(d.conv, args)), room);
      }
    }
  }

  /** A directive that meets the end of the buffer without splitting a prefix: its text is
      cut to the room, and a pointer at the edge comes from the rest of the format. */
  lemma EmitDirective(f: string, args: seq<Arg>, room: nat)
    requires WellFormedFormat(f, args) && f != [] && f[0] == '%' && room > 0
    requires Parse(f[1..]).conv == 'p' ==> room >= 2
    ensures Readable(f, args, room)
    ensures var d := Parse(f[1..]);
            var t, args' := Bounded(d, args, room), Rest(d.conv, args);
            && t == Take(Text(d, args), room)
            && WellFormedFormat(d.rest, args') && Readable(d.rest, args', room - |t|)
            && Emit(f, args, room) == t + Emit(d.rest, args', room - |t|)
            && Render(f, args) == Text(d, args) + Render(d.rest, args')
            && (PointerAt(f, args, room - 1) <==> |t| < room && PointerAt(d.rest, args', room - 1 - |t|))
  {
    WellFormedIsReadable(f, args, room);
  }

  /** `"%p"` into a buffer of two: the digit of the pointer, where the rendering has the zero
      of the prefix. */
  lemma PointerAtTheEdge()
    ensures WellFormedFormat("%p", [Word(10)]) && Readable("%p", [Word(10)], 1)
    ensures Emit("%p", [Word(10)], 1) == "a" && Take(Render("%p", [Word(10)]), 1) == "0"
  {
    var f := "%p";
    assert f[1..] == "p" && Parse("p").conv == 'p' && Parse("p").rest == [];
    assert Digits(10, 16) == "a";
    PointerInOne(f, [Word(10)]);
  }

  /** No `%p` directive occurs in the format. */
  predicate NoPointers(f: string, args: seq<Arg>)
    requires WellFormedFormat(f, args)
    decreases |f|
  {
    f == [] ||
    if f[0] != '%' then NoPointers(f[1..], args)
    else
      var d := Parse(f[1..]);
      d.conv != 'p' && NoPointers(d.rest, Rest(d.conv, args))
  }

  /** Without `%p`, the output is always the rendering cut to the room. */
  lemma EmitIsPrefix(f: string, args: seq<Arg>, room: nat)
    requires WellFormedFormat(f, args) && NoPointers(f, args)
    ensures Readable(f, args, room) && Emit(f, args, room) == Take(Render(f, args), room)
  {
    EmitIsPrefixIff(f, args, room);
    if room != 0 {
      NowhereWithoutPointers(f, args, room - 1);
    }
  }

  lemma {:induction false} NowhereWithoutPointers(f: string, args: seq<Arg>, k: nat)
    requires WellFormedFormat(f, args) && NoPointers(f, args)
    ensures !PointerAt(f, args, k)
    decreases |f|
  {
    if f != [] {
      if f[0] != '%' {
        if k > 0 {
          NowhereWithoutPointers(f[1..], args, k - 1);
        }
      } else {
        var d := Parse(f[1..]);
        if k >= |Text(d, args)| {
          NowhereWithoutPointers(d.rest, Rest(d.conv, args), k - |Text(d, args)|);
        }
      }
    }
  }
}
