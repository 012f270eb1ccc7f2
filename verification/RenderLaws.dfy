/** What the formatter prints, conversion by conversion, on whole formats: the text of a
    directive, padded to its width, and then the rest of the format with the arguments that
    are left. */
module RenderLaws {
  import opened Bits
  import opened FrameTable
  import opened Format
  import opened NumberTexts

  /** A directive as it is written: flag, width and letter, and the format behind it. */
  function Written(zero: bool, digits: string, conv: char, rest: string): string {
    "%" + (if zero then "0" else "") + digits + [conv] + rest
  }

  /** A width is any text of digits; without the flag it does not start with '0'.  So every
      directive is written in exactly one way. */
  predicate IsWidth(zero: bool, digits: string) {
    && (forall i :: 0 <= i < |digits| ==> '0' <= digits[i] <= '9')
    && (!zero && digits != "" ==> digits[0] != '0')
  }

  function Width(digits: string): nat {
    ReadNat(digits, 10).GetOr(0)
  }

  function PadChar(zero: bool): char { if zero then '0' else ' ' }

  /** `u` behind as much padding as the width asks for. */
  function Field(zero: bool, width: nat, u: string): string {
    seq(if |u| < width then width - |u| else 0, (_: nat) => PadChar(zero)) + u
  }

  /** The width loop, from a value read so far. */
  lemma {:induction false} WidthOfText(digits: string, g: string)
    requires (forall i :: 0 <= i < |digits| ==> '0' <= digits[i] <= '9')
    ensures WidthFrom(digits + g, 0) == WidthFrom(g, Width(digits)) && SkipDigits(digits + g) == SkipDigits(g)
    ensures digits != "" ==> ReadNat(digits, 10).Some?
    decreases |digits|
  {
    if digits == "" {
      assert digits + g == g;
    } else {
      var front, c := digits[..|digits| - 1], digits[|digits| - 1];
      var h := [c] + g;
      WidthOfText(front, h);
      assert digits + g == front + h && h[1..] == g && front + [c] == digits;
      ReadSnoc(front, c, 10);
    }
  }

  lemma WrittenStarts(zero: bool, digits: string, conv: char, rest: string)
    ensures var f := Written(zero, digits, conv, rest); f != [] && f[0] == '%'
  {
  }

  lemma FlagOf(zero: bool, digits: string, g: string)
    requires IsWidth(zero, digits) && g != [] && !IsDigit(g[0])
    ensures var f := (if zero then "0" else "") + (digits + g);
            f != [] && AfterFlag(f) == digits + g && (f[0] == '0' <==> zero)
  {
  }

  lemma WrittenParses(zero: bool, digits: string, conv: char, rest: string)
    requires IsWidth(zero, digits) && !IsDigit(conv)
    ensures var f := Written(zero, digits, conv, rest);
            && f != [] && f[0] == '%' && SkipDigits(AfterFlag(f[1..])) != []
            && Parse(f[1..]) == Directive(PadChar(zero), Width(digits), conv, rest)
  {
    var g, f := [conv] + rest, Written(zero, digits, conv, rest);
    WrittenStarts(zero, digits, conv, rest);
    WidthOfText(digits, g);
    assert f[1..] == (if zero then "0" else "") + (digits + g);
    FlagOf(zero, digits, g);
    assert g[1..] == rest;
    hide AfterFlag, Written, Width, IsWidth;
  }

  lemma FieldIsPad(zero: bool, width: nat, u: string)
    ensures Pad(PadChar(zero), width, u) == Field(zero, width, u)
  {
  }

  /** Ordinary characters are printed as they are. */
  lemma RenderPlain(c: char, rest: string, args: seq<Arg>)
    requires WellFormedFormat([c] + rest, args) && c != '%'
    ensures WellFormedFormat(rest, args) && Render([c] + rest, args) == [c] + Render(rest, args)
    ensures Render("", args) == ""
  {
    assert ([c] + rest)[1..] == rest;
  }

  /** `%%`, and any other letter that is no conversion: the letter itself, no argument used. */
  lemma RenderLetter(zero: bool, digits: string, conv: char, rest: string, args: seq<Arg>)
    requires IsWidth(zero, digits) && WellFormedFormat(Written(zero, digits, conv, rest), args)
    requires conv !in "scduxp" && !IsDigit(conv)
    ensures WellFormedFormat(rest, args)
    ensures Render(Written(zero, digits, conv, rest), args) == [conv] + Render(rest, args)
  {
    WrittenParses(zero, digits, conv, rest);
  }

  /** A conversion takes the first argument and leaves the others to the rest. */
  lemma RenderStep(zero: bool, digits: string, conv: char, rest: string, args: seq<Arg>)
    requires IsWidth(zero, digits) && WellFormedFormat(Written(zero, digits, conv, rest), args) && conv in "scduxp"
    ensures args != [] && (if conv == 's' then args[0].Str? else args[0].Word?)
    ensures Suits(conv, args) && WellFormedFormat(rest, args[1..])
    ensures Render(Written(zero, digits, conv, rest), args) ==
            Text(Directive(PadChar(zero), Width(digits), conv, rest), args) + Render(rest, args[1..])
  {
    WrittenParses(zero, digits, conv, rest);
  }

  /** `%s`: the string, or "(null)" for a null pointer. */
  lemma RenderString(zero: bool, digits: string, rest: string, args: seq<Arg>)
    requires IsWidth(zero, digits) && WellFormedFormat(Written(zero, digits, 's', rest), args)
    ensures args != [] && args[0].Str? && WellFormedFormat(rest, args[1..])
    ensures Render(Written(zero, digits, 's', rest), args) ==
            Field(zero, Width(digits), if args[0].s == None then "(null)" else args[0].s.value) + Render(rest, args[1..])
  {
    RenderStep(zero, digits, 's', rest, args);
    FieldIsPad(zero, Width(digits), Body('s', args));
  }

  /** `%c`: the low byte of the argument. */
  lemma RenderChar(zero: bool, digits: string, rest: string, args: seq<Arg>)
    requires IsWidth(zero, digits) && WellFormedFormat(Written(zero, digits, 'c', rest), args)
    ensures args != [] && args[0].Word? && WellFormedFormat(rest, args[1..])
    ensures Render(Written(zero, digits, 'c', rest), args) ==
            Field(zero, Width(digits), [(args[0].w % 256) as char]) + Render(rest, args[1..])
  {
    RenderStep(zero, digits, 'c', rest, args);
    FieldIsPad(zero, Width(digits), Body('c', args));
  }

  /** No leading zero. */
  predicate Canonical(u: string) { u != [] && (u[0] == '0' ==> u == "0") }

  /** `%d`: the one decimal text without leading zeros that reads as the signed argument,
      behind its padding. */
  lemma RenderDecimal(zero: bool, digits: string, rest: string, args: seq<Arg>) returns (u: string)
    requires IsWidth(zero, digits) && WellFormedFormat(Written(zero, digits, 'd', rest), args)
    ensures args != [] && args[0].Word? && WellFormedFormat(rest, args[1..])
    ensures Render(Written(zero, digits, 'd', rest), args) == Field(zero, Width(digits), u) + Render(rest, args[1..])
    ensures var n := if args[0].w < 0x8000_0000 then args[0].w else args[0].w - 0x1_0000_0000;
            && ReadInt(u) == Some(n) && u != [] && u[0] != ' '
            && (if n < 0 then u[0] == '-' && Canonical(u[1..]) else Canonical(u))
  {
    RenderStep(zero, digits, 'd', rest, args);
    var n := Signed(args[0].w);
    u := Decimal(n);
    FieldIsPad(zero, Width(digits), u);
    ReadDecimal(n);
    DigitsCanonical(Magnitude(n), 10);
    if n < 0 {
      assert u[1..] == Digits(-n, 10);
    }
  }

  lemma {:induction false} DigitsCanonical(n: nat, b: nat)
    requires 2 <= b <= 16
    ensures Canonical(Digits(n, b))
    ensures n > 0 ==> Digits(n, b)[0] != '0'
  {
    if n >= b {
      QuotientPositive(n, b);
      DivMod(n, b);
      DigitsCanonical(n / b, b);
    }
  }

  lemma {:induction false} DigitsAreHex(n: nat, b: nat)
    requires 2 <= b <= 16
    ensures forall i :: 0 <= i < |Digits(n, b)| ==> Digits(n, b)[i] in "0123456789abcdef"
  {
    if n >= b {
      DivMod(n, b);
      DigitsAreHex(n / b, b);
      HexChar(n % b);
    } else {
      HexChar(n);
    }
  }

  lemma HexChar(d: nat)
    requires d < 16
    ensures DigitChar(d) == "0123456789abcdef"[d]
  {
  }

  /** The hexadecimal text of `w`: lower case, no leading zero. */
  predicate HexText(u: string, w: nat) {
    ReadNat(u, 16) == Some(w) && Canonical(u) && forall i :: 0 <= i < |u| ==> u[i] in "0123456789abcdef"
  }

  lemma DigitsAreHexText(w: nat)
    ensures HexText(Digits(w, 16), w)
  {
    ReadDigits(w, 16);
    DigitsCanonical(w, 16);
    DigitsAreHex(w, 16);
  }

  /** `%x`. */
  lemma RenderHex(zero: bool, digits: string, rest: string, args: seq<Arg>) returns (u: string)
    requires IsWidth(zero, digits) && WellFormedFormat(Written(zero, digits, 'x', rest), args)
    ensures args != [] && args[0].Word? && WellFormedFormat(rest, args[1..])
    ensures Render(Written(zero, digits, 'x', rest), args) == Field(zero, Width(digits), u) + Render(rest, args[1..])
    ensures HexText(u, args[0].w)
  {
    RenderStep(zero, digits, 'x', rest, args);
    u := Digits(args[0].w, 16);
    FieldIsPad(zero, Width(digits), u);
    DigitsAreHexText(args[0].w);
  }

  /** `%p`: "0x" and the hexadecimal text; flag and width are ignored. */
  lemma RenderPointer(zero: bool, digits: string, rest: string, args: seq<Arg>) returns (u: string)
    requires IsWidth(zero, digits) && WellFormedFormat(Written(zero, digits, 'p', rest), args)
    ensures args != [] && args[0].Word? && WellFormedFormat(rest, args[1..])
    ensures Render(Written(zero, digits, 'p', rest), args) == "0x" + u + Render(rest, args[1..])
    ensures HexText(u, args[0].w)
  {
    RenderStep(zero, digits, 'p', rest, args);
    u := Digits(args[0].w, 16);
    DigitsAreHexText(args[0].w);
  }

  /** The text of `%u`: below 2^31 the decimal text of the word; from there on, the mirror
      image of the decimal text of 2^32 less the word. */
  ghost predicate UnsignedShape(u: string, w: uint32) {
    if w < 0x8000_0000 then ReadNat(u, 10) == Some(w) && Canonical(u)
    else exists v :: ReadNat(v, 10) == Some(0x1_0000_0000 - w) && Canonical(v) && MirrorText(u, v)
  }

  lemma UnsignedHasShape(w: uint32)
    ensures UnsignedShape(UnsignedText(Signed(w)), w)
  {
    if w < 0x8000_0000 {
      UnsignedTextNonNegative(w);
      ReadDigits(w, 10);
      DigitsCanonical(w, 10);
    } else {
      var v := Digits(TWO_32 - w, 10);
      UnsignedMirrors(w - TWO_32);
      ReadDigits(TWO_32 - w, 10);
      DigitsCanonical(TWO_32 - w, 10);
      hide UnsignedText, Digits, ReadNat, MirrorText, Canonical;
      assert ReadNat(v, 10) == Some(0x1_0000_0000 - w) && Canonical(v) && MirrorText(UnsignedText(Signed(w)), v);
    }
  }

  /** `%u`. */
  lemma RenderUnsigned(zero: bool, digits: string, rest: string, args: seq<Arg>) returns (u: string)
    requires IsWidth(zero, digits) && WellFormedFormat(Written(zero, digits, 'u', rest), args)
    ensures args != [] && args[0].Word? && WellFormedFormat(rest, args[1..])
    ensures Render(Written(zero, digits, 'u', rest), args) == Field(zero, Width(digits), u) + Render(rest, args[1..])
    ensures UnsignedShape(u, args[0].w)
  {
    RenderStep(zero, digits, 'u', rest, args);
    u := UnsignedText(Signed(args[0].w));
    FieldIsPad(zero, Width(digits), u);
    UnsignedHasShape(args[0].w);
  }

  /** Each character lies as far below '0' as the digit above it. */
  predicate MirrorText(u: string, v: string) {
    |u| == |v| && forall i :: 0 <= i < |u| ==> u[i] as int + v[i] as int == 96
  }

  /** From 2^31 on, the digits of 2^32 less the argument are subtracted from '0'. */
  lemma {:induction false} UnsignedMirrors(n: int)
    requires -0x8000_0000 <= n < 0
    ensures MirrorText(UnsignedText(n), Digits(-n, 10))
    decreases -n
  {
    if n <= -10 {
      UnsignedMirrors(CQuotient(n, 10));
    }
  }

  // ----- which formats are well formed -----

  /** Exactly when a format that begins with a directive is well formed. */
  lemma WrittenWellFormed(zero: bool, digits: string, conv: char, rest: string, args: seq<Arg>)
    requires IsWidth(zero, digits) && !IsDigit(conv)
    ensures WellFormedFormat(Written(zero, digits, conv, rest), args) <==>
            && Width(digits) < 0x8000_0000 && conv != '\0'
            && (conv in "cduxp" ==> args != [] && args[0].Word?)
            && (conv == 'd' ==> args[0].w != 0x8000_0000)
            && (conv == 's' ==> args != [] && args[0].Str?)
            && (conv == 's' && args[0].s != None ==> '\0' !in args[0].s.value && |args[0].s.value| < 0x8000_0000)
            && WellFormedFormat(rest, if conv in "scduxp" then args[1..] else args)
  {
    WrittenParses(zero, digits, conv, rest);
    NoZeroInside(zero, digits, conv, rest);
    RestHasNoZero(rest, if conv in "scduxp" && args != [] then args[1..] else args);
    hide Parse, SkipDigits, AfterFlag, Written, ReadNat;
  }

  lemma RestHasNoZero(rest: string, args: seq<Arg>)
    ensures WellFormedFormat(rest, args) ==> '\0' !in rest
  {
  }

  lemma NoZeroInside(zero: bool, digits: string, conv: char, rest: string)
    requires IsWidth(zero, digits)
    ensures '\0' !in Written(zero, digits, conv, rest) <==> conv != '\0' && '\0' !in rest
  {
  }
}
