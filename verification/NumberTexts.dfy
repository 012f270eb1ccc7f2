/** The number texts of `my_vsnprintf` read back: round trips, lengths, and where the
    conversions miss. */
module NumberTexts {
  import opened Bits
  import opened FrameTable
  import opened Format

  // ----- reading numbers -----

  function DigitValue(c: char): (d: nat)
    ensures d <= 16
  {
    if '0' <= c <= '9' then c as int - 48
    else if 'a' <= c <= 'f' then c as int - 97 + 10
    else 16
  }

  /** The value of a non-empty text of base-`b` digits. */
  function ReadNat(s: string, b: nat): Option<nat> {
    if s == [] || DigitValue(s[|s| - 1]) >= b then None
    else if |s| == 1 then Some(DigitValue(s[0]))
    else
      match ReadNat(s[..|s| - 1], b)
      case None => None
      case Some(n) => Some(n * b + DigitValue(s[|s| - 1]))
  }

  function SkipSpaces(s: string): string {
    if s != [] && s[0] == ' ' then SkipSpaces(s[1..]) else s
  }

  /** A decimal number after spaces, with an optional minus sign. */
  function ReadInt(s: string): Option<int> {
    var t := SkipSpaces(s);
    if t != [] && t[0] == '-' then WithSign(-1, ReadNat(t[1..], 10)) else WithSign(1, ReadNat(t, 10))
  }

  function WithSign(sign: int, n: Option<nat>): Option<int> {
    if n.None? then None else Some(sign * n.value)
  }

  // ----- round trips -----

  lemma DigitRoundTrip(d: nat)
    requires d < 16
    ensures DigitValue(DigitChar(d)) == d && DigitChar(d) != ' ' && DigitChar(d) != '-'
  {
  }

  /** Reading one more digit. */
  lemma ReadSnoc(s: string, c: char, b: nat)
    ensures ReadNat(s + [c], b) ==
            if DigitValue(c) >= b then None
            else if s == [] then Some(DigitValue(c))
            else if ReadNat(s, b).None? then None
            else Some(ReadNat(s, b).value * b + DigitValue(c))
  {
    assert (s + [c])[..|s|] == s;
  }

  lemma DivMod(n: nat, b: nat)
    requires b >= 2
    ensures n == n / b * b + n % b && n % b < b
    ensures n > 0 ==> n / b < n
  {
    if 0 < n && n <= n / b {
      assert n / b * 2 <= n / b * b by { MulMonoRight(2, b, n / b); }
    }
  }

  lemma QuotientPositive(n: nat, b: nat)
    requires n >= b >= 2
    ensures n / b >= 1
  {
    DivMod(n, b);
    ProductOrder(0, n / b, b);
  }

  lemma {:induction false} ReadDigits(n: nat, b: nat)
    requires 2 <= b <= 16
    ensures ReadNat(Digits(n, b), b) == Some(n)
    ensures Digits(n, b)[0] != ' ' && Digits(n, b)[0] != '-'
  {
    if n >= b {
      DivMod(n, b);
      DigitRoundTrip(n % b);
      ReadDigits(n / b, b);
      ReadSnoc(Digits(n / b, b), DigitChar(n % b), b);
    } else {
      DigitRoundTrip(n);
    }
  }

  lemma {:induction false} SkipPadding(s: string, k: nat)
    requires s != [] && s[0] != ' '
    ensures SkipSpaces(Repeat(' ', k) + s) == s
  {
    if k == 0 {
      assert Repeat(' ', 0) + s == s;
    } else {
      SkipPadding(s, k - 1);
      assert (Repeat(' ', k) + s)[1..] == Repeat(' ', k - 1) + s;
    }
  }

  /** Leading zeros do not change a value. */
  lemma {:induction false} ReadZeros(n: nat, b: nat, k: nat)
    requires 2 <= b <= 16
    ensures ReadNat(Repeat('0', k) + Digits(n, b), b) == Some(n)
    decreases n
  {
    if n >= b {
      DivMod(n, b);
      DigitRoundTrip(n % b);
      ReadZeros(n / b, b, k);
      ReadSnoc(Repeat('0', k) + Digits(n / b, b), DigitChar(n % b), b);
      hide ReadNat, DigitValue, Repeat;
      assert Repeat('0', k) + Digits(n, b) == Repeat('0', k) + Digits(n / b, b) + [DigitChar(n % b)];
    } else {
      ReadZerosThenDigit(n, b, k);
    }
  }

  lemma ReadZerosThenDigit(n: nat, b: nat, k: nat)
    requires 2 <= b <= 16 && n < b
    ensures ReadNat(Repeat('0', k) + [DigitChar(n)], b) == Some(n)
  {
    DigitRoundTrip(n);
    ReadZerosOnly(b, k);
    ReadSnoc(Repeat('0', k), DigitChar(n), b);
    hide ReadNat;
  }

  lemma {:induction false} ReadZerosOnly(b: nat, k: nat)
    requires 2 <= b <= 16
    ensures k > 0 ==> ReadNat(Repeat('0', k), b) == Some(0)
  {
    if k > 1 {
      ReadZerosOnly(b, k - 1);
      assert Repeat('0', k)[..k - 1] == Repeat('0', k - 1);
    }
  }

  /** A decimal text starts with no space, and reads back. */
  lemma ReadDecimal(n: int)
    ensures Decimal(n) != [] && Decimal(n)[0] != ' '
    ensures ReadInt(Decimal(n)) == Some(n)
  {
    ReadDigits(Magnitude(n), 10);
    if n < 0 {
      assert Decimal(n)[1..] == Digits(-n, 10);
    }
    hide ReadNat, Digits;
  }

  /** Spaces in front change neither a number nor its text behind them. */
  lemma ReadPadded(s: string, width: nat)
    requires s != [] && s[0] != ' '
    ensures ReadInt(Pad(' ', width, s)) == ReadInt(s)
    ensures |Pad(' ', width, s)| == Max(width, |s|)
  {
    SkipPadding(s, if |s| > width then 0 else width - |s|);
    SkipPadding(s, 0);
    assert Repeat(' ', 0) + s == s;
    hide ReadNat, SkipSpaces;
  }

  /** A space-padded `%d` reads back as its argument, at any width. */
  lemma DecimalRoundTrip(n: int, width: nat)
    ensures ReadInt(Pad(' ', width, Decimal(n))) == Some(n)
    ensures |Pad(' ', width, Decimal(n))| == Max(width, |Digits(Magnitude(n), 10)| + if n < 0 then 1 else 0)
  {
    ReadDecimal(n);
    hide ReadInt, Pad, Digits;
    ReadPadded(Decimal(n), width);
  }

  /** A zero-padded `%d` reads back if and only if the number is not negative or no padding
      was needed: the zeros are written before the sign. */
  lemma ZeroPaddedDecimal(n: int, width: nat)
    ensures ReadInt(Pad('0', width, Decimal(n))) == Some(n) <==> n >= 0 || width <= |Decimal(n)|
  {
    var s := Decimal(n);
    var k := if |s| > width then 0 else width - |s|;
    var text := Pad('0', width, s);
    ReadDigits(Magnitude(n), 10);
    if k == 0 {
      assert text == s;
      DecimalRoundTrip(n, 0);
      assert Pad(' ', 0, s) == s;
    } else {
      assert text[0] == '0' && SkipSpaces(text) == text;
      if n >= 0 {
        ReadZeros(n, 10, k);
      } else {
        assert text[k] == '-';
        ReadStopsAtSign(text, k);
      }
    }
  }

  /** A text with a minus sign inside is no number. */
  lemma {:induction false} ReadStopsAtSign(s: string, k: nat)
    requires k < |s| && s[k] == '-'
    ensures ReadNat(s, 10) == None
    decreases |s|
  {
    if k < |s| - 1 {
      ReadStopsAtSign(s[..|s| - 1], k);
    }
  }

  /** `%x` reads back for every 32-bit word, with space or zero padding of any width. */
  lemma HexRoundTrip(w: uint32, width: nat)
    ensures ReadNat(SkipSpaces(Pad(' ', width, Digits(w, 16))), 16) == Some(w)
    ensures ReadNat(Pad('0', width, Digits(w, 16)), 16) == Some(w)
  {
    var s := Digits(w, 16);
    ReadDigits(w, 16);
    var k := if |s| > width then 0 else width - |s|;
    SkipPadding(s, k);
    ReadZeros(w, 16, k);
  }

  // ----- %u -----

  lemma {:induction false} UnsignedTextNonNegative(n: int)
    requires 0 <= n < 0x8000_0000
    ensures UnsignedText(n) == Digits(n, 10)
    decreases n
  {
    if n >= 10 {
      UnsignedTextNonNegative(n / 10);
    }
  }

  lemma {:induction false} UnsignedTextNegative(n: int)
    requires -0x8000_0000 <= n < 0
    ensures UnsignedText(n)[0] < '0'
    decreases -n
  {
    if n <= -10 {
      UnsignedTextNegative(CQuotient(n, 10));
    }
  }

  lemma {:induction false} DigitsAreDigits(n: nat)
    ensures Digits(n, 10)[0] >= '0'
  {
    if n >= 10 {
      DigitsAreDigits(n / 10);
    }
  }

  /** `%u` prints the decimal digits of its argument if and only if the argument is below
      2^31: the word is read as a signed number. */
  lemma UnsignedIffSmall(w: uint32)
    ensures UnsignedText(Signed(w)) == Digits(w, 10) <==> w < 0x8000_0000
  {
    if w < 0x8000_0000 {
      UnsignedTextNonNegative(w);
    } else {
      UnsignedTextNegative(Signed(w));
      DigitsAreDigits(w);
    }
  }

  // ----- lengths -----

  function Power(b: nat, k: nat): nat {
    if k == 0 then 1 else b * Power(b, k - 1)
  }

  lemma {:induction false} DigitCount(n: nat, b: nat, k: nat)
    requires 2 <= b <= 16 && k >= 1 && n < Power(b, k)
    ensures |Digits(n, b)| <= k
  {
    if n >= b {
      QuotientBelow(n, b, Power(b, k - 1));
      DivMod(n, b);
      if k == 1 {
        assert false;
      } else {
        hide Power;
        DigitCount(n / b, b, k - 1);
      }
    }
  }

  lemma QuotientBelow(n: nat, b: nat, m: nat)
    requires b >= 2 && n < b * m
    ensures n / b < m
  {
    DivMod(n, b);
    ProductOrder(n / b, m, b);
  }

  lemma ProductOrder(x: nat, y: nat, b: nat)
    requires x * b < b * y
    ensures x < y
  {
    if y < x {
      MulMono(y, x, b);
    }
  }

  /** No 32-bit number needs more than ten decimal or eight hexadecimal digits, so the
      twelve-byte scratch array never overflows. */
  lemma DigitsFit(w: uint32)
    ensures |Digits(w, 10)| <= 10 && |Digits(w, 16)| <= 8
    ensures |Digits(Magnitude(Signed(w)), 10)| <= 10
  {
    TenthPower();
    DigitCount(w, 10, 10);
    DigitCount(w, 16, 8);
    DigitCount(Magnitude(Signed(w)), 10, 10);
  }

  lemma TenthPower()
    ensures Power(10, 10) == 10_000_000_000 && Power(16, 8) == TWO_32
  {
    assert Power(10, 3) == 1000;
    assert Power(10, 6) == 1_000_000;
    assert Power(10, 9) == 1_000_000_000;
    assert Power(16, 4) == 65536;
  }

  // ----- directives -----

  /** The text of a directive. */
  function Unparse(d: Directive): string {
    (if d.pad == '0' then "0" else "") + (if d.width == 0 then "" else Digits(d.width, 10)) + [d.conv] + d.rest
  }

  lemma WidthReadsBack(n: nat, g: string)
    requires g != [] && !IsDigit(g[0])
    ensures WidthFrom(Digits(n, 10) + g, 0) == n && SkipDigits(Digits(n, 10) + g) == g
  {
    WidthOfDigits(n, g);
  }

  /** Reading the digits of `n` and then `g`. */
  lemma {:induction false} WidthOfDigits(n: nat, g: string)
    ensures WidthFrom(Digits(n, 10) + g, 0) == WidthFrom(g, n)
    ensures SkipDigits(Digits(n, 10) + g) == SkipDigits(g)
  {
    DigitIsDigit(n % 10);
    if n >= 10 {
      var h := [DigitChar(n % 10)] + g;
      WidthOfDigits(n / 10, h);
      assert Digits(n, 10) + g == Digits(n / 10, 10) + h;
      assert h[1..] == g;
      DivMod(n, 10);
    } else {
      assert (Digits(n, 10) + g)[1..] == g;
    }
  }

  lemma DigitIsDigit(d: nat)
    requires d < 10
    ensures IsDigit(DigitChar(d)) && DigitChar(d) as int - 48 == d
  {
  }

  lemma {:induction false} NoLeadingZero(n: nat)
    requires n > 0
    ensures Digits(n, 10)[0] != '0'
  {
    if n >= 10 {
      NoLeadingZero(n / 10);
    }
  }

  /** Parsing a directive reads back its flag, width, conversion and remainder. */
  lemma DirectiveRoundTrip(d: Directive)
    requires d.pad == '0' || d.pad == ' '
    requires !IsDigit(d.conv)
    ensures SkipDigits(AfterFlag(Unparse(d))) != [] && Parse(Unparse(d)) == d
  {
    var tail := [d.conv] + d.rest;
    var digits := if d.width == 0 then "" else Digits(d.width, 10);
    var f := Unparse(d);
    assert f == (if d.pad == '0' then "0" else "") + (digits + tail);
    if d.width > 0 {
      NoLeadingZero(d.width);
      WidthReadsBack(d.width, tail);
    } else {
      assert digits + tail == tail;
    }
    assert AfterFlag(f) == digits + tail;
    assert tail[1..] == d.rest;
  }
}
