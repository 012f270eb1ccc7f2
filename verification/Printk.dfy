/** `printk` and `vprintk` of kernel/lib/printk.c: one message goes to the circular log and
    to the screen. */
module Printk {
  import opened Bits
  import opened Format
  import opened Printf
  import RingBuffer
  import Console

  const LOG_BUF_SIZE := 1024

  /** The bytes of a text; C characters are eight bits wide. */
  function Bytes(s: string): (b: seq<uint8>)
    ensures |b| == |s|
  {
    seq(|s|, i requires 0 <= i < |s| => s[i] as int % 256)
  }

  /** The zero-terminated string that the screen driver receives. */
  function CString(s: string): seq<uint8> {
    Bytes(s) + [0]
  }

  lemma {:induction false} TextOfTerminated(b: seq<uint8>)
    requires 0 !in b
    ensures 0 in b + [0] && Console.TextOf(b + [0]) == b
  {
    var s := b + [0];
    assert s[|b|] == 0;
    if b != [] {
      TextOfTerminated(b[1..]);
      assert s[1..] == b[1..] + [0];
    }
  }

  /** What the screen shows of a message: all of it, unless a zero byte cuts it off. */
  function Shown(s: string): seq<uint8> {
    assert CString(s)[|s|] == 0;
    Console.TextOf(CString(s))
  }

  lemma ShownWhole(s: string)
    ensures Shown(s) == Bytes(s) <==> 0 !in Bytes(s)
  {
    if 0 !in Bytes(s) {
      TextOfTerminated(Bytes(s));
    } else {
      assert CString(s)[|s|] == 0;
      assert 0 !in Console.TextOf(CString(s));
    }
  }

  /** The screen gets the low bytes of the characters up to the first that is zero. */
  lemma ShownExact(s: string)
    ensures var b := Shown(s);
            && |b| <= |s|
            && (forall i :: 0 <= i < |b| ==> b[i] == s[i] as int % 256 && b[i] != 0)
            && (|b| < |s| ==> s[|b|] as int % 256 == 0)
  {
    var b, c := Shown(s), CString(s);
    assert c[|s|] == 0;
    forall i | 0 <= i < |b|
      ensures b[i] == s[i] as int % 256 && b[i] != 0
    {
      assert b[i] == c[i] && b[i] in b;
    }
    assert c[|b|] == 0;
  }

  // ----- log levels -----

  datatype Level = Level(name: string, color: uint8)

  /** The eight log levels, by their digit. */
  function LevelOf(digit: nat): Level
    requires digit < 8
  {
    match digit
    case 0 => Level("EMERG", 0x4F)
    case 1 => Level("ALERT", 0x0C)
    case 2 => Level("CRIT", 0x0D)
    case 3 => Level("ERR", 0x04)
    case 4 => Level("WARN", 0x0E)
    case 5 => Level("NOTICE", 0x0B)
    case 6 => Level("INFO", 0x0F)
    case _ => Level("DEBUG", 0x08)
  }

  predicate HasLevel(fmt: string) {
    |fmt| >= 2 && fmt[0] == 1 as char && '0' <= fmt[1] <= '7'
  }

  function LevelIn(fmt: string): Level
    requires HasLevel(fmt)
  {
    LevelOf(fmt[1] as int - 48)
  }

  function Prefix(fmt: string): string {
    if HasLevel(fmt) then "[" + LevelIn(fmt).name + "] " else ""
  }

  function MessageFormat(fmt: string): string {
    if HasLevel(fmt) then fmt[2..] else fmt
  }

  /** The message of one `printk`, cut to the formatting buffer. */
  function Message(fmt: string, args: seq<Arg>): string
    requires Readable(MessageFormat(fmt), args, LOG_BUF_SIZE - 1)
  {
    Emit(MessageFormat(fmt), args, LOG_BUF_SIZE - 1)
  }

  /** A format that begins with the byte 1 and a level digit: that level's name in brackets,
      its colour, and the message behind the two bytes. */
  lemma LevelFormat(digit: nat, body: string, args: seq<Arg>)
    requires digit < 8 && Readable(body, args, 1023)
    ensures var fmt := [1 as char, (48 + digit) as char] + body;
            && HasLevel(fmt) && MessageFormat(fmt) == body && Message(fmt, args) == Emit(body, args, 1023)
            && Prefix(fmt) == "[" + ["EMERG", "ALERT", "CRIT", "ERR", "WARN", "NOTICE", "INFO", "DEBUG"][digit] + "] "
            && LevelIn(fmt).color == [0x4F, 0x0C, 0x0D, 0x04, 0x0E, 0x0B, 0x0F, 0x08][digit]
  {
    var fmt := [1 as char, (48 + digit) as char] + body;
    assert fmt[0] == 1 as char && fmt[1] == (48 + digit) as char && fmt[2..] == body;
    assert fmt[1] as int - 48 == digit;
    hide Emit, Readable;
  }

  /** Any other format is printed as it is, without a prefix. */
  lemma PlainFormat(fmt: string, args: seq<Arg>)
    requires !(|fmt| >= 2 && fmt[0] == 1 as char && '0' <= fmt[1] <= '7')
    requires Readable(fmt, args, 1023)
    ensures !HasLevel(fmt) && MessageFormat(fmt) == fmt && Prefix(fmt) == "" && Message(fmt, args) == Emit(fmt, args, 1023)
  {
  }

  /** The call of `my_vsnprintf` on the stack buffer of `vprintk`. */
  method FormatMessage(fmt: string, args: seq<Arg>) returns (text: string)
    requires Readable(fmt, args, LOG_BUF_SIZE - 1)
    ensures text == Emit(fmt, args, LOG_BUF_SIZE - 1)
  {
    var tmp := new char[LOG_BUF_SIZE];
    var len := MyVsnprintf(tmp, LOG_BUF_SIZE, fmt, args);
    text := tmp[..len];
  }

  class Logger {
    const log: RingBuffer.LogBuffer
    const screen: Console.Vga

    ghost predicate Valid()
      reads this, log, screen
    {
      log.Valid() && screen.Valid() && (log.buffer as object) != (screen.vga as object)
    }

    /** `printk_init` */
    constructor ()
      ensures Valid() && log.Contents() == [] && screen.Value() == Console.CLEARED
    {
      log := new RingBuffer.LogBuffer();
      screen := new Console.Vga();
    }

    /** The text to both sinks: `ringbuf_write` and then `vga_print_string`. */
    method WriteBoth(text: string, color: uint8)
      requires Valid()
      modifies log, log.buffer, screen, screen.vga
      ensures Valid()
      ensures log.Contents() == RingBuffer.Last(old(log.Contents()) + text, LOG_BUF_SIZE - 1)
      ensures screen.Value() == Console.Print(old(screen.Value()), Shown(text), color)
    {
      log.Write(text);
      assert CString(text)[|text|] == 0;
      screen.PrintString(CString(text), color);
    }

    /** `vprintk` */
    method VPrintk(fmt: string, args: seq<Arg>) returns (len: nat)
      requires Valid() && Readable(fmt, args, LOG_BUF_SIZE - 1)
      modifies log, log.buffer, screen, screen.vga
      ensures Valid()
      ensures var text := Emit(fmt, args, 1023);
              && len == |text|
              && log.Contents() == RingBuffer.Last(old(log.Contents()) + text, 1023)
              && screen.Value() == Console.Print(old(screen.Value()), Shown(text), 0x0F)
    {
      hide Emit, RingBuffer.Last, RingBuffer.LogBuffer.Contents, Console.Vga.Value, Console.Print, Shown;
      var text := FormatMessage(fmt, args);
      WriteBoth(text, Console.WHITE_ON_BLACK);
      len := |text|;
    }

    /** `printk`: the coloured level prefix, if the format names a level, and the message. */
    method Printk(fmt: string, args: seq<Arg>) returns (total: nat)
      requires Valid() && Readable(MessageFormat(fmt), args, LOG_BUF_SIZE - 1)
      modifies log, log.buffer, screen, screen.vga
      ensures Valid()
      ensures total == |Prefix(fmt)| + |Message(fmt, args)|
      ensures log.Contents() == RingBuffer.Last(old(log.Contents()) + Prefix(fmt) + Message(fmt, args), 1023)
      ensures screen.Value() ==
              Console.Print(if HasLevel(fmt) then Console.Print(old(screen.Value()), Shown(Prefix(fmt)), LevelIn(fmt).color)
                            else old(screen.Value()),
                            Shown(Message(fmt, args)), 0x0F)
    {
      ghost var before := log.Contents();
      hide Emit, RingBuffer.Last, RingBuffer.LogBuffer.Contents, Console.Vga.Value, Console.Print, Shown, Readable;
      total := 0;
      var actual := fmt;
      if |fmt| >= 2 && fmt[0] == 1 as char && fmt[1] >= '0' && fmt[1] <= '7' {
        var level := LevelOf(fmt[1] as int - 48);
        actual := fmt[2..];
        var prefix := "[" + level.name + "] ";
        WriteBoth(prefix, level.color);
        total := |prefix|;
      }
      var len := VPrintk(actual, args);
      LogTwice(before, Prefix(fmt), Message(fmt, args));
      total := total + len;
    }

    lemma LogTwice(before: string, s: string, t: string)
      ensures RingBuffer.Last(RingBuffer.Last(before + s, LOG_BUF_SIZE - 1) + t, LOG_BUF_SIZE - 1) ==
              RingBuffer.Last(before + s + t, LOG_BUF_SIZE - 1)
      ensures before + "" == before
    {
      RingBuffer.LastOfLast(before + s, t, LOG_BUF_SIZE - 1);
    }
  }
}
