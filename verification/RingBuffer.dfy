/** The circular kernel log of kernel/lib/printk.c, lines 7 to 47. */
module RingBuffer {
  const LOG_BUF_SIZE := 1024

  /** The last `n` characters of `s`. */
  function Last(s: string, n: nat): (r: string)
    ensures |r| <= n && |r| <= |s| && (|s| <= n ==> r == s)
  {
    if |s| <= n then s else s[|s| - n..]
  }

  /** Keeping the last `n` characters before appending loses nothing that is kept after. */
  lemma LastOfLast(s: string, t: string, n: nat)
    ensures Last(Last(s, n) + t, n) == Last(s + t, n)
  {
    if |s| > n && |t| <= n {
      assert (s + t)[|s + t| - n..] == (s[|s| - n..] + t)[|t|..];
    } else if |s| > n {
      assert (s + t)[|s + t| - n..] == t[|t| - n..];
      assert (Last(s, n) + t)[|Last(s, n) + t| - n..] == t[|t| - n..];
    }
  }

  /** Position `i` places after `tail`, around the end of the buffer. */
  function Around(tail: nat, i: nat): (k: nat)
    requires tail < LOG_BUF_SIZE && i < LOG_BUF_SIZE
    ensures k < LOG_BUF_SIZE
  {
    if tail + i < LOG_BUF_SIZE then tail + i else tail + i - LOG_BUF_SIZE
  }

  function Length(head: nat, tail: nat): (n: nat)
    requires head < LOG_BUF_SIZE && tail < LOG_BUF_SIZE
    ensures n < LOG_BUF_SIZE
  {
    if tail <= head then head - tail else head + LOG_BUF_SIZE - tail
  }

  /** What a reader sees going from `tail` to `head`. */
  function Window(b: seq<char>, head: nat, tail: nat): (s: string)
    requires |b| == LOG_BUF_SIZE && head < LOG_BUF_SIZE && tail < LOG_BUF_SIZE
    ensures |s| == Length(head, tail)
  {
    seq(Length(head, tail), i requires 0 <= i < LOG_BUF_SIZE => b[Around(tail, i)])
  }

  function Next(k: nat): nat {
    (k + 1) % LOG_BUF_SIZE
  }

  /** One more byte in the circle is one more byte in the sequence, with the oldest byte
      dropped when the circle was full. */
  lemma WindowPut(b: seq<char>, head: nat, tail: nat, c: char)
    requires |b| == LOG_BUF_SIZE && head < LOG_BUF_SIZE && tail < LOG_BUF_SIZE
    ensures var tail' := if Next(head) == tail then Next(tail) else tail;
            Window(b[head := c], Next(head), tail') == Last(Window(b, head, tail) + [c], LOG_BUF_SIZE - 1)
  {
    var full := Next(head) == tail;
    var tail' := if full then Next(tail) else tail;
    var old' := Window(b, head, tail);
    var now := Window(b[head := c], Next(head), tail');
    var n := Length(head, tail);
    assert Next(head) == if head == LOG_BUF_SIZE - 1 then 0 else head + 1;
    assert full <==> n == LOG_BUF_SIZE - 1;
    forall i | 0 <= i < |now|
      ensures now[i] == Last(old' + [c], LOG_BUF_SIZE - 1)[i]
    {
      var j := if full then i + 1 else i;
      assert Around(tail', i) == if j < n then Around(tail, j) else head;
      assert j < n ==> Around(tail, j) != head;
    }
  }

  /** The value of the circular log: its cells and the two positions. */
  datatype Circle = Circle(cells: seq<char>, head: nat, tail: nat) {
    predicate Valid() { |cells| == LOG_BUF_SIZE && head < LOG_BUF_SIZE && tail < LOG_BUF_SIZE }

    function Text(): string
      requires Valid()
    {
      Window(cells, head, tail)
    }
  }

  /** One byte: stored at the head, both positions moved around the end. */
  function Put(r: Circle, c: char): (r': Circle)
    requires r.Valid()
    ensures r'.Valid()
  {
    Circle(r.cells[r.head := c], Next(r.head), if Next(r.head) == r.tail then Next(r.tail) else r.tail)
  }

  function PutAll(r: Circle, s: string): (r': Circle)
    requires r.Valid()
    ensures r'.Valid()
  {
    if s == [] then r else Put(PutAll(r, s[..|s| - 1]), s[|s| - 1])
  }

  /** Writing a text into the circle appends it to what is read, and keeps the last 1023. */
  lemma {:induction false} PutAllShows(r: Circle, s: string)
    requires r.Valid()
    ensures PutAll(r, s).Text() == Last(r.Text() + s, LOG_BUF_SIZE - 1)
  {
    hide Window, Last;
    if s == [] {
      assert r.Text() + s == r.Text();
      KeptWhole(r.Text());
    } else {
      var front, c := s[..|s| - 1], s[|s| - 1];
      PutAllShows(r, front);
      var q := PutAll(r, front);
      WindowPut(q.cells, q.head, q.tail, c);
      LastOfLast(r.Text() + front, [c], LOG_BUF_SIZE - 1);
      assert r.Text() + s == r.Text() + front + [c];
    }
  }

  lemma KeptWhole(s: string)
    requires |s| < LOG_BUF_SIZE
    ensures Last(s, LOG_BUF_SIZE - 1) == s
  {
  }

  class LogBuffer {
    const buffer: array<char>
    var head: nat
    var tail: nat

    ghost predicate Valid()
      reads this
    {
      buffer.Length == LOG_BUF_SIZE && head < LOG_BUF_SIZE && tail < LOG_BUF_SIZE
    }

    ghost function Value(): (r: Circle)
      requires Valid()
      ensures r.Valid()
      reads this, buffer
    {
      Circle(buffer[..], head, tail)
    }

    ghost function Contents(): string
      requires Valid()
      reads this, buffer
    {
      Value().Text()
    }

    constructor ()
      ensures Valid() && Contents() == [] && fresh(buffer)
    {
      buffer := new char[LOG_BUF_SIZE](_ => '\0');
      head, tail := 0, 0;
    }

    /** The reset in `printk_init`. */
    method Reset()
      requires Valid()
      modifies this
      ensures Valid() && Contents() == []
    {
      head, tail := 0, 0;
    }

    /** `ringbuf_putc` */
    method PutChar(c: char)
      requires Valid()
      modifies this, buffer
      ensures Valid() && Value() == Put(old(Value()), c)
    {
      ghost var b := buffer[..];
      buffer[head] := c;
      assert buffer[..] == b[head := c];
      head := (head + 1) % LOG_BUF_SIZE;
      if head == tail {
        tail := (tail + 1) % LOG_BUF_SIZE;
      }
    }

    /** `ringbuf_write` */
    method Write(s: string)
      requires Valid()
      modifies this, buffer
      ensures Valid() && Value() == PutAll(old(Value()), s)
      ensures Contents() == Last(old(Contents()) + s, LOG_BUF_SIZE - 1)
    {
      ghost var before := Value();
      PutAllShows(before, s);
      hide Put, Last, Window;
      for i := 0 to |s|
        invariant Valid() && Value() == PutAll(before, s[..i])
      {
        assert s[..i + 1][..i] == s[..i];
        PutChar(s[i]);
      }
      assert s[..|s|] == s;
    }
  }

  // ----- whole histories -----

  function Joined(writes: seq<string>): string {
    if writes == [] then [] else Joined(writes[..|writes| - 1]) + writes[|writes| - 1]
  }

  /** The circle after a sequence of writes. */
  function Logged(r: Circle, writes: seq<string>): (r': Circle)
    requires r.Valid()
    ensures r'.Valid()
  {
    if writes == [] then r else PutAll(Logged(r, writes[..|writes| - 1]), writes[|writes| - 1])
  }

  /** The reader goes from the tail to the head, around the end of the 1024 cells. */
  lemma WindowReads(r: Circle, i: nat)
    requires r.Valid()
    ensures |r.Text()| == (r.head - r.tail) % 1024
    ensures i < |r.Text()| ==> r.Text()[i] == r.cells[(r.tail + i) % 1024]
  {
  }

  /** Whatever is written from an empty circle on, wherever it is empty, the reader sees
      exactly the last 1023 bytes ever written, in order. */
  lemma {:induction false} LogIsLastBytes(r: Circle, writes: seq<string>)
    requires r.Valid() && r.head == r.tail
    ensures Logged(r, writes).Text() == Last(Joined(writes), 1023)
  {
    if writes == [] {
      assert r.Text() == [];
    } else {
      var front := writes[..|writes| - 1];
      LogIsLastBytes(r, front);
      hide Window, Last;
      PutAllShows(Logged(r, front), writes[|writes| - 1]);
      LastOfLast(Joined(front), writes[|writes| - 1], LOG_BUF_SIZE - 1);
    }
  }
}
