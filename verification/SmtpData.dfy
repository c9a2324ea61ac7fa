/**
 * The DATA phase of an SMTP session: a bounded line reader and a drain over a
 * stream that TCP splits into arbitrary reads.
 *
 * `Receive` and `Drain` say what the two loops compute, in terms of the
 * concatenated bytes only.
 */
module SmtpData {
  import opened Bytes
  import opened Helpers

  /** What the peer will still send, one element per read; a read of no bytes is the end. */
  class ByteStream {
    var chunks: seq<seq<Byte>>

    ghost predicate Valid() reads this {
      forall i :: 0 <= i < |chunks| ==> chunks[i] != []
    }

    ghost function Unread(): seq<Byte> reads this {
      Flatten(chunks)
    }

    constructor (arriving: seq<seq<Byte>>)
      requires forall i :: 0 <= i < |arriving| ==> arriving[i] != []
      ensures Valid() && chunks == arriving && Unread() == Flatten(arriving)
    {
      chunks := arriving;
    }

    /** The bytes at hand, without taking them; none at the end of the stream. */
    method FillBuf() returns (available: seq<Byte>)
      requires Valid()
      ensures available == if chunks == [] then [] else chunks[0]
      ensures available == [] <==> chunks == []
      ensures available == [] ==> Unread() == []
    {
      available := if chunks == [] then [] else chunks[0];
    }

    method Consume(n: nat)
      requires Valid() && chunks != [] && 0 < n <= |chunks[0]|
      modifies this
      ensures Valid()
      ensures old(Unread()) == old(chunks[0])[..n] + Unread()
    {
      var head, tail := chunks[0], chunks[1..];
      if n == |head| {
        chunks := tail;
        assert head[..n] == head;
      } else {
        chunks := [head[n..]] + tail;
        assert chunks[1..] == tail;
        assert head == head[..n] + head[n..];
      }
    }
  }

  /** A lone dot: what a sender ends its message with. */
  const TERMINATOR: seq<Byte> := [DOT, CR, LF]

  /** Index of the first line feed in `s`, or its length. */
  function NewlineAt(s: seq<Byte>): (n: nat)
    ensures n <= |s|
    ensures Open(s[..n])
    ensures n < |s| ==> s[n] == LF
  {
    if s == [] || s[0] == LF then 0
    else
      var n := 1 + NewlineAt(s[1..]);
      assert s[..n] == [s[0]] + s[1..][..n - 1];
      n
  }

  predicate IsTerminator(line: seq<Byte>) {
    line == [DOT, CR, LF] || line == [DOT, LF] || line == [DOT]
  }

  function Prefix(s: seq<Byte>, n: nat): seq<Byte> {
    if n <= |s| then s[..n] else s
  }

  predicate EndsLine(s: seq<Byte>) {
    s != [] && s[|s| - 1] == LF
  }

  lemma TakeUpToNewline(head: seq<Byte>, available: seq<Byte>)
    requires Open(head)
    ensures var pos := NewlineAt(available);
            if pos < |available| then IsLine(head + available[..pos + 1]) else Open(head + available)
  {
    var pos := NewlineAt(available);
    if pos < |available| {
      var line := head + available[..pos + 1];
      assert line[..|line| - 1] == head + available[..pos];
    } else {
      assert available[..pos] == available;
    }
  }

  /**
   * Takes a line off the stream, giving up past `maxLen` bytes.
   *
   * How much of an overlong line is taken depends on how it was split, but
   * whether it is overlong does not.
   */
  method ReadLine(stream: ByteStream, maxLen: nat) returns (buf: seq<Byte>, tooLong: bool)
    requires stream.Valid()
    modifies stream
    ensures stream.Valid()
    ensures old(stream.Unread()) == buf + stream.Unread()
    ensures tooLong <==> maxLen < LineLen(old(stream.Unread()))
    ensures if tooLong then maxLen < |buf| && (IsLine(buf) || Open(buf))
            else IsLine(buf) || (Open(buf) && stream.Unread() == [])
  {
    hide LineLen, NewlineAt;
    ghost var u := stream.Unread();
    buf, tooLong := [], false;
    while true
      invariant stream.Valid()
      invariant !tooLong && |buf| <= maxLen
      invariant u == buf + stream.Unread()
      invariant Open(buf)
      decreases |stream.Unread()|
    {
      LineLenAfterOpen(buf, stream.Unread());
      var available := stream.FillBuf();
      if available == [] {
        return;
      }
      var pos := NewlineAt(available);
      var newline := pos < |available|;
      var taken := if newline then pos + 1 else |available|;
      TakeUpToNewline(buf, available);
      assert !newline ==> available[..taken] == available;
      ghost var before := buf;
      buf := buf + available[..taken];
      stream.Consume(taken);
      assert u == buf + stream.Unread();
      if newline {
        LineLenOfLine(buf, stream.Unread());
      } else {
        LineLenAfterOpen(buf, stream.Unread());
      }
      if |buf| > maxLen {
        tooLong := true;
        return;
      }
      if newline {
        return;
      }
    }
  }

  /**
   * What the drain of `u` leaves unread: everything past the first terminator
   * line, or past the first one after the current line when the drain starts
   * in mid line. `None` if the stream ends first.
   */
  function Drain(u: seq<Byte>, midLine: bool): (rest: Option<seq<Byte>>)
    decreases |u|
  {
    var n := LineLen(u);
    if !EndsLine(u[..n]) then None
    else if !midLine && IsTerminator(u[..n]) then Some(u[n..])
    else Drain(u[n..], false)
  }

  lemma DrainOfLine(line: seq<Byte>, rest: seq<Byte>, midLine: bool)
    requires IsLine(line)
    ensures Drain(line + rest, midLine) ==
            if !midLine && IsTerminator(line) then Some(rest) else Drain(rest, false)
  {
    LineLenOfLine(line, rest);
    assert (line + rest)[..|line|] == line;
    assert (line + rest)[|line|..] == rest;
  }

  lemma DrainOfOpen(head: seq<Byte>, midLine: bool)
    requires Open(head)
    ensures Drain(head, midLine) == None
  {
    FirstLine(head);
    LineLenAfterOpen(head, []);
    assert head + [] == head;
    assert head[..|head|] == head;
  }

  /** The three-byte head of a line says whether the line is the terminator. */
  lemma HeadDecidesTerminator(line: seq<Byte>)
    requires IsLine(line)
    ensures IsTerminator(Prefix(line, |TERMINATOR|)) <==> IsTerminator(line)
  {
    if |line| > 3 {
      var head := Prefix(line, 3);
      assert line[..|line| - 1][1] == line[1] && line[..|line| - 1][2] == line[2];
      assert head[1] == line[1] && head[2] == line[2];
    }
  }

  /** One read of the drain: `more` is what it takes of the stream `more + rest`. */
  lemma DrainTakes(line: seq<Byte>, available: seq<Byte>, rest: seq<Byte>, midLine: bool)
    requires Open(line)
    ensures var pos := NewlineAt(available);
            var more := available[..if pos < |available| then pos + 1 else pos];
            var head := Prefix(line, |TERMINATOR|);
            && Prefix(line + more, |TERMINATOR|) == head + Prefix(more, |TERMINATOR| - |head|)
            && line + (more + rest) == (line + more) + rest
            && if pos < |available| then
                 Drain(line + (more + rest), midLine) ==
                 if !midLine && IsTerminator(Prefix(line + more, |TERMINATOR|)) then Some(rest)
                 else Drain(rest, false)
               else Open(line + more)
  {
    TakeUpToNewline(line, available);
    var pos := NewlineAt(available);
    if pos < |available| {
      var grown := line + available[..pos + 1];
      HeadDecidesTerminator(grown);
      DrainOfLine(grown, rest, midLine);
      assert line + (available[..pos + 1] + rest) == grown + rest;
    } else {
      assert available[..pos] == available;
      assert line + (available + rest) == (line + available) + rest;
    }
  }

  /**
   * Skips what is left of a message that was turned down. Three bytes of each
   * line decide whether it is the last, so lines of any length pass.
   */
  method DrainData(stream: ByteStream, midLine: bool) returns (terminated: bool)
    requires stream.Valid()
    modifies stream
    ensures stream.Valid()
    ensures var rest := Drain(old(stream.Unread()), midLine);
            terminated == rest.Some? &&
            stream.Unread() == if rest.Some? then rest.value else []
  {
    hide Drain, NewlineAt;
    ghost var wanted := Drain(stream.Unread(), midLine);
    ghost var line: seq<Byte> := [];
    assert line + stream.Unread() == stream.Unread();
    var mid := midLine;
    var lineHead: seq<Byte> := [];
    while true
      invariant stream.Valid()
      invariant lineHead == Prefix(line, |TERMINATOR|)
      invariant Open(line)
      invariant wanted == Drain(line + stream.Unread(), mid)
      decreases |stream.Unread()|
    {
      var available := stream.FillBuf();
      if available == [] {
        assert line + stream.Unread() == line;
        DrainOfOpen(line, mid);
        return false;
      }
      var pos := NewlineAt(available);
      var newline := pos < |available|;
      var taken := if newline then pos + 1 else |available|;
      var more := available[..taken];
      stream.Consume(taken);
      DrainTakes(line, available, stream.Unread(), mid);
      lineHead := lineHead + Prefix(more, |TERMINATOR| - |lineHead|);
      line := line + more;
      if newline {
        if !mid && IsTerminator(lineHead) {
          return true;
        }
        mid, lineHead, line := false, [], [];
        assert line + stream.Unread() == stream.Unread();
      }
    }
  }

  datatype Verdict =
    | Received(raw: seq<Byte>)
    | Disconnected
    | TooLarge
    | Dropped

  /** What the DATA phase answers, and the bytes it leaves unread. */
  datatype Outcome = Outcome(verdict: Verdict, rest: seq<Byte>)

  /** Refuses the message whose offending line has just been passed. */
  function Refuse(u: seq<Byte>): Outcome {
    var rest := Drain(u, false);
    if rest.None? then Outcome(Dropped, []) else Outcome(TooLarge, rest.value)
  }

  /** A line as it joins the message: one leading dot of two is transparency stuffing. */
  function Unstuffed(line: seq<Byte>): seq<Byte> {
    if [DOT, DOT] <= line then line[1..] else line
  }

  function Budget(received: nat, max: nat): nat {
    (if received <= max then max - received else 0) + |TERMINATOR|
  }

  /** The DATA phase as a function of the concatenated bytes alone, `data` being received so far. */
  function Receive(u: seq<Byte>, data: seq<Byte>, max: nat): Outcome
    decreases |u|
  {
    if u == [] then Outcome(Disconnected, [])
    else
      var n := LineLen(u);
      var line, rest := u[..n], u[n..];
      if n > Budget(|data|, max) then Refuse(rest)
      else if IsTerminator(line) then Outcome(Received(data), rest)
      else if |data| + n > max then Refuse(rest)
      else Receive(rest, data + Unstuffed(line), max)
  }

  /** Draining from inside a line comes to draining from the line after it. */
  lemma DrainFromMidLine(head: seq<Byte>, rest: seq<Byte>)
    requires head != [] && (IsLine(head) || Open(head))
    ensures var u := head + rest;
            Drain(rest, !EndsLine(head)) == Drain(u[LineLen(u)..], false)
  {
    var u := head + rest;
    if IsLine(head) {
      LineLenOfLine(head, rest);
      assert u[|head|..] == rest;
    } else {
      assert head[|head| - 1] in head;
      LineLenAfterOpen(head, rest);
      FirstLine(rest);
      var n := LineLen(rest);
      assert u[|head| + n..] == rest[n..];
      if IsLine(rest[..n]) {
        assert rest == rest[..n] + rest[n..];
        DrainOfLine(rest[..n], rest[n..], true);
      } else {
        DrainOfOpen(rest, true);
        DrainOfOpen([], false);
      }
    }
  }

  lemma LineOfRead(line: seq<Byte>, rest: seq<Byte>)
    requires IsLine(line) || (Open(line) && rest == [])
    ensures LineLen(line + rest) == |line|
    ensures (line + rest)[..|line|] == line && (line + rest)[|line|..] == rest
  {
    if IsLine(line) {
      LineLenOfLine(line, rest);
    } else {
      LineLenAfterOpen(line, rest);
    }
  }

  /** Reads the DATA phase. The reply and the bytes left unread never depend on the split. */
  method ReceiveData(stream: ByteStream, max: nat) returns (verdict: Verdict)
    requires stream.Valid()
    modifies stream
    ensures stream.Valid()
    ensures Outcome(verdict, stream.Unread()) == Receive(old(stream.Unread()), [], max)
  {
    ghost var wanted := Receive(stream.Unread(), [], max);
    var data: seq<Byte> := [];
    while true
      invariant stream.Valid()
      invariant Receive(stream.Unread(), data, max) == wanted
      decreases |stream.Unread()|
    {
      var line, tooLong := ReadLine(stream, Budget(|data|, max));
      if tooLong {
        DrainFromMidLine(line, stream.Unread());
        var terminated := DrainData(stream, !EndsLine(line));
        return if terminated then TooLarge else Dropped;
      }
      LineOfRead(line, stream.Unread());
      if line == [] {
        return Disconnected;
      }
      if IsTerminator(line) {
        return Received(data);
      }
      if |data| + |line| > max {
        var terminated := DrainData(stream, false);
        return if terminated then TooLarge else Dropped;
      }
      data := data + Unstuffed(line);
    }
  }
}
