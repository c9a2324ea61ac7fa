/**
 * What the DATA phase amounts to: an exact account of every stream, and the
 * round trip with a sender that follows the transparency rule.
 */
module SmtpDataLaws {
  import opened Bytes
  import opened SmtpData

  const CRLF: seq<Byte> := [CR, LF]

  /** The lines of a message as sent: each ends in a line feed and none is the terminator. */
  predicate BodyLines(lines: seq<seq<Byte>>) {
    forall i :: 0 <= i < |lines| ==> IsLine(lines[i]) && !IsTerminator(lines[i])
  }

  /** The message that body lines carry. */
  function Message(lines: seq<seq<Byte>>): seq<Byte> {
    if lines == [] then [] else Unstuffed(lines[0]) + Message(lines[1..])
  }

  predicate Stuffed(line: seq<Byte>) {
    [DOT, DOT] <= line
  }

  /** The room body lines take: the message, and one byte more while its last line is still stuffed. */
  function Room(lines: seq<seq<Byte>>): nat {
    |Message(lines)| + if lines != [] && Stuffed(lines[|lines| - 1]) then 1 else 0
  }

  lemma {:induction false} DrainSkipsBody(lines: seq<seq<Byte>>, tail: seq<Byte>)
    requires BodyLines(lines)
    ensures Drain(Flatten(lines) + tail, false) == Drain(tail, false)
  {
    if lines == [] {
      assert Flatten(lines) + tail == tail;
    } else {
      var later := Flatten(lines[1..]) + tail;
      assert Flatten(lines) + tail == lines[0] + later;
      DrainOfLine(lines[0], later, false);
      DrainSkipsBody(lines[1..], tail);
    }
  }

  /** A body line that fits is received. */
  lemma ReceiveOfLine(line: seq<Byte>, later: seq<Byte>, data: seq<Byte>, max: nat)
    requires IsLine(line) && !IsTerminator(line) && |data| + |line| <= max
    ensures Receive(line + later, data, max) == Receive(later, data + Unstuffed(line), max)
  {
    LineOfRead(line, later);
  }

  lemma RefuseOfLine(line: seq<Byte>, later: seq<Byte>, data: seq<Byte>, max: nat)
    requires IsLine(line) && !IsTerminator(line) && max < |data| + |line|
    ensures Receive(line + later, data, max) == Refuse(later)
  {
    LineOfRead(line, later);
  }

  lemma ReceiveOfTerminator(line: seq<Byte>, later: seq<Byte>, data: seq<Byte>, max: nat)
    requires IsLine(line) && IsTerminator(line)
    ensures Receive(line + later, data, max) == Outcome(Received(data), later)
  {
    LineOfRead(line, later);
  }

  /** The room of body lines, line by line: a refused first line leaves no room for the rest either. */
  lemma RoomStep(lines: seq<seq<Byte>>)
    requires BodyLines(lines) && lines != []
    ensures var later := lines[1..];
            && Room(lines) >= |lines[0]|
            && if later == [] then Room(lines) == |lines[0]|
               else Room(lines) == |Unstuffed(lines[0])| + Room(later)
  {
    var later := lines[1..];
    if later == [] {
      assert Message(later) == [];
    } else {
      assert later[|later| - 1] == lines[|lines| - 1];
      MessageNotEmpty(later);
    }
  }

  /** Body lines that fit are received in full. */
  lemma {:induction false} ReceiveBody(lines: seq<seq<Byte>>, tail: seq<Byte>, data: seq<Byte>, max: nat)
    requires BodyLines(lines) && |data| + Room(lines) <= max
    ensures Receive(Flatten(lines) + tail, data, max) == Receive(tail, data + Message(lines), max)
  {
    hide Receive;
    if lines == [] {
      assert Flatten(lines) + tail == tail;
      assert data + Message(lines) == data;
    } else {
      var line, others := lines[0], lines[1..];
      var later := Flatten(others) + tail;
      assert Flatten(lines) + tail == line + later;
      RoomStep(lines);
      ReceiveOfLine(line, later, data, max);
      var grown := data + Unstuffed(line);
      assert grown + Message(others) == data + Message(lines);
      ReceiveBody(others, tail, grown, max);
    }
  }

  /** Body lines that do not fit are refused from some line on. */
  lemma {:induction false} RefuseBody(lines: seq<seq<Byte>>, tail: seq<Byte>, data: seq<Byte>, max: nat)
    requires BodyLines(lines) && |data| <= max < |data| + Room(lines)
    ensures Receive(Flatten(lines) + tail, data, max) == Refuse(tail)
  {
    assert lines == [] ==> Message(lines) == [];
    var line, others := lines[0], lines[1..];
    var later := Flatten(others) + tail;
    assert Flatten(lines) + tail == line + later;
    RoomStep(lines);
    if |data| + |line| <= max {
      ReceiveOfLine(line, later, data, max);
      RefuseBody(others, tail, data + Unstuffed(line), max);
    } else {
      RefuseOfLine(line, later, data, max);
      DrainSkipsBody(others, tail);
    }
  }

  lemma MessageNotEmpty(lines: seq<seq<Byte>>)
    requires BodyLines(lines) && lines != []
    ensures Message(lines) != []
  {
  }

  /**
   * The exact acceptance bound, and resynchronisation after a refusal: a
   * terminated body is received if and only if it fits, and either way what
   * stays unread is exactly what follows the terminator.
   */
  lemma TerminatedBody(lines: seq<seq<Byte>>, terminator: seq<Byte>, rest: seq<Byte>, max: nat)
    requires BodyLines(lines) && IsLine(terminator) && IsTerminator(terminator)
    ensures Receive(Flatten(lines) + terminator + rest, [], max) ==
            Outcome(if Room(lines) <= max then Received(Message(lines)) else TooLarge, rest)
  {
    assert Flatten(lines) + terminator + rest == Flatten(lines) + (terminator + rest);
    if Room(lines) <= max {
      ReceiveBody(lines, terminator + rest, [], max);
      assert [] + Message(lines) == Message(lines);
      ReceiveOfTerminator(terminator, rest, Message(lines), max);
    } else {
      RefuseBody(lines, terminator + rest, [], max);
      DrainOfLine(terminator, rest, false);
    }
  }

  /** A last line that never ends is the terminator, is read in vain, or is refused with nobody to tell. */
  lemma ReceiveOfOpen(tail: seq<Byte>, data: seq<Byte>, max: nat)
    requires Open(tail) && |data| <= max
    ensures Receive(tail, data, max) ==
            Outcome(if tail == [DOT] then Received(data)
                    else if tail != [] && |data| + |tail| > max then Dropped
                    else Disconnected, [])
  {
    LineLenAfterOpen(tail, []);
    assert tail + [] == tail;
    assert tail[..|tail|] == tail && tail[|tail|..] == [];
    DrainOfOpen([], false);
  }

  /** No stream that ends before a terminator line is ever answered with a refusal. */
  lemma UnterminatedBody(lines: seq<seq<Byte>>, tail: seq<Byte>, max: nat)
    requires BodyLines(lines) && Open(tail)
    ensures var size := if tail == [] || tail == [DOT] then Room(lines) else
                          if |Message(lines)| + |tail| <= Room(lines) then Room(lines)
                          else |Message(lines)| + |tail|;
            Receive(Flatten(lines) + tail, [], max) ==
            Outcome(if size > max then Dropped
                    else if tail == [DOT] then Received(Message(lines))
                    else Disconnected, [])
  {
    var data := Message(lines);
    assert [] + data == data;
    if Room(lines) <= max {
      ReceiveBody(lines, tail, [], max);
      ReceiveOfOpen(tail, data, max);
    } else {
      RefuseBody(lines, tail, [], max);
      DrainOfOpen(tail, false);
    }
  }

  /** The body lines a stream starts with. */
  function LinesOf(u: seq<Byte>): (lines: seq<seq<Byte>>)
    ensures BodyLines(lines)
    decreases |u|
  {
    var n := LineLen(u);
    if IsLine(u[..n]) && !IsTerminator(u[..n]) then [u[..n]] + LinesOf(u[n..]) else []
  }

  /**
   * Every stream is body lines followed by a terminator line or by a last line
   * that never ends, so `TerminatedBody` and `UnterminatedBody` account for all of them.
   */
  lemma {:induction false} EveryStream(u: seq<Byte>) returns (terminator: seq<Byte>, rest: seq<Byte>)
    ensures u == Flatten(LinesOf(u)) + (terminator + rest)
    ensures (IsLine(terminator) && IsTerminator(terminator)) || (Open(terminator) && rest == [])
    decreases |u|
  {
    FirstLine(u);
    var n := LineLen(u);
    var line, later := u[..n], u[n..];
    if IsLine(line) && !IsTerminator(line) {
      terminator, rest := EveryStream(later);
      FlattenCons(line, LinesOf(later), terminator + rest);
    } else {
      terminator, rest := line, later;
      assert Flatten(LinesOf(u)) == [];
    }
  }

  lemma FlattenCons(line: seq<Byte>, lines: seq<seq<Byte>>, tail: seq<Byte>)
    ensures Flatten([line] + lines) + tail == line + (Flatten(lines) + tail)
  {
    assert ([line] + lines)[1..] == lines;
  }

  /** Every message that is received fits the limit. */
  lemma ReceivedFits(u: seq<Byte>, max: nat)
    ensures Receive(u, [], max).verdict.Received? ==> |Receive(u, [], max).verdict.raw| <= max
  {
    var terminator, rest := EveryStream(u);
    var lines := LinesOf(u);
    if IsLine(terminator) {
      assert u == Flatten(lines) + terminator + rest;
      TerminatedBody(lines, terminator, rest, max);
    } else {
      assert terminator + rest == terminator;
      UnterminatedBody(lines, terminator, max);
    }
  }

  // ---------- The sender ----------

  /** `raw` cut at every CRLF; a message without one is a single piece. */
  function SplitCrlf(raw: seq<Byte>): (pieces: seq<seq<Byte>>)
    ensures pieces != []
  {
    if |raw| < 2 then [raw]
    else if raw[..2] == CRLF then [[]] + SplitCrlf(raw[2..])
    else
      var later := SplitCrlf(raw[1..]);
      [[raw[0]] + later[0]] + later[1..]
  }

  predicate StartsWithDot(s: seq<Byte>) {
    s != [] && s[0] == DOT
  }

  function Stuff(piece: seq<Byte>): seq<Byte> {
    if StartsWithDot(piece) then [DOT] + piece else piece
  }

  function StuffAll(pieces: seq<seq<Byte>>): (r: seq<seq<Byte>>)
    ensures |r| == |pieces|
  {
    if pieces == [] then [] else [Stuff(pieces[0])] + StuffAll(pieces[1..])
  }

  function JoinCrlf(pieces: seq<seq<Byte>>): seq<Byte>
    requires pieces != []
  {
    if |pieces| == 1 then pieces[0] else pieces[0] + CRLF + JoinCrlf(pieces[1..])
  }

  /** `s`, ended by a CRLF if it was not. */
  function Ended(s: seq<Byte>): seq<Byte> {
    if 2 <= |s| && s[|s| - 2..] == CRLF then s else s + CRLF
  }

  /** A message as a sender transmits it after the 354 reply. */
  function ToData(raw: seq<Byte>): seq<Byte> {
    Ended(JoinCrlf(StuffAll(SplitCrlf(raw)))) + TERMINATOR
  }

  /** Every line feed follows a carriage return. */
  predicate NoBareLineFeed(raw: seq<Byte>) {
    forall i :: 0 <= i < |raw| && raw[i] == LF ==> 0 < i && raw[i - 1] == CR
  }

  predicate AllOpen(pieces: seq<seq<Byte>>) {
    forall i :: 0 <= i < |pieces| ==> Open(pieces[i])
  }

  lemma {:induction false} SplitJoins(raw: seq<Byte>)
    ensures JoinCrlf(SplitCrlf(raw)) == raw
  {
    if |raw| < 2 {
    } else if raw[..2] == CRLF {
      SplitJoins(raw[2..]);
      assert SplitCrlf(raw) == [[]] + SplitCrlf(raw[2..]);
      hide SplitCrlf;
      JoinFirst([], SplitCrlf(raw[2..]));
      assert raw == CRLF + raw[2..] && [] + CRLF == CRLF;
    } else {
      SplitJoins(raw[1..]);
      var later := SplitCrlf(raw[1..]);
      assert SplitCrlf(raw) == [[raw[0]] + later[0]] + later[1..];
      hide SplitCrlf;
      JoinLonger(raw[0], later);
      assert raw == [raw[0]] + raw[1..];
    }
  }

  lemma JoinFirst(piece: seq<Byte>, later: seq<seq<Byte>>)
    requires later != []
    ensures JoinCrlf([piece] + later) == piece + CRLF + JoinCrlf(later)
  {
    assert ([piece] + later)[1..] == later;
  }

  /** A byte put before the first piece comes before the pieces joined. */
  lemma JoinLonger(b: Byte, pieces: seq<seq<Byte>>)
    requires pieces != []
    ensures JoinCrlf([[b] + pieces[0]] + pieces[1..]) == [b] + JoinCrlf(pieces)
  {
    var longer := [[b] + pieces[0]] + pieces[1..];
    assert longer[1..] == pieces[1..];
    if |pieces| > 1 {
      var tail := JoinCrlf(pieces[1..]);
      hide JoinCrlf;
      assert [b] + pieces[0] + CRLF + tail == [b] + (pieces[0] + CRLF + tail);
    }
  }

  lemma {:induction false} SplitIsOpen(raw: seq<Byte>)
    requires NoBareLineFeed(raw)
    ensures AllOpen(SplitCrlf(raw))
  {
    if |raw| < 2 {
    } else if raw[..2] == CRLF {
      assert raw[1] == LF;
      SplitIsOpen(raw[2..]);
    } else {
      assert raw[..2] == [raw[0], raw[1]];
      SplitIsOpen(raw[1..]);
      var later := SplitCrlf(raw[1..]);
      assert Open([raw[0]] + later[0]);
    }
  }

  /** The wire lines of pieces, the last one being dropped if it is the empty piece after a final CRLF. */
  function WireLines(pieces: seq<seq<Byte>>): seq<seq<Byte>>
    requires pieces != []
  {
    [Stuff(pieces[0]) + CRLF] +
    if |pieces| == 1 || pieces[1..] == [[]] then [] else WireLines(pieces[1..])
  }

  lemma PieceLine(piece: seq<Byte>)
    requires Open(piece)
    ensures IsLine(Stuff(piece) + CRLF) && !IsTerminator(Stuff(piece) + CRLF)
    ensures Unstuffed(Stuff(piece) + CRLF) == piece + CRLF
    ensures Stuffed(Stuff(piece) + CRLF) <==> StartsWithDot(piece)
  {
    var line := Stuff(piece) + CRLF;
    assert line[..|line| - 1] == Stuff(piece) + [CR];
    assert line[0] == DOT <==> StartsWithDot(piece);
    if StartsWithDot(piece) {
      assert line == [DOT] + (piece + CRLF);
      assert line[1] == DOT;
    }
  }

  lemma EndedStep(head: seq<Byte>, later: seq<Byte>)
    ensures later != [] && later != [LF] ==> Ended(head + CRLF + later) == head + CRLF + Ended(later)
    ensures Ended(head + CRLF) == head + CRLF
  {
    var s := head + CRLF + later;
    assert (head + CRLF)[|head|..] == CRLF;
    assert s + CRLF == head + CRLF + (later + CRLF);
    if 2 <= |later| {
      assert s[|s| - 2..] == later[|later| - 2..];
    } else if |later| == 1 {
      assert s[|s| - 2..][0] == LF;
      assert Ended(later) == later + CRLF;
    }
  }

  lemma EndedOpen(piece: seq<Byte>)
    requires Open(piece)
    ensures Ended(piece) == piece + CRLF
  {
    if 2 <= |piece| {
      assert piece[|piece| - 2..][1] in piece;
    }
  }

  /** The last line: a CRLF that ends the message makes an empty last piece. */
  lemma WireOfLast(piece: seq<Byte>, ended: bool)
    requires Open(piece)
    ensures var pieces := if ended then [piece, []] else [piece];
            && BodyLines(WireLines(pieces))
            && Ended(JoinCrlf(StuffAll(pieces))) == Flatten(WireLines(pieces))
            && Ended(JoinCrlf(pieces)) == Message(WireLines(pieces))
  {
    var line := Stuff(piece) + CRLF;
    var pieces := if ended then [piece, []] else [piece];
    PieceLine(piece);
    assert WireLines(pieces) == [line];
    LineAhead(line, []);
    assert line + Flatten([]) == line && Unstuffed(line) + Message([]) == piece + CRLF;
    StuffedLast(piece, ended);
    hide WireLines, StuffAll, Flatten, Message, BodyLines, Unstuffed, Stuff;
    if ended {
      EndedStep(piece, []);
      EndedStep(Stuff(piece), []);
      assert piece + CRLF + [] == piece + CRLF && line + [] == line;
    } else {
      EndedOpen(piece);
      EndedOpen(Stuff(piece));
    }
  }

  lemma StuffedLast(piece: seq<Byte>, ended: bool)
    requires Open(piece)
    ensures StuffAll(if ended then [piece, []] else [piece]) == if ended then [Stuff(piece), []] else [Stuff(piece)]
    ensures JoinCrlf([piece, []]) == piece + CRLF + [] && JoinCrlf([Stuff(piece), []]) == Stuff(piece) + CRLF + []
    ensures Open(Stuff(piece))
  {
    assert [piece][1..] == [] && [piece, []][1..] == [[]] && [Stuff(piece), []][1..] == [[]];
    assert StuffAll([[]]) == [[]];
  }

  /** Sending pieces puts their lines on the wire, which carry the pieces joined. */
  lemma {:induction false} WireOf(pieces: seq<seq<Byte>>)
    requires pieces != [] && AllOpen(pieces)
    ensures BodyLines(WireLines(pieces))
    ensures Ended(JoinCrlf(StuffAll(pieces))) == Flatten(WireLines(pieces))
    ensures Ended(JoinCrlf(pieces)) == Message(WireLines(pieces))
  {
    var piece, later := pieces[0], pieces[1..];
    var line := Stuff(piece) + CRLF;
    PieceLine(piece);
    if later == [] || later == [[]] {
      assert pieces == if later == [] then [piece] else [piece, []];
      hide *;
      WireOfLast(piece, later == [[]]);
    } else {
      WireOf(later);
      JoinNotLineFeed(later);
      StuffAllOpen(later);
      JoinNotLineFeed(StuffAll(later));
      assert WireLines(pieces) == [line] + WireLines(later);
      assert StuffAll(pieces) == [Stuff(piece)] + StuffAll(later) && pieces == [piece] + later;
      hide *;
      LineAhead(line, WireLines(later));
      JoinFirst(piece, later);
      JoinFirst(Stuff(piece), StuffAll(later));
      EndedStep(piece, JoinCrlf(later));
      EndedStep(Stuff(piece), JoinCrlf(StuffAll(later)));
    }
  }

  /** One more body line ahead of the others. */
  lemma LineAhead(line: seq<Byte>, lines: seq<seq<Byte>>)
    requires BodyLines(lines) && IsLine(line) && !IsTerminator(line)
    ensures BodyLines([line] + lines)
    ensures Flatten([line] + lines) == line + Flatten(lines) &&
            Message([line] + lines) == Unstuffed(line) + Message(lines)
  {
    assert ([line] + lines)[1..] == lines;
  }

  lemma {:induction false} StuffAllOpen(pieces: seq<seq<Byte>>)
    requires AllOpen(pieces)
    ensures AllOpen(StuffAll(pieces))
    ensures pieces != [] && pieces != [[]] ==> StuffAll(pieces) != [[]]
  {
    if pieces != [] {
      StuffAllOpen(pieces[1..]);
    }
  }

  lemma JoinNotLineFeed(pieces: seq<seq<Byte>>)
    requires pieces != [] && pieces != [[]] && AllOpen(pieces)
    ensures JoinCrlf(pieces) != [] && JoinCrlf(pieces) != [LF]
  {
    if |pieces| > 1 {
      assert |JoinCrlf(pieces)| >= 2;
    } else {
      assert pieces == [pieces[0]];
      if LF !in pieces[0] {
        assert pieces[0] != [LF];
      }
    }
  }

  /** Whether the last line of a sent message starts with a dot. */
  predicate LastLineDotted(raw: seq<Byte>) {
    var lines := WireLines(SplitCrlf(raw));
    lines != [] && Stuffed(lines[|lines| - 1])
  }

  /**
   * The DATA round trip: what a sender transmits comes back byte for byte,
   * ended by a CRLF, exactly when it fits, and what the sender pipelines
   * behind it stays unread.
   */
  lemma RoundTrip(raw: seq<Byte>, rest: seq<Byte>, max: nat)
    requires NoBareLineFeed(raw)
    ensures Receive(ToData(raw) + rest, [], max) ==
            Outcome(if |Ended(raw)| + (if LastLineDotted(raw) then 1 else 0) <= max
                    then Received(Ended(raw)) else TooLarge, rest)
  {
    var pieces := SplitCrlf(raw);
    SplitJoins(raw);
    SplitIsOpen(raw);
    WireOf(pieces);
    assert TERMINATOR[..|TERMINATOR| - 1] == [DOT, CR];
    TerminatedBody(WireLines(pieces), TERMINATOR, rest, max);
  }

  /** The same bytes split into other reads give the same reply and leave the same bytes. */
  method SplitsAgree(a: ByteStream, b: ByteStream, max: nat) returns (first: Verdict, second: Verdict)
    requires a != b && a.Valid() && b.Valid() && a.Unread() == b.Unread()
    modifies a, b
    ensures first == second && a.Unread() == b.Unread()
  {
    first := ReceiveData(a, max);
    second := ReceiveData(b, max);
  }
}
