/** Predicting how long a base64 body decodes to, without decoding it. */
module Base64 {
  import opened Bytes
  import opened Helpers

  const QUANTUM_CHARS := 4
  const QUANTUM_BYTES := 3
  const PAD: Byte := 61

  type Sextet = v: int | 0 <= v < 64

  predicate Blank(c: Byte) {
    c == 32 || c == 9 || c == CR || c == LF
  }

  /** The value of a character of the alphabet of RFC 4648, section 4. */
  function ValueOf(c: Byte): Option<Sextet> {
    if 65 <= c <= 90 then Some(c - 65)
    else if 97 <= c <= 122 then Some(c - 71)
    else if 48 <= c <= 57 then Some(c + 4)
    else if c == 43 then Some(62)
    else if c == 47 then Some(63)
    else None
  }

  function CharOf(v: Sextet): Byte {
    if v < 26 then v + 65 else if v < 52 then v + 71 else if v < 62 then v - 4 else if v == 62 then 43 else 47
  }

  predicate Readable(body: seq<Byte>) {
    forall i :: 0 <= i < |body| ==> ValueOf(body[i]).Some? || body[i] == PAD || Blank(body[i])
  }

  // ---------- The decoder ----------

  /** The bytes a full quantum holds. */
  function Quantum(q: seq<Sextet>): (bytes: seq<Byte>)
    requires |q| == 4
    ensures |bytes| == 3
  {
    var a: int, b: int, c: int, d: int := q[0], q[1], q[2], q[3];
    [a * 4 + b / 16, b % 16 * 16 + c / 4, c % 4 * 64 + d]
  }

  /** The bytes a partial quantum holds when padding ends it. */
  function Flushed(q: seq<Sextet>): (bytes: seq<Byte>)
    requires |q| < 4
    ensures |bytes| == if |q| == 0 then 0 else if |q| == 3 then 2 else 1
  {
    if |q| == 0 then []
    else
      var a: int := q[0];
      if |q| == 1 then [a * 4]
      else
        var b: int := q[1];
        if |q| == 2 then [a * 4 + b / 16]
        else
          var c: int := q[2];
          [a * 4 + b / 16, b % 16 * 16 + c / 4]
  }

  /** What `body` decodes to after the characters `pending` of an unfinished quantum; a last partial one is dropped. */
  function Decode(body: seq<Byte>, pending: seq<Sextet>): seq<Byte>
    requires |pending| < 4 && Readable(body)
    decreases |body|
  {
    if body == [] then []
    else
      var c := body[0];
      if ValueOf(c).Some? then
        var q := pending + [ValueOf(c).value];
        if |q| == 4 then Quantum(q) + Decode(body[1..], []) else Decode(body[1..], q)
      else if c == PAD then Flushed(pending) + Decode(body[1..], [])
      else Decode(body[1..], pending)
  }

  // ---------- The prediction ----------

  lemma {:induction false} DecodeLength(body: seq<Byte>, pending: seq<Sextet>, other: seq<Sextet>)
    requires |pending| == |other| < 4 && Readable(body)
    ensures |Decode(body, pending)| == |Decode(body, other)|
    decreases |body|
  {
    if body != [] {
      var c := body[0];
      if ValueOf(c).Some? {
        if |pending| < 3 {
          DecodeLength(body[1..], pending + [ValueOf(c).value], other + [ValueOf(c).value]);
        }
      } else if c != PAD {
        DecodeLength(body[1..], pending, other);
      }
    }
  }

  /** Exactly the decoded length, or nothing for a body the decoder would refuse. */
  method PredictedLen(body: seq<Byte>) returns (len: Option<nat>)
    ensures len.Some? <==> Readable(body)
    ensures len.Some? ==> len.value == |Decode(body, [])|
  {
    var decodedLen, pendingChars := 0, 0;
    ghost var pending: seq<Sextet> := [];
    var i := 0;
    while i < |body|
      invariant 0 <= i <= |body| && pendingChars == |pending| < 4
      invariant Readable(body[..i])
      invariant Readable(body) ==> decodedLen + |Decode(body[i..], pending)| == |Decode(body, [])|
    {
      var c := body[i];
      assert Readable(body) ==> Readable(body[i..]);
      assert body[i..][0] == c && body[i..][1..] == body[i + 1..];
      assert body[..i + 1] == body[..i] + [c];
      if ValueOf(c).Some? {
        pendingChars := (pendingChars + 1) % QUANTUM_CHARS;
        if pendingChars == 0 {
          decodedLen := decodedLen + QUANTUM_BYTES;
          pending := [];
        } else {
          pending := pending + [ValueOf(c).value];
        }
      } else if c == PAD {
        decodedLen :=
          decodedLen + (if pendingChars == 1 || pendingChars == 2 then 1 else if pendingChars == 3 then 2 else 0);
        pendingChars, pending := 0, [];
      } else if !Blank(c) {
        return None;
      }
      i := i + 1;
    }
    assert body[..i] == body && body[i..] == [];
    len := Some(decodedLen);
  }

  // ---------- The encoder ----------

  /** The sextets of up to three bytes, the missing ones read as zero. */
  function Sextets(a: Byte, b: Byte, c: Byte): (q: seq<Sextet>)
    ensures |q| == 4
  {
    [a / 4, a % 4 * 16 + b / 16, b % 16 * 4 + c / 64, c % 64]
  }

  /** RFC 4648, section 4: three bytes at a time, the last group padded. */
  function Encode(payload: seq<Byte>): seq<Byte> {
    if payload == [] then []
    else if |payload| < 3 then
      var q := Sextets(payload[0], if |payload| == 2 then payload[1] else 0, 0);
      [CharOf(q[0])] + ([CharOf(q[1])] + (if |payload| == 2 then [CharOf(q[2])] + [PAD] else [PAD] + [PAD]))
    else
      var q := Sextets(payload[0], payload[1], payload[2]);
      [CharOf(q[0])] + ([CharOf(q[1])] + ([CharOf(q[2])] + ([CharOf(q[3])] + Encode(payload[3..]))))
  }

  /** `body` without its white space. */
  function Stripped(body: seq<Byte>): seq<Byte> {
    if body == [] then [] else if Blank(body[0]) then Stripped(body[1..]) else [body[0]] + Stripped(body[1..])
  }

  lemma CharValue(v: Sextet)
    ensures ValueOf(CharOf(v)) == Some(v) && CharOf(v) != PAD && !Blank(CharOf(v))
  {
  }

  /** Readable is decided character by character. */
  lemma ReadableConcat(a: seq<Byte>, b: seq<Byte>)
    ensures Readable(a + b) <==> Readable(a) && Readable(b)
  {
    var all := a + b;
    if Readable(all) {
      assert forall i :: 0 <= i < |a| ==> a[i] == all[i];
      assert forall i :: 0 <= i < |b| ==> b[i] == all[|a| + i];
    }
  }

  lemma {:induction false} StripReadable(body: seq<Byte>)
    ensures Readable(body) <==> Readable(Stripped(body))
  {
    if body != [] {
      StripReadable(body[1..]);
      ReadableConcat([body[0]], body[1..]);
      ReadableConcat([body[0]], Stripped(body[1..]));
      assert body == [body[0]] + body[1..];
      assert Blank(body[0]) ==> Readable([body[0]]);
    }
  }

  /** White space, wherever it stands, changes nothing. */
  lemma {:induction false} StripDecode(body: seq<Byte>, pending: seq<Sextet>)
    requires |pending| < 4 && Readable(body) && Readable(Stripped(body))
    ensures Decode(Stripped(body), pending) == Decode(body, pending)
    decreases |body|
  {
    if body != [] {
      var c, rest := body[0], body[1..];
      StripReadable(rest);
      if Blank(c) {
        StripDecode(rest, pending);
      } else {
        assert Stripped(body)[0] == c && Stripped(body)[1..] == Stripped(rest);
        if ValueOf(c).Some? && |pending| < 3 {
          StripDecode(rest, pending + [ValueOf(c).value]);
        } else {
          StripDecode(rest, []);
        }
      }
    }
  }

  /** A character of the alphabet joins the unfinished quantum. */
  lemma DecodeChar(v: Sextet, rest: seq<Byte>, pending: seq<Sextet>)
    requires |pending| < 4 && Readable(rest)
    ensures Readable([CharOf(v)] + rest)
    ensures Decode([CharOf(v)] + rest, pending) ==
            if |pending| == 3 then Quantum(pending + [v]) + Decode(rest, []) else Decode(rest, pending + [v])
  {
    CharValue(v);
    assert ([CharOf(v)] + rest)[1..] == rest;
  }

  lemma DecodePad(rest: seq<Byte>, pending: seq<Sextet>)
    requires |pending| < 4 && Readable(rest)
    ensures Readable([PAD] + rest)
    ensures Decode([PAD] + rest, pending) == Flushed(pending) + Decode(rest, [])
  {
    assert ([PAD] + rest)[1..] == rest;
  }

  lemma QuantumHolds(a: Byte, b: Byte, c: Byte)
    ensures Quantum(Sextets(a, b, c)) == [a, b, c]
  {
  }

  lemma PartHolds(a: Byte, b: Byte)
    ensures Flushed(Sextets(a, b, 0)[..3]) == [a, b] && Flushed(Sextets(a, 0, 0)[..2]) == [a]
  {
  }

  /** The characters of one group, in front of the rest. */
  lemma GroupDecodes(q: seq<Sextet>, rest: seq<Byte>)
    requires |q| == 4 && Readable(rest)
    ensures var text := [CharOf(q[0])] + ([CharOf(q[1])] + ([CharOf(q[2])] + ([CharOf(q[3])] + rest)));
            Readable(text) && Decode(text, []) == Quantum(q) + Decode(rest, [])
  {
    var third := [CharOf(q[3])] + rest;
    var second := [CharOf(q[2])] + third;
    var first := [CharOf(q[1])] + second;
    DecodeChar(q[3], rest, q[..3]);
    DecodeChar(q[2], third, q[..2]);
    DecodeChar(q[1], second, q[..1]);
    DecodeChar(q[0], first, []);
    assert [] + [q[0]] == q[..1] && q[..1] + [q[1]] == q[..2] && q[..2] + [q[2]] == q[..3] && q[..3] + [q[3]] == q;
  }

  /** A last group of one or two bytes. */
  lemma LastGroupDecodes(q: seq<Sextet>, two: bool)
    requires |q| == 4
    ensures var third := if two then [CharOf(q[2])] + [PAD] else [PAD] + [PAD];
            var text := [CharOf(q[0])] + ([CharOf(q[1])] + third);
            Readable(text) && Decode(text, []) == Flushed(if two then q[..3] else q[..2])
  {
    assert Readable([]) && Decode([], []) == [];
    var third := if two then [CharOf(q[2])] + [PAD] else [PAD] + [PAD];
    DecodePad([], if two then q[..3] else []);
    assert [PAD] + [] == [PAD];
    if two {
      DecodeChar(q[2], [PAD], q[..2]);
    } else {
      DecodePad([PAD], q[..2]);
    }
    var second := [CharOf(q[1])] + third;
    DecodeChar(q[1], third, q[..1]);
    DecodeChar(q[0], second, []);
    assert [] + [q[0]] == q[..1] && q[..1] + [q[1]] == q[..2] && q[..2] + [q[2]] == q[..3];
  }

  /** What is encoded decodes to itself. */
  lemma {:induction false} DecodeEncode(payload: seq<Byte>)
    ensures Readable(Encode(payload)) && Decode(Encode(payload), []) == payload
    decreases |payload|
  {
    if payload == [] {
    } else if |payload| < 3 {
      hide *;
      DecodeLast(payload);
    } else {
      hide *;
      DecodeEncode(payload[3..]);
      DecodeFirst(payload);
      assert payload == [payload[0], payload[1], payload[2]] + payload[3..];
    }
  }

  lemma DecodeLast(payload: seq<Byte>)
    requires 0 < |payload| < 3
    ensures Readable(Encode(payload)) && Decode(Encode(payload), []) == payload
  {
    hide Decode, Readable, CharOf, Quantum, Flushed, Sextets;
    var two := |payload| == 2;
    var q := Sextets(payload[0], if two then payload[1] else 0, 0);
    PartHolds(payload[0], if two then payload[1] else 0);
    LastGroupDecodes(q, two);
  }

  lemma DecodeFirst(payload: seq<Byte>)
    requires 3 <= |payload| && Readable(Encode(payload[3..]))
    ensures Readable(Encode(payload))
    ensures Decode(Encode(payload), []) == [payload[0], payload[1], payload[2]] + Decode(Encode(payload[3..]), [])
  {
    hide *;
    EncodeFirst(payload);
    QuantumHolds(payload[0], payload[1], payload[2]);
    GroupDecodes(Sextets(payload[0], payload[1], payload[2]), Encode(payload[3..]));
  }

  lemma EncodeFirst(payload: seq<Byte>)
    requires 3 <= |payload|
    ensures var q := Sextets(payload[0], payload[1], payload[2]);
            Encode(payload) ==
            [CharOf(q[0])] + ([CharOf(q[1])] + ([CharOf(q[2])] + ([CharOf(q[3])] + Encode(payload[3..]))))
  {
    hide Sextets, CharOf;
  }

  /**
   * A payload encoded with white space put in anywhere is readable and decodes
   * to the payload, and so its length is what is predicted.
   */
  lemma EncodedBodyDecodes(payload: seq<Byte>, body: seq<Byte>)
    requires Stripped(body) == Encode(payload)
    ensures Readable(body) && Decode(body, []) == payload
  {
    hide *;
    DecodeEncode(payload);
    StripReadable(body);
    StripDecode(body, []);
  }
}
