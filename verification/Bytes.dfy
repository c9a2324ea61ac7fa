/** Byte strings, and the lines a byte string is read in. */
module Bytes {
  type Byte = b: int | 0 <= b < 256

  const CR: Byte := 13
  const LF: Byte := 10
  const DOT: Byte := 46

  /** The bytes of `chunks`, in order. */
  function Flatten(chunks: seq<seq<Byte>>): seq<Byte> {
    if chunks == [] then [] else chunks[0] + Flatten(chunks[1..])
  }

  /** No line feed in `s`. */
  predicate Open(s: seq<Byte>) {
    LF !in s
  }

  /** One line: a line feed at the end and nowhere else. */
  predicate IsLine(s: seq<Byte>) {
    s != [] && s[|s| - 1] == LF && Open(s[..|s| - 1])
  }

  /** Length of the first line of `s` with its line feed, or of all of `s` if it has none. */
  function LineLen(s: seq<Byte>): (n: nat)
    ensures n <= |s|
    ensures s != [] ==> 0 < n
  {
    if s == [] then 0 else if s[0] == LF then 1 else 1 + LineLen(s[1..])
  }

  lemma {:induction false} LineLenAfterOpen(head: seq<Byte>, rest: seq<Byte>)
    requires Open(head)
    ensures LineLen(head + rest) == |head| + LineLen(rest)
  {
    if head == [] {
      assert head + rest == rest;
    } else {
      assert (head + rest)[1..] == head[1..] + rest;
      LineLenAfterOpen(head[1..], rest);
    }
  }

  lemma LineLenOfLine(line: seq<Byte>, rest: seq<Byte>)
    requires IsLine(line)
    ensures LineLen(line + rest) == |line|
  {
    var head := line[..|line| - 1];
    LineLenAfterOpen(head, [LF] + rest);
    assert line + rest == head + ([LF] + rest);
  }

  /** Cutting `s` after its first line gives a line, or all of `s` without a line feed. */
  lemma {:induction false} FirstLine(s: seq<Byte>)
    ensures IsLine(s[..LineLen(s)]) || (LineLen(s) == |s| && Open(s))
  {
    if s == [] {
    } else if s[0] == LF {
      assert s[..1] == [LF];
    } else {
      var t := s[1..];
      FirstLine(t);
      var n := LineLen(t);
      assert s[..n + 1] == [s[0]] + t[..n];
      if IsLine(t[..n]) {
        var l := s[..n + 1];
        assert l[..n] == [s[0]] + t[..n][..n - 1];
      } else {
        assert s == [s[0]] + t;
      }
    }
  }
}
