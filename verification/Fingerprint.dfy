/**
 * Identifying an older database: the fields of its rows are written out as one
 * byte stream, page by page, and hashed on the way.
 */
module Fingerprint {
  import opened Bytes
  import opened Helpers

  const I64_MIN := -0x8000_0000_0000_0000
  const I64_MAX := 0x7fff_ffff_ffff_ffff
  const NULL_MARKER: Byte := 0
  const VALUE_MARKER: Byte := 1
  const FNV_OFFSET_BASIS: bv64 := 0xcbf2_9ce4_8422_2325
  const FNV_PRIME: bv64 := 0x0000_0100_0000_01b3

  /** What identifies a row of either table. Text is its UTF-8 bytes. */
  datatype Record =
    | MessageKey(rowid: int, id: Option<seq<Byte>>, isRead: Option<int>, isStarred: Option<int>,
                 tags: Option<seq<Byte>>, rawLen: Option<int>)
    | AttachmentKey(rowid: int, id: Option<seq<Byte>>, parent: Option<seq<Byte>>, contentLen: Option<int>)

  datatype Field = Int(i: int) | Text(text: Option<seq<Byte>>) | OptInt(value: Option<int>)

  function Fields(r: Record): seq<Field> {
    match r
    case MessageKey(rowid, id, isRead, isStarred, tags, rawLen) =>
      [Int(rowid), Text(id), OptInt(isRead), OptInt(isStarred), Text(tags), OptInt(rawLen)]
    case AttachmentKey(rowid, id, parent, contentLen) =>
      [Int(rowid), Text(id), Text(parent), OptInt(contentLen)]
  }

  predicate I64(v: int) {
    I64_MIN <= v <= I64_MAX
  }

  /** A value SQLite can hand over: integers of 64 bits, texts shorter than 2^63 bytes. */
  predicate Storable(f: Field) {
    match f
    case Int(i) => I64(i)
    case Text(t) => t.Some? ==> |t.value| <= I64_MAX
    case OptInt(v) => v.Some? ==> I64(v.value)
  }

  predicate AllStorable(fields: seq<Field>) {
    forall i :: 0 <= i < |fields| ==> Storable(fields[i])
  }

  // ---------- The byte stream ----------

  /** The low `n` bytes of `v` in two's complement, least significant first. */
  function Le(v: int, n: nat): (bytes: seq<Byte>)
    ensures |bytes| == n
    decreases n
  {
    if n == 0 then [] else [v % 256] + Le(v / 256, n - 1)
  }

  function IntBytes(v: int): seq<Byte> {
    Le(v, 8)
  }

  function LenBytes(n: nat): seq<Byte> {
    IntBytes(if n <= I64_MAX then n else I64_MAX)
  }

  function FieldBytes(f: Field): seq<Byte> {
    match f
    case Int(i) => IntBytes(i)
    case Text(None) => [NULL_MARKER]
    case Text(Some(text)) => [VALUE_MARKER] + LenBytes(|text|) + text
    case OptInt(None) => [NULL_MARKER]
    case OptInt(Some(v)) => [VALUE_MARKER] + IntBytes(v)
  }

  function FieldsBytes(fields: seq<Field>): seq<Byte> {
    if fields == [] then [] else FieldBytes(fields[0]) + FieldsBytes(fields[1..])
  }

  function RecordsBytes(records: seq<Record>): seq<Byte> {
    if records == [] then [] else FieldsBytes(Fields(records[0])) + RecordsBytes(records[1..])
  }

  /** All that is hashed: the messages, the attachments, and how many there were of each. */
  function Stream(messages: seq<Record>, attachments: seq<Record>): seq<Byte> {
    RecordsBytes(messages) + RecordsBytes(attachments) + LenBytes(|messages|) + LenBytes(|attachments|)
  }

  // ---------- The stream tells its contents ----------

  function Pow256(n: nat): (p: int)
    ensures 1 <= p
  {
    if n == 0 then 1 else 256 * Pow256(n - 1)
  }

  lemma {:induction false} LeInjective(v: int, w: int, n: nat)
    requires Le(v, n) == Le(w, n) && -Pow256(n) < v - w < Pow256(n)
    ensures v == w
    decreases n
  {
    if n > 0 {
      assert Le(v, n)[0] == v % 256 && Le(w, n)[0] == w % 256;
      assert Le(v, n)[1..] == Le(v / 256, n - 1) && Le(w, n)[1..] == Le(w / 256, n - 1);
      assert v == 256 * (v / 256) + v % 256 && w == 256 * (w / 256) + w % 256;
      LeInjective(v / 256, w / 256, n - 1);
    }
  }

  lemma IntBytesInjective(v: int, w: int)
    requires I64(v) && I64(w) && IntBytes(v) == IntBytes(w)
    ensures v == w
  {
    assert Pow256(8) == 0x1_0000_0000_0000_0000 by {
      assert Pow256(1) == 256 && Pow256(2) == 0x1_0000 && Pow256(3) == 0x100_0000 && Pow256(4) == 0x1_0000_0000;
      assert Pow256(5) == 0x100_0000_0000 && Pow256(6) == 0x1_0000_0000_0000 && Pow256(7) == 0x100_0000_0000_0000;
    }
    LeInjective(v, w, 8);
  }

  /** Equal streams that begin with equally long parts agree on both parts. */
  lemma SplitEqual(a: seq<Byte>, r: seq<Byte>, b: seq<Byte>, s: seq<Byte>)
    requires a + r == b + s && |a| == |b|
    ensures a == b && r == s
  {
    assert a == (a + r)[..|a|] && b == (b + s)[..|b|];
    assert r == (a + r)[|a|..] && s == (b + s)[|b|..];
  }

  predicate SameKind(f: Field, g: Field) {
    (f.Int? <==> g.Int?) && (f.Text? <==> g.Text?)
  }

  /** A field of known kind can be read off the front of any stream. */
  lemma FieldReadable(f: Field, r: seq<Byte>, g: Field, s: seq<Byte>)
    requires Storable(f) && Storable(g) && SameKind(f, g) && FieldBytes(f) + r == FieldBytes(g) + s
    ensures f == g && r == s
  {
    var a, b := FieldBytes(f), FieldBytes(g);
    assert (a + r)[0] == a[0] && (b + s)[0] == b[0];
    match f
    case Int(i) =>
      SplitEqual(a, r, b, s);
      IntBytesInjective(i, g.i);
    case OptInt(v) =>
      assert v.Some? <==> g.value.Some?;
      SplitEqual(a, r, b, s);
      if v.Some? {
        assert a[1..] == IntBytes(v.value) && b[1..] == IntBytes(g.value.value);
        IntBytesInjective(v.value, g.value.value);
      }
    case Text(t) =>
      assert t.Some? <==> g.text.Some?;
      if t.Some? {
        TextReadable(t.value, r, g.text.value, s);
      } else {
        SplitEqual(a, r, b, s);
      }
  }

  lemma Regroup(a: seq<Byte>, b: seq<Byte>, c: seq<Byte>, d: seq<Byte>)
    ensures a + b + c + d == a + (b + (c + d))
  {
  }

  lemma TextReadable(t: seq<Byte>, r: seq<Byte>, u: seq<Byte>, s: seq<Byte>)
    requires |t| <= I64_MAX && |u| <= I64_MAX
    requires [VALUE_MARKER] + LenBytes(|t|) + t + r == [VALUE_MARKER] + LenBytes(|u|) + u + s
    ensures t == u && r == s
  {
    var c, d := LenBytes(|t|), LenBytes(|u|);
    assert |c| == 8 && |d| == 8;
    assert c == IntBytes(|t|) && d == IntBytes(|u|);
    hide *;
    Regroup([VALUE_MARKER], c, t, r);
    Regroup([VALUE_MARKER], d, u, s);
    SplitEqual([VALUE_MARKER], c + (t + r), [VALUE_MARKER], d + (u + s));
    SplitEqual(c, t + r, d, u + s);
    IntBytesInjective(|t|, |u|);
    SplitEqual(t, r, u, s);
  }

  lemma Assoc(a: seq<Byte>, b: seq<Byte>, c: seq<Byte>)
    ensures a + b + c == a + (b + c)
  {
  }

  lemma {:induction false} FieldsReadable(fs: seq<Field>, r: seq<Byte>, gs: seq<Field>, s: seq<Byte>)
    requires |fs| == |gs| && AllStorable(fs) && AllStorable(gs) && forall i :: 0 <= i < |fs| ==> SameKind(fs[i], gs[i])
    requires FieldsBytes(fs) + r == FieldsBytes(gs) + s
    ensures fs == gs && r == s
    decreases |fs|
  {
    if fs == [] {
      assert FieldsBytes(fs) + r == r && FieldsBytes(gs) + s == s;
    } else {
      var f, ft, g, gt := fs[0], fs[1..], gs[0], gs[1..];
      assert FieldsBytes(fs) == FieldBytes(f) + FieldsBytes(ft) && FieldsBytes(gs) == FieldBytes(g) + FieldsBytes(gt);
      assert Storable(fs[0]) && Storable(gs[0]) && SameKind(fs[0], gs[0]);
      assert AllStorable(ft) && AllStorable(gt);
      assert forall i :: 0 <= i < |ft| ==> SameKind(ft[i], gt[i]);
      hide *;
      Assoc(FieldBytes(f), FieldsBytes(ft), r);
      Assoc(FieldBytes(g), FieldsBytes(gt), s);
      FieldReadable(f, FieldsBytes(ft) + r, g, FieldsBytes(gt) + s);
      FieldsReadable(ft, r, gt, s);
      assert fs == [f] + ft && gs == [g] + gt;
    }
  }

  predicate AllOf(records: seq<Record>, messages: bool) {
    forall i :: 0 <= i < |records| ==> records[i].MessageKey? == messages && AllStorable(Fields(records[i]))
  }

  /** A known number of rows of one table can be read off the front of any stream. */
  lemma {:induction false} RecordsReadable(rs: seq<Record>, r: seq<Byte>, qs: seq<Record>, s: seq<Byte>, messages: bool)
    requires |rs| == |qs| && AllOf(rs, messages) && AllOf(qs, messages)
    requires RecordsBytes(rs) + r == RecordsBytes(qs) + s
    ensures rs == qs && r == s
    decreases |rs|
  {
    if rs == [] {
      assert RecordsBytes(rs) + r == r && RecordsBytes(qs) + s == s;
    } else {
      var a, at, b, bt := rs[0], rs[1..], qs[0], qs[1..];
      FirstRecord(rs, messages);
      FirstRecord(qs, messages);
      hide *;
      Assoc(FieldsBytes(Fields(a)), RecordsBytes(at), r);
      Assoc(FieldsBytes(Fields(b)), RecordsBytes(bt), s);
      SameShape(a, b);
      FieldsReadable(Fields(a), RecordsBytes(at) + r, Fields(b), RecordsBytes(bt) + s);
      FieldsTell(a, b);
      RecordsReadable(at, r, bt, s, messages);
      assert rs == [a] + at && qs == [b] + bt;
    }
  }

  lemma FirstRecord(records: seq<Record>, messages: bool)
    requires records != [] && AllOf(records, messages)
    ensures RecordsBytes(records) == FieldsBytes(Fields(records[0])) + RecordsBytes(records[1..])
    ensures records[0].MessageKey? == messages && AllStorable(Fields(records[0])) && AllOf(records[1..], messages)
  {
    hide Fields, AllStorable, FieldsBytes;
  }

  lemma SameShape(r: Record, q: Record)
    requires r.MessageKey? == q.MessageKey?
    ensures |Fields(r)| == |Fields(q)| && forall i :: 0 <= i < |Fields(r)| ==> SameKind(Fields(r)[i], Fields(q)[i])
  {
  }

  lemma FieldsTell(r: Record, q: Record)
    requires r.MessageKey? == q.MessageKey? && Fields(r) == Fields(q)
    ensures r == q
  {
    var f, g := Fields(r), Fields(q);
    assert f[0] == g[0] && f[1] == g[1] && f[2] == g[2] && f[3] == g[3];
    if r.MessageKey? {
      assert f[4] == g[4] && f[5] == g[5];
    }
  }

  predicate Database(messages: seq<Record>, attachments: seq<Record>) {
    && AllOf(messages, true) && AllOf(attachments, false) && |messages| <= I64_MAX && |attachments| <= I64_MAX
  }

  /** Two databases that are hashed alike before the hash are the same in every field hashed. */
  lemma StreamInjective(ms: seq<Record>, attachments: seq<Record>, ns: seq<Record>, others: seq<Record>)
    requires Database(ms, attachments) && Database(ns, others)
    requires Stream(ms, attachments) == Stream(ns, others)
    ensures ms == ns && attachments == others
  {
    var m, a, n, o := RecordsBytes(ms), RecordsBytes(attachments), RecordsBytes(ns), RecordsBytes(others);
    var c, d, e, f := LenBytes(|ms|), LenBytes(|attachments|), LenBytes(|ns|), LenBytes(|others|);
    assert |c| == 8 && |d| == 8 && |e| == 8 && |f| == 8;
    assert c == IntBytes(|ms|) && d == IntBytes(|attachments|) && e == IntBytes(|ns|) && f == IntBytes(|others|);
    assert m + a + c + d == n + o + e + f;
    hide *;
    Assoc(m + a, c, d);
    Assoc(n + o, e, f);
    SplitEqualEnds(m + a, c + d, n + o, e + f);
    SplitEqual(c, d, e, f);
    IntBytesInjective(|ms|, |ns|);
    IntBytesInjective(|attachments|, |others|);
    RecordsReadable(ms, a, ns, o, true);
    assert a + [] == a && o + [] == o;
    RecordsReadable(attachments, [], others, [], false);
  }

  lemma SplitEqualEnds(a: seq<Byte>, r: seq<Byte>, b: seq<Byte>, s: seq<Byte>)
    requires a + r == b + s && |r| == |s|
    ensures a == b && r == s
  {
    assert |a| == |b|;
    SplitEqual(a, r, b, s);
  }

  // ---------- Hashing ----------

  function Mix(hash: bv64, byte: Byte): bv64 {
    (hash ^ (byte as bv64)) * FNV_PRIME
  }

  function Fold(hash: bv64, bytes: seq<Byte>): bv64 {
    if bytes == [] then hash else Mix(Fold(hash, bytes[..|bytes| - 1]), bytes[|bytes| - 1])
  }

  lemma {:induction false} FoldConcat(hash: bv64, a: seq<Byte>, b: seq<Byte>)
    ensures Fold(hash, a + b) == Fold(Fold(hash, a), b)
    decreases |b|
  {
    hide Mix;
    if b == [] {
      assert a + b == a;
    } else {
      var n := |b| - 1;
      FoldConcat(hash, a, b[..n]);
      assert (a + b)[..|a + b| - 1] == a + b[..n];
    }
  }

  /** The published FNV-1a value of the one-byte text "a". */
  lemma ReferenceVector()
    ensures Fold(FNV_OFFSET_BASIS, [97]) == 0xaf63_dc4c_8601_ec8c
  {
    assert [97][..0] == [];
    assert Fold(FNV_OFFSET_BASIS, [97]) == Mix(FNV_OFFSET_BASIS, 97);
    assert (97 as Byte) as bv64 == 97 as bv64;
  }

  class Fnv1a {
    var value: bv64
    /** Everything hashed so far. */
    ghost var stream: seq<Byte>

    constructor ()
      ensures Valid() && stream == []
    {
      value, stream := FNV_OFFSET_BASIS, [];
    }

    ghost predicate Valid() reads this {
      value == Fold(FNV_OFFSET_BASIS, stream)
    }

    method Bytes(bytes: seq<Byte>)
      requires Valid()
      modifies this
      ensures Valid() && stream == old(stream) + bytes
    {
      hide Mix;
      var i := 0;
      while i < |bytes|
        invariant 0 <= i <= |bytes| && stream == old(stream)
        invariant value == Fold(old(value), bytes[..i])
      {
        assert bytes[..i + 1][..i] == bytes[..i];
        value := Mix(value, bytes[i]);
        i := i + 1;
      }
      assert bytes[..i] == bytes;
      FoldConcat(FNV_OFFSET_BASIS, stream, bytes);
      stream := stream + bytes;
    }

    method HashField(f: Field)
      requires Valid()
      modifies this
      ensures Valid() && stream == old(stream) + FieldBytes(f)
    {
      hide Fold, Le;
      match f {
        case Int(i) => Bytes(IntBytes(i));
        case Text(None) => Bytes([NULL_MARKER]);
        case Text(Some(text)) =>
          Bytes([VALUE_MARKER]);
          Bytes(LenBytes(|text|));
          Bytes(text);
        case OptInt(None) => Bytes([NULL_MARKER]);
        case OptInt(Some(v)) =>
          Bytes([VALUE_MARKER]);
          Bytes(IntBytes(v));
      }
    }

    /** Writes out one row, field by field. */
    method HashRecord(r: Record)
      requires Valid()
      modifies this
      ensures Valid() && stream == old(stream) + FieldsBytes(Fields(r))
    {
      hide Fold, FieldBytes, FieldsBytes, Fields;
      var fields := Fields(r);
      var i := 0;
      NoFields();
      while i < |fields|
        invariant 0 <= i <= |fields| && Valid()
        invariant stream == old(stream) + FieldsBytes(fields[..i])
      {
        HashField(fields[i]);
        FieldsSnoc(fields[..i], fields[i]);
        assert fields[..i + 1] == fields[..i] + [fields[i]];
        i := i + 1;
      }
      assert fields[..i] == fields;
    }

    method HashRecords(records: seq<Record>)
      requires Valid()
      modifies this
      ensures Valid() && stream == old(stream) + RecordsBytes(records)
    {
      hide Fold, FieldsBytes, Fields, RecordsBytes;
      var i := 0;
      NoFields();
      while i < |records|
        invariant 0 <= i <= |records| && Valid()
        invariant stream == old(stream) + RecordsBytes(records[..i])
      {
        HashRecord(records[i]);
        RecordsSnoc(records[..i], records[i]);
        assert records[..i + 1] == records[..i] + [records[i]];
        i := i + 1;
      }
      assert records[..i] == records;
    }

    /** Hashes a table page by page. */
    method Scan(table: seq<Record>, pageRows: nat) returns (count: nat, rawBytes: nat)
      requires Valid() && ByRowid(table) && 1 <= pageRows
      modifies this
      ensures Valid() && stream == old(stream) + RecordsBytes(Above(table, I64_MIN))
      ensures count == |Above(table, I64_MIN)| && rawBytes == RawTotal(Above(table, I64_MIN))
    {
      hide Fold, RecordsBytes, Above, ByRowid, RawTotal;
      count, rawBytes := 0, 0;
      var after := I64_MIN;
      ghost var done: seq<Record> := [];
      NoFields();
      while true
        invariant Valid() && stream == old(stream) + RecordsBytes(done)
        invariant done + Above(table, after) == Above(table, I64_MIN)
        invariant count == |done| && rawBytes == RawTotal(done)
        decreases |Above(table, after)|
      {
        var rows := Page(table, after, pageRows);
        if rows == [] {
          assert done + [] == done;
          break;
        }
        NextPage(table, after, pageRows);
        after := rows[|rows| - 1].rowid;
        HashRecords(rows);
        RecordsConcat(done, rows);
        RawTotalConcat(done, rows);
        var more := RawLengths(rows);
        rawBytes := rawBytes + more;
        count := count + |rows|;
        done := done + rows;
      }
    }
  }

  /** Bytes of raw source in a page; lengths that are absent or negative count nothing. */
  method RawLengths(rows: seq<Record>) returns (total: nat)
    ensures total == RawTotal(rows)
  {
    total := 0;
    var i := 0;
    while i < |rows|
      invariant 0 <= i <= |rows| && total == RawTotal(rows[..i])
    {
      assert rows[..i + 1][..i] == rows[..i];
      total := total + RawLength(rows[i]);
      i := i + 1;
    }
    assert rows[..i] == rows;
  }

  function RawLength(r: Record): nat {
    if r.MessageKey? && r.rawLen.Some? && 0 <= r.rawLen.value then r.rawLen.value else 0
  }

  /** Only the messages count, each for as many bytes as its content has, if that is known and not negative. */
  lemma WhatCounts(m: Record, n: int)
    ensures m.MessageKey? && n >= 0 ==> RawLength(m.(rawLen := Some(n))) == n
    ensures m.MessageKey? && n < 0 ==> RawLength(m.(rawLen := Some(n))) == 0
    ensures m.MessageKey? ==> RawLength(m.(rawLen := None)) == 0
    ensures m.AttachmentKey? ==> RawLength(m) == 0
  {
  }

  function RawTotal(rows: seq<Record>): nat {
    if rows == [] then 0 else RawTotal(rows[..|rows| - 1]) + RawLength(rows[|rows| - 1])
  }

  lemma {:induction false} RawTotalConcat(a: seq<Record>, b: seq<Record>)
    ensures RawTotal(a + b) == RawTotal(a) + RawTotal(b)
    decreases |b|
  {
    if b == [] {
      assert a + b == a;
    } else {
      var n := |b| - 1;
      RawTotalConcat(a, b[..n]);
      assert (a + b)[..|a + b| - 1] == a + b[..n];
    }
  }

  lemma NoFields()
    ensures FieldsBytes([]) == [] && RecordsBytes([]) == [] && RawTotal([]) == 0
  {
  }

  lemma {:induction false} FieldsSnoc(fields: seq<Field>, f: Field)
    ensures FieldsBytes(fields + [f]) == FieldsBytes(fields) + FieldBytes(f)
  {
    hide FieldBytes;
    if fields == [] {
      assert fields + [f] == [f] && [f][1..] == [];
      assert FieldBytes(f) + [] == FieldBytes(f) && [] + FieldBytes(f) == FieldBytes(f);
    } else {
      FieldsSnoc(fields[1..], f);
      assert (fields + [f])[1..] == fields[1..] + [f] && (fields + [f])[0] == fields[0];
      Assoc(FieldBytes(fields[0]), FieldsBytes(fields[1..]), FieldBytes(f));
    }
  }

  lemma {:induction false} RecordsSnoc(records: seq<Record>, r: Record)
    ensures RecordsBytes(records + [r]) == RecordsBytes(records) + FieldsBytes(Fields(r))
  {
    hide Fields, FieldsBytes;
    if records == [] {
      assert records + [r] == [r] && [r][1..] == [];
      assert FieldsBytes(Fields(r)) + [] == FieldsBytes(Fields(r)) &&
             [] + FieldsBytes(Fields(r)) == FieldsBytes(Fields(r));
    } else {
      RecordsSnoc(records[1..], r);
      assert (records + [r])[1..] == records[1..] + [r] && (records + [r])[0] == records[0];
      Assoc(FieldsBytes(Fields(records[0])), RecordsBytes(records[1..]), FieldsBytes(Fields(r)));
    }
  }

  lemma {:induction false} RecordsConcat(a: seq<Record>, b: seq<Record>)
    ensures RecordsBytes(a + b) == RecordsBytes(a) + RecordsBytes(b)
  {
    hide Fields, FieldsBytes;
    if a == [] {
      assert a + b == b && [] + RecordsBytes(b) == RecordsBytes(b);
    } else {
      RecordsConcat(a[1..], b);
      assert (a + b)[1..] == a[1..] + b && (a + b)[0] == a[0];
      Assoc(FieldsBytes(Fields(a[0])), RecordsBytes(a[1..]), RecordsBytes(b));
    }
  }

  // ---------- Pages ----------

  predicate ByRowid(rows: seq<Record>) {
    forall i, j :: 0 <= i < j < |rows| ==> rows[i].rowid < rows[j].rowid
  }

  /** How many rows of a table sit at rowid `after` or before. */
  function Skipped(rows: seq<Record>, after: int): (k: nat)
    ensures k <= |rows| && (forall i :: 0 <= i < k ==> rows[i].rowid <= after) && (k < |rows| ==> after < rows[k].rowid)
  {
    if rows == [] || after < rows[0].rowid then 0 else 1 + Skipped(rows[1..], after)
  }

  /** The rows of a table after rowid `after`. */
  function Above(rows: seq<Record>, after: int): seq<Record> {
    rows[Skipped(rows, after)..]
  }

  function Page(rows: seq<Record>, after: int, limit: nat): seq<Record> {
    var left := Above(rows, after);
    if |left| <= limit then left else left[..limit]
  }

  /** A page leaves for later exactly the rows after its last one. */
  lemma NextPage(rows: seq<Record>, after: int, limit: nat)
    requires ByRowid(rows) && 1 <= limit && Page(rows, after, limit) != []
    ensures var page := Page(rows, after, limit);
            page + Above(rows, page[|page| - 1].rowid) == Above(rows, after)
  {
    var page, k := Page(rows, after, limit), Skipped(rows, after);
    var end := k + |page| - 1;
    assert page == rows[k..end + 1];
    assert page[|page| - 1] == rows[end];
    SkippedAt(rows, end);
    assert rows[k..] == rows[k..end + 1] + rows[end + 1..];
  }

  lemma {:induction false} SkippedAt(rows: seq<Record>, k: nat)
    requires ByRowid(rows) && k < |rows|
    ensures Skipped(rows, rows[k].rowid) == k + 1
  {
    if k > 0 {
      SkippedAt(rows[1..], k - 1);
    }
  }

  datatype SourcePrint = SourcePrint(fingerprint: bv64, messages: nat, attachments: nat, rawBytes: nat)

  /** Fingerprints a database, whatever the page size. `attachments` is absent in a file without that table. */
  method Print(messages: seq<Record>, attachments: Option<seq<Record>>, pageRows: nat)
    returns (sourcePrint: SourcePrint)
    requires ByRowid(messages) && (attachments.Some? ==> ByRowid(attachments.value)) && 1 <= pageRows
    ensures var ms := Above(messages, I64_MIN);
            var rest := if attachments.Some? then Above(attachments.value, I64_MIN) else [];
            sourcePrint == SourcePrint(Fold(FNV_OFFSET_BASIS, Stream(ms, rest)), |ms|, |rest|, RawTotal(ms))
  {
    hide Fold, RecordsBytes, Above, ByRowid, RawTotal, LenBytes;
    var hash := new Fnv1a();
    var count, rawBytes := hash.Scan(messages, pageRows);
    var attached := 0;
    NoFields();
    if attachments.Some? {
      var ignored;
      attached, ignored := hash.Scan(attachments.value, pageRows);
    }
    hash.Bytes(LenBytes(count));
    hash.Bytes(LenBytes(attached));
    ghost var ms := Above(messages, I64_MIN);
    ghost var rest := if attachments.Some? then Above(attachments.value, I64_MIN) else [];
    assert hash.stream == [] + RecordsBytes(ms) + RecordsBytes(rest) + LenBytes(|ms|) + LenBytes(|rest|);
    Joined(RecordsBytes(ms), RecordsBytes(rest), LenBytes(|ms|), LenBytes(|rest|));
    sourcePrint := SourcePrint(hash.value, count, attached, rawBytes);
  }

  lemma Joined(a: seq<Byte>, b: seq<Byte>, c: seq<Byte>, d: seq<Byte>)
    ensures [] + a + b + c + d == a + b + c + d && a + [] == a
  {
    assert [] + a == a;
  }

  predicate NoLowest(rows: seq<Record>) {
    rows == [] || rows[0].rowid != I64_MIN
  }

  /**
   * The scan hashes what one unpaged scan would, unless a row sits at the
   * lowest rowid there is: such a row is never read.
   */
  lemma PagedIsUnpaged(messages: seq<Record>, attachments: seq<Record>)
    requires Database(messages, attachments) && ByRowid(messages) && ByRowid(attachments)
    ensures Stream(Above(messages, I64_MIN), Above(attachments, I64_MIN)) == Stream(messages, attachments)
        <==> NoLowest(messages) && NoLowest(attachments)
  {
    LowestSkipped(messages, true);
    LowestSkipped(attachments, false);
    hide *;
    var ms, rest := Above(messages, I64_MIN), Above(attachments, I64_MIN);
    if Stream(ms, rest) == Stream(messages, attachments) {
      StreamInjective(ms, rest, messages, attachments);
    }
  }

  const LOWEST := MessageKey(I64_MIN, None, None, None, None, None)

  lemma LowestStored()
    ensures Database([LOWEST], []) && ByRowid([LOWEST]) && !NoLowest([LOWEST])
  {
    var fields := Fields(LOWEST);
    assert fields == [Int(I64_MIN), Text(None), OptInt(None), OptInt(None), Text(None), OptInt(None)];
    assert AllStorable(fields);
  }

  lemma LowestNotAbove()
    ensures Above([LOWEST], I64_MIN) == [] && Above([], I64_MIN) == []
  {
    assert [LOWEST][1..] == [];
    assert Skipped([LOWEST], I64_MIN) == 1 + Skipped([], I64_MIN);
  }

  /** The input that shows it: the one row of a table, at the lowest rowid, is left out of the stream. */
  lemma LowestRowLost()
    ensures Database([LOWEST], []) && ByRowid([LOWEST]) && Above([LOWEST], I64_MIN) == []
    ensures Stream(Above([LOWEST], I64_MIN), []) != Stream([LOWEST], [])
  {
    hide *;
    LowestStored();
    LowestNotAbove();
    NoRows();
    PagedIsUnpaged([LOWEST], []);
  }

  lemma NoRows()
    ensures ByRowid([])
  {
  }

  lemma LowestSkipped(rows: seq<Record>, messages: bool)
    requires AllOf(rows, messages) && ByRowid(rows)
    ensures AllOf(Above(rows, I64_MIN), messages) && |Above(rows, I64_MIN)| <= |rows|
    ensures Above(rows, I64_MIN) == rows <==> NoLowest(rows)
  {
    if rows != [] {
      assert Storable(Fields(rows[0])[0]);
    }
  }
}
