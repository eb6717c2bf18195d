/** The decoder's meaning on one contiguous encoded buffer: records are
    expanded in order until the end-of-data marker, the end of the buffer
    at a record boundary, or a record the buffer holds only part of. */
module Decoding {
  import opened Framing
  import opened Records

  /** The decoding loop of lib/hexapdf/filter/run_length_decode.rb:54-72
      run on one contiguous buffer: records are expanded in order until the
      buffer ends at a record boundary (success), the end-of-data marker is
      read (success, the rest is ignored) or the buffer ends inside a record
      (the missing-data error). */
  function DecodeAll(s: Bytes): Result
    decreases |s|
  {
    if |s| == 0 then Ok([])
    else if s[0] == EOD then Ok([])
    else if s[0] < 128 then
      if s[0] + 1 < |s| then Prepend(s[1 .. s[0] + 2], DecodeAll(s[s[0] + 2 ..]))
      else Err(MissingData([]))
    else
      if 1 < |s| then Prepend(Repeat(s[1], 257 - s[0]), DecodeAll(s[2..]))
      else Err(MissingData([]))
  }

  /** Unfolding aid, not a property: the decoder at a complete literal header. */
  lemma DecodeLiteralHead(s: Bytes)
    requires |s| > 0 && s[0] < 128 && s[0] + 1 < |s|
    ensures DecodeAll(s) == Prepend(s[1 .. s[0] + 2], DecodeAll(s[s[0] + 2 ..]))
  {
  }

  /** Unfolding aid, not a property: the decoder at a complete run header. */
  lemma DecodeRunHead(s: Bytes)
    requires |s| > 1 && s[0] > 128
    ensures DecodeAll(s) == Prepend(Repeat(s[1], 257 - s[0]), DecodeAll(s[2..]))
  {
  }

  /** A complete literal at the front of `a` decodes the same whatever follows `a`. */
  lemma DecodeLiteralPrefix(a: Bytes, b: Bytes)
    requires |a| > 0 && a[0] < 128 && a[0] + 1 < |a|
    ensures DecodeAll(a + b) == Prepend(a[1 .. a[0] + 2], DecodeAll(a[a[0] + 2 ..] + b))
  {
    var s := a + b;
    assert s[0] == a[0];
    TakeAppend(a, b, 1, a[0] + 2);
    DropAppend(a, b, a[0] + 2);
    DecodeLiteralHead(s);
  }

  /** A complete run at the front of `a` decodes the same whatever follows `a`. */
  lemma DecodeRunPrefix(a: Bytes, b: Bytes)
    requires |a| > 1 && a[0] > 128
    ensures DecodeAll(a + b) == Prepend(Repeat(a[1], 257 - a[0]), DecodeAll(a[2..] + b))
  {
    var s := a + b;
    assert s[0] == a[0] && s[1] == a[1];
    DropAppend(a, b, 2);
    DecodeRunHead(s);
  }

  /** A complete record at the front is expanded and decoding goes on right
      after it: a literal header L takes the L+1 bytes that follow, a run
      header L repeats the next byte 257-L times. */
  lemma DecodeRecord(r: Record, rest: Bytes)
    requires Valid(r)
    ensures DecodeAll(Serialize(r) + rest) == Prepend(Expand(r), DecodeAll(rest))
  {
    var s := Serialize(r) + rest;
    match r
    case Literal(d) =>
      assert s[1 .. s[0] + 2] == d;
      assert s[s[0] + 2 ..] == rest;
    case Run(v, n) =>
      assert s[1] == v;
      assert s[2..] == rest;
  }

  /** Decoding is a left inverse of serialization, record by record. */
  lemma {:induction false} DecodeRecords(rs: seq<Record>, rest: Bytes)
    requires AllValid(rs)
    ensures DecodeAll(SerializeAll(rs) + rest) == Prepend(ExpandAll(rs), DecodeAll(rest))
    decreases |rs|
  {
    if |rs| == 0 {
      assert SerializeAll(rs) + rest == rest;
      PrependEmpty(DecodeAll(rest));
    } else {
      AllValidTail(rs);
      assert SerializeAll(rs) + rest == Serialize(rs[0]) + (SerializeAll(rs[1..]) + rest);
      DecodeRecord(rs[0], SerializeAll(rs[1..]) + rest);
      DecodeRecords(rs[1..], rest);
      PrependPrepend(Expand(rs[0]), ExpandAll(rs[1..]), DecodeAll(rest));
    }
  }

  /** The end-of-data marker stops decoding: nothing after it is read. */
  lemma DecodeStopsAtEod(rs: seq<Record>, trailing: Bytes)
    requires AllValid(rs)
    ensures DecodeAll(SerializeAll(rs) + [EOD] + trailing) == Ok(ExpandAll(rs))
  {
    assert SerializeAll(rs) + [EOD] + trailing == SerializeAll(rs) + ([EOD] + trailing);
    DecodeRecords(rs, [EOD] + trailing);
    assert ExpandAll(rs) + [] == ExpandAll(rs);
  }

  /** A buffer that ends inside a record fails, after the records before it
      were expanded. */
  lemma DecodeTruncated(rs: seq<Record>, r: Record, k: nat)
    requires AllValid(rs) && Valid(r)
    requires 0 < k < |Serialize(r)|
    ensures DecodeAll(SerializeAll(rs) + Serialize(r)[..k]) == Err(MissingData(ExpandAll(rs)))
  {
    var p := Serialize(r)[..k];
    DecodeRecords(rs, p);
    assert p[0] == Header(r);
    assert ExpandAll(rs) + [] == ExpandAll(rs);
  }

  /** `t` is the start of one record, cut before its end. */
  predicate PartialRecord(t: Bytes)
  {
    |t| > 0 && t[0] != EOD && |t| < WireSize(t[0])
  }

  /** How a buffer ends after its last whole record: at the buffer's end,
      at the end-of-data marker, or inside a record. */
  datatype Ending = Clean | AtEod(trailing: Bytes) | Partial(tail: Bytes)

  function EndingBytes(e: Ending): Bytes
  {
    match e
    case Clean => []
    case AtEod(t) => [EOD] + t
    case Partial(t) => t
  }

  /** The whole record at the front of `s`. */
  function RecordAt(s: Bytes): (r: Record)
    requires |s| > 0 && s[0] != EOD && WireSize(s[0]) <= |s|
    ensures Valid(r) && Serialize(r) == s[.. WireSize(s[0])]
  {
    if s[0] < 128 then Literal(s[1 .. s[0] + 2]) else Run(s[1], 257 - s[0])
  }

  /** Every buffer is a sequence of whole records followed by an ending. */
  function Split(s: Bytes): (p: (seq<Record>, Ending))
    ensures AllValid(p.0)
    ensures p.1.Partial? ==> PartialRecord(p.1.tail)
    ensures s == SerializeAll(p.0) + EndingBytes(p.1)
    decreases |s|
  {
    if |s| == 0 then ([], Clean)
    else if s[0] == EOD then ([], AtEod(s[1..]))
    else if |s| < WireSize(s[0]) then ([], Partial(s))
    else
      var r := RecordAt(s);
      var rest := Split(s[WireSize(s[0]) ..]);
      SplitStep(s, r, rest.0, EndingBytes(rest.1));
      ([r] + rest.0, rest.1)
  }

  lemma SplitStep(s: Bytes, r: Record, rs: seq<Record>, ending: Bytes)
    requires Valid(r) && AllValid(rs)
    requires |Serialize(r)| <= |s| && Serialize(r) == s[.. |Serialize(r)|]
    requires s[|Serialize(r)| ..] == SerializeAll(rs) + ending
    ensures AllValid([r] + rs)
    ensures s == SerializeAll([r] + rs) + ending
  {
    AllValidCons(r, rs);
    assert ([r] + rs)[1..] == rs;
    assert s == s[.. |Serialize(r)|] + s[|Serialize(r)| ..];
  }

  /** Dropping the whole record at the front does not change how the buffer ends. */
  lemma SplitEndingAfterRecord(s: Bytes)
    requires |s| > 0 && s[0] != EOD && WireSize(s[0]) <= |s|
    ensures Split(s).1 == Split(s[WireSize(s[0]) ..]).1
  {
  }

  /** Whole records followed by the end-of-data marker end at that marker. */
  lemma {:induction false} SplitEndsAtEod(rs: seq<Record>, t: Bytes)
    requires AllValid(rs)
    ensures Split(SerializeAll(rs) + [EOD] + t).1 == AtEod(t)
    decreases |rs|
  {
    var s := SerializeAll(rs) + [EOD] + t;
    if |rs| == 0 {
      assert s == [EOD] + t;
      assert s[1..] == t;
    } else {
      AllValidTail(rs);
      var w := Serialize(rs[0]);
      var u := SerializeAll(rs[1..]) + [EOD] + t;
      assert s == w + u;
      assert s[0] == w[0] && s[|w| ..] == u;
      SplitEndingAfterRecord(s);
      SplitEndsAtEod(rs[1..], t);
    }
  }

  /** The decoder's three outcomes are exactly the three endings: it fails
      if and only if the buffer ends inside a record, and otherwise yields
      the expansion of all whole records. */
  lemma DecodeAllBySplit(s: Bytes)
    ensures var (rs, e) := Split(s);
      DecodeAll(s) == if e.Partial? then Err(MissingData(ExpandAll(rs))) else Ok(ExpandAll(rs))
  {
    var (rs, e) := Split(s);
    DecodeRecords(rs, EndingBytes(e));
    match e
    case Clean =>
      assert DecodeAll(EndingBytes(e)) == Ok([]);
      assert ExpandAll(rs) + [] == ExpandAll(rs);
    case AtEod(t) =>
      assert EndingBytes(e)[0] == EOD;
      assert DecodeAll(EndingBytes(e)) == Ok([]);
      assert ExpandAll(rs) + [] == ExpandAll(rs);
    case Partial(t) =>
      assert DecodeAll(t) == Err(MissingData([]));
      assert ExpandAll(rs) + [] == ExpandAll(rs);
  }

  /** The run [249, 'A'] stands for eight 'A's; the bytes after EOD are ignored. */
  lemma DecodeRunVector()
    ensures DecodeAll([249, 65, 128, 0, 66]) == Ok(Repeat(65, 8))
  {
    DecodeStopsAtEod([Run(65, 8)], [0, 66]);
    assert SerializeAll([Run(65, 8)]) == [249, 65];
    assert ExpandAll([Run(65, 8)]) == Repeat(65, 8);
    assert [249, 65] + [EOD] + [0, 66] == [249, 65, 128, 0, 66];
  }

  lemma DecodeLiteralVector()
    ensures DecodeAll([5, 65, 66, 67, 68, 69, 70, 128]) == Ok([65, 66, 67, 68, 69, 70])
  {
    var d: Bytes := [65, 66, 67, 68, 69, 70];
    DecodeStopsAtEod([Literal(d)], []);
    assert SerializeAll([Literal(d)]) == [5] + d;
    assert ExpandAll([Literal(d)]) == d;
    assert [5] + d + [EOD] + [] == [5, 65, 66, 67, 68, 69, 70, 128];
  }

  /** A literal header 3 promises four bytes; two are not enough. */
  lemma DecodeTruncatedVector()
    ensures DecodeAll([3, 65, 66]) == Err(MissingData([]))
  {
  }
}
