/** The chunked decoder of lib/hexapdf/filter/run_length_decode.rb as an
    explicit state machine. The source is a finite sequence of chunks; a
    resume that returns nil is the end of that sequence. The output is the
    concatenation of everything the decoder hands to its consumer. */
module StreamDecoder {
  import opened Framing
  import opened Records
  import opened Decoding

  /** `AsWritten` fetches one chunk at a record boundary, as the source
      does; `SkipEmpty` keeps fetching while the fetched chunk is empty. */
  datatype Mode = AsWritten | SkipEmpty

  /** The working buffer `data`, the cursor `pos` into it, the chunks the
      source has not handed out yet, and the output decoded so far. */
  datatype Decoder = Decoder(data: Bytes, pos: nat, pending: seq<Bytes>, out: Bytes)

  datatype StepResult = Next(next: Decoder) | Stop(result: Result)

  /** Every step fetches a chunk or moves the cursor forward. */
  predicate Progress(d: Decoder, e: Decoder)
  {
    || |e.pending| < |d.pending|
    || (|e.pending| == |d.pending| && |e.data| - e.pos < |d.data| - d.pos)
  }

  /** At a record boundary, replace the exhausted buffer by the next chunk.
      As written exactly one chunk is fetched; skipping empty chunks, the
      fetch goes on until a non-empty chunk arrives or none is left. */
  function Refill(d: Decoder, mode: Mode): (e: Decoder)
    requires d.pos <= |d.data|
    ensures e.pos <= |e.data| && e.out == d.out
    ensures e == d || |e.pending| < |d.pending|
    ensures d.pos < |d.data| || |d.pending| == 0 ==> e == d
    ensures d.pos == |d.data| && |d.pending| > 0 ==> |e.pending| < |d.pending| && e.pos == 0
    ensures mode == AsWritten && d.pos == |d.data| && |d.pending| > 0 ==>
      e == Decoder(d.pending[0], 0, d.pending[1..], d.out)
    ensures mode == SkipEmpty && d.pos == |d.data| ==> |e.data| > 0 || |e.pending| == 0
    decreases |d.pending|
  {
    if d.pos == |d.data| && |d.pending| > 0 then
      var e := Decoder(d.pending[0], 0, d.pending[1..], d.out);
      if mode == SkipEmpty then Refill(e, mode) else e
    else d
  }

  /** The boundary fetch followed by the loop condition `i < data.length`. */
  function Continue(d: Decoder, mode: Mode): (s: StepResult)
    requires d.pos <= |d.data|
    ensures s.Next? ==> s.next.pos < |s.next.data| && s.next.out == d.out
    ensures s.Next? ==> s.next == d || |s.next.pending| < |d.pending|
  {
    var e := Refill(d, mode);
    if e.pos < |e.data| then Next(e) else Stop(Ok(e.out))
  }

  /** One pass of the decoding loop, starting at the header under the cursor. */
  function Step(d: Decoder, mode: Mode): (s: StepResult)
    requires d.pos < |d.data|
    ensures s.Next? ==> s.next.pos < |s.next.data| && Progress(d, s.next)
  {
    var h := d.data[d.pos];
    if h < 128 && d.pos + h + 1 < |d.data| then
      Continue(d.(pos := d.pos + h + 2, out := d.out + d.data[d.pos + 1 .. d.pos + h + 2]), mode)
    else if h > 128 && d.pos + 1 < |d.data| then
      Continue(d.(pos := d.pos + 2, out := d.out + Repeat(d.data[d.pos + 1], 257 - h)), mode)
    else if h != EOD then
      if |d.pending| == 0 then Stop(Err(MissingData(d.out)))
      else Continue(Decoder(d.data[d.pos..] + d.pending[0], 0, d.pending[1..], d.out), mode)
    else
      Stop(Ok(d.out))
  }

  function Drive(d: Decoder, mode: Mode): Result
    requires d.pos < |d.data|
    decreases |d.pending|, |d.data| - d.pos, 1
  {
    Finish(Step(d, mode), mode)
  }

  /** Runs the loop from a step's outcome to its end. */
  function Finish(s: StepResult, mode: Mode): Result
    requires s.Next? ==> s.next.pos < |s.next.data|
    decreases if s.Next? then |s.next.pending| else 0, if s.Next? then |s.next.data| - s.next.pos else 0, 2
  {
    match s
    case Stop(r) => r
    case Next(e) => Drive(e, mode)
  }

  /** The first resume, the loop, and the final flush. */
  function DecodeChunks(chunks: seq<Bytes>, mode: Mode): Result
  {
    Finish(Continue(Decoder([], 0, chunks, []), mode), mode)
  }

  /** A complete record under the cursor is appended to the output and the
      cursor moves past it (by L+2 for a literal header L, by 2 for a run). */
  lemma StepConsumesRecord(d: Decoder, r: Record, mode: Mode)
    requires Valid(r)
    requires d.pos + |Serialize(r)| <= |d.data|
    requires d.data[d.pos .. d.pos + |Serialize(r)|] == Serialize(r)
    ensures Step(d, mode) == Continue(d.(pos := d.pos + |Serialize(r)|, out := d.out + Expand(r)), mode)
  {
    var w := Serialize(r);
    var h := d.data[d.pos];
    var d1 := d.(pos := d.pos + |w|, out := d.out + Expand(r));
    assert h == w[0] == Header(r);
    match r
    case Literal(x) =>
      assert h < 128 && d.pos + h + 1 < |d.data| && |w| == h + 2;
      SliceOfSlice(d.data, d.pos, d.pos + |w|, 1);
      assert w[1..] == x == Expand(r);
      StepTakesLiteral(d, d1, mode);
    case Run(v, n) =>
      assert h > 128 && d.pos + 1 < |d.data| && 257 - h == n;
      assert d.data[d.pos + 1] == w[1] == v && |w| == 2;
      assert Repeat(v, n) == Expand(r);
      StepTakesRun(d, d1, mode);
  }

  /** Unfolding aid, not a property: `Step` at a complete literal header. */
  lemma StepTakesLiteral(d: Decoder, d1: Decoder, mode: Mode)
    requires d.pos < |d.data|
    requires d.data[d.pos] < 128 && d.pos + d.data[d.pos] + 1 < |d.data|
    requires d1 == d.(pos := d.pos + d.data[d.pos] + 2, out := d.out + d.data[d.pos + 1 .. d.pos + d.data[d.pos] + 2])
    ensures Step(d, mode) == Continue(d1, mode)
  {
  }

  /** Unfolding aid, not a property: `Step` at a complete run header. */
  lemma StepTakesRun(d: Decoder, d1: Decoder, mode: Mode)
    requires d.pos < |d.data|
    requires d.data[d.pos] > 128 && d.pos + 1 < |d.data|
    requires d1 == d.(pos := d.pos + 2, out := d.out + Repeat(d.data[d.pos + 1], 257 - d.data[d.pos]))
    ensures Step(d, mode) == Continue(d1, mode)
  {
  }

  /** The end-of-data marker ends decoding with the output so far. */
  lemma StepStopsAtEod(d: Decoder, mode: Mode)
    requires d.pos < |d.data| && d.data[d.pos] == EOD
    ensures Step(d, mode) == Stop(Ok(d.out))
  {
  }

  /** A record the buffer holds only part of: with no chunk left it is the
      missing-data error, otherwise the unread tail is glued to the next chunk. */
  lemma StepCarriesPartialRecord(d: Decoder, r: Record, mode: Mode)
    requires Valid(r) && d.pos < |d.data|
    requires |d.data| - d.pos < |Serialize(r)|
    requires d.data[d.pos..] == Serialize(r)[.. |d.data| - d.pos]
    ensures |d.pending| == 0 ==> Step(d, mode) == Stop(Err(MissingData(d.out)))
    ensures |d.pending| > 0 ==>
      Step(d, mode) == Next(Decoder(d.data[d.pos..] + d.pending[0], 0, d.pending[1..], d.out))
  {
    assert d.data[d.pos] == d.data[d.pos..][0] == Header(r);
  }

  /** Run as written from a state whose unread buffer is `rest`, the decoder
      never fetches an empty chunk at a record boundary before it reads the
      end-of-data marker. An empty chunk glued to a partial record does no
      harm: the record is still incomplete and the next chunk is fetched. */
  predicate NoEmptyFetch(rest: Bytes, pending: seq<Bytes>)
    decreases |pending|
  {
    || |pending| == 0
    || Split(rest).1.AtEod?
    || ((Split(rest).1.Partial? || |pending[0]| > 0) && NoEmptyFetch(rest + pending[0], pending[1..]))
  }

  /** With no empty chunk at all, no empty chunk is fetched. */
  lemma {:induction false} NonEmptyChunksFetch(rest: Bytes, pending: seq<Bytes>)
    ensures NonEmptyChunks(pending) ==> NoEmptyFetch(rest, pending)
    decreases |pending|
  {
    if NonEmptyChunks(pending) && |pending| > 0 {
      NonEmptyChunksSuffix(pending, 1);
      NonEmptyChunksFetch(rest + pending[0], pending[1..]);
    }
  }

  /** Chunks after the one holding the end-of-data marker may be anything. */
  lemma {:induction false} EodBeforeEmptyChunks(rest: Bytes, pending: seq<Bytes>, extra: seq<Bytes>)
    requires NonEmptyChunks(pending)
    requires Split(rest + Flatten(pending)).1.AtEod?
    ensures NoEmptyFetch(rest, pending + extra)
    decreases |pending|
  {
    if |pending| == 0 {
      assert rest + Flatten(pending) == rest;
    } else if !Split(rest).1.AtEod? {
      NonEmptyChunksSuffix(pending, 1);
      assert Flatten(pending) == pending[0] + Flatten(pending[1..]);
      AppendAssoc(rest, pending[0], Flatten(pending[1..]));
      EodBeforeEmptyChunks(rest + pending[0], pending[1..], extra);
      ChunksAppendTail(pending, extra);
    }
  }

  /** Consuming a whole record keeps the condition. */
  lemma {:induction false} NoEmptyFetchDropsRecord(s: Bytes, pending: seq<Bytes>)
    requires |s| > 0 && s[0] != EOD && WireSize(s[0]) <= |s|
    requires NoEmptyFetch(s, pending)
    ensures NoEmptyFetch(s[WireSize(s[0]) ..], pending)
    decreases |pending|
  {
    var w := WireSize(s[0]);
    var t := s[w..];
    SplitEndingAfterRecord(s);
    if |pending| > 0 && !Split(s).1.AtEod? {
      var u := s + pending[0];
      assert Split(s).1.Partial? || |pending[0]| > 0;
      assert NoEmptyFetch(u, pending[1..]);
      assert u[0] == s[0];
      DropAppend(s, pending[0], w);
      NoEmptyFetchDropsRecord(u, pending[1..]);
      assert NoEmptyFetch(t + pending[0], pending[1..]);
    }
  }

  lemma NoEmptyFetchAfterRecord(data: Bytes, pos: nat, next: nat, pending: seq<Bytes>)
    requires pos < |data| && data[pos] != EOD && next == pos + WireSize(data[pos]) <= |data|
    requires NoEmptyFetch(data[pos..], pending)
    ensures NoEmptyFetch(data[next..], pending)
  {
    var s := data[pos..];
    var w := next - pos;
    assert s[0] == data[pos] && w == WireSize(s[0]);
    NoEmptyFetchDropsRecord(s, pending);
    var t := s[w..];
    assert NoEmptyFetch(t, pending);
    DropDrop(data, pos, w);
    assert t == data[next..];
  }

  /** The invariant of the decoding loop: what remains to be produced is the
      decoding of the unread buffer followed by the unread chunks. */
  lemma {:induction false} DriveDecodesRest(d: Decoder, mode: Mode)
    requires d.pos < |d.data|
    requires mode == AsWritten ==> NoEmptyFetch(d.data[d.pos..], d.pending)
    ensures Drive(d, mode) == Prepend(d.out, DecodeAll(d.data[d.pos..] + Flatten(d.pending)))
    decreases |d.pending|, |d.data| - d.pos, 3
  {
    var h := d.data[d.pos];
    if h < 128 && d.pos + h + 1 < |d.data| {
      LiteralKeepsInvariant(d, mode);
    } else if h > 128 && d.pos + 1 < |d.data| {
      RunKeepsInvariant(d, mode);
    } else if h != EOD {
      CarryDecodes(d, mode);
    } else {
      EodKeepsInvariant(d, mode);
    }
  }

  lemma {:induction false} LiteralKeepsInvariant(d: Decoder, mode: Mode)
    requires d.pos < |d.data|
    requires mode == AsWritten ==> NoEmptyFetch(d.data[d.pos..], d.pending)
    requires d.data[d.pos] < 128 && d.pos + d.data[d.pos] + 1 < |d.data|
    ensures Drive(d, mode) == Prepend(d.out, DecodeAll(d.data[d.pos..] + Flatten(d.pending)))
    decreases |d.pending|, |d.data| - d.pos, 2
  {
    var h := d.data[d.pos];
    var lit := d.data[d.pos + 1 .. d.pos + h + 2];
    var d1 := d.(pos := d.pos + h + 2, out := d.out + lit);
    LiteralTakesLoop(d, d1, lit, mode);
    RecordKeepsInvariant(d, d1, lit, mode);
  }

  /** The literal under the cursor moves the loop from `d` to `d1`. */
  lemma LiteralTakesLoop(d: Decoder, d1: Decoder, lit: Bytes, mode: Mode)
    requires d.pos < |d.data|
    requires mode == AsWritten ==> NoEmptyFetch(d.data[d.pos..], d.pending)
    requires d.data[d.pos] < 128 && d.pos + d.data[d.pos] + 1 < |d.data|
    requires lit == d.data[d.pos + 1 .. d.pos + d.data[d.pos] + 2]
    requires d1 == d.(pos := d.pos + d.data[d.pos] + 2, out := d.out + lit)
    ensures mode == AsWritten ==> NoEmptyFetch(d1.data[d1.pos..], d1.pending)
    ensures Drive(d, mode) == Finish(Continue(d1, mode), mode)
    ensures DecodeAll(d.data[d.pos..] + Flatten(d.pending))
         == Prepend(lit, DecodeAll(d1.data[d1.pos..] + Flatten(d1.pending)))
  {
    assert d1.data == d.data && d1.pending == d.pending && d1.pos == d.pos + d.data[d.pos] + 2;
    if mode == AsWritten {
      NoEmptyFetchAfterRecord(d.data, d.pos, d1.pos, d.pending);
    }
    DriveLiteral(d, mode);
    LiteralDecodes(d);
  }

  lemma {:induction false} RunKeepsInvariant(d: Decoder, mode: Mode)
    requires d.pos < |d.data|
    requires mode == AsWritten ==> NoEmptyFetch(d.data[d.pos..], d.pending)
    requires d.data[d.pos] > 128 && d.pos + 1 < |d.data|
    ensures Drive(d, mode) == Prepend(d.out, DecodeAll(d.data[d.pos..] + Flatten(d.pending)))
    decreases |d.pending|, |d.data| - d.pos, 2
  {
    var run := Repeat(d.data[d.pos + 1], 257 - d.data[d.pos]);
    var d1 := d.(pos := d.pos + 2, out := d.out + run);
    RunTakesLoop(d, d1, run, mode);
    RecordKeepsInvariant(d, d1, run, mode);
  }

  /** The run under the cursor moves the loop from `d` to `d1`. */
  lemma RunTakesLoop(d: Decoder, d1: Decoder, run: Bytes, mode: Mode)
    requires d.pos < |d.data|
    requires mode == AsWritten ==> NoEmptyFetch(d.data[d.pos..], d.pending)
    requires d.data[d.pos] > 128 && d.pos + 1 < |d.data|
    requires run == Repeat(d.data[d.pos + 1], 257 - d.data[d.pos])
    requires d1 == d.(pos := d.pos + 2, out := d.out + run)
    ensures mode == AsWritten ==> NoEmptyFetch(d1.data[d1.pos..], d1.pending)
    ensures Drive(d, mode) == Finish(Continue(d1, mode), mode)
    ensures DecodeAll(d.data[d.pos..] + Flatten(d.pending))
         == Prepend(run, DecodeAll(d1.data[d1.pos..] + Flatten(d1.pending)))
  {
    assert d1.data == d.data && d1.pending == d.pending && d1.pos == d.pos + 2;
    if mode == AsWritten {
      NoEmptyFetchAfterRecord(d.data, d.pos, d1.pos, d.pending);
    }
    DriveRun(d, mode);
    RunDecodes(d);
  }

  /** A complete record standing for `x` takes the loop from `d` to `d1`. */
  lemma {:induction false} RecordKeepsInvariant(d: Decoder, d1: Decoder, x: Bytes, mode: Mode)
    requires d.pos < |d.data| && d1.pos <= |d1.data|
    requires d1.pending == d.pending && |d1.data| - d1.pos < |d.data| - d.pos
    requires d1.out == d.out + x
    requires mode == AsWritten ==> NoEmptyFetch(d1.data[d1.pos..], d1.pending)
    requires Drive(d, mode) == Finish(Continue(d1, mode), mode)
    requires DecodeAll(d.data[d.pos..] + Flatten(d.pending))
          == Prepend(x, DecodeAll(d1.data[d1.pos..] + Flatten(d1.pending)))
    ensures Drive(d, mode) == Prepend(d.out, DecodeAll(d.data[d.pos..] + Flatten(d.pending)))
    decreases |d.pending|, |d.data| - d.pos, 1
  {
    AfterRecord(d, d1, mode);
    PrependPrepend(d.out, x, DecodeAll(d1.data[d1.pos..] + Flatten(d1.pending)));
  }

  /** Unfolding aid, not a property: `Drive` at a complete literal header. */
  lemma DriveLiteral(d: Decoder, mode: Mode)
    requires d.pos < |d.data|
    requires d.data[d.pos] < 128 && d.pos + d.data[d.pos] + 1 < |d.data|
    ensures var h := d.data[d.pos];
      Drive(d, mode) == Finish(Continue(d.(pos := d.pos + h + 2, out := d.out + d.data[d.pos + 1 .. d.pos + h + 2]), mode), mode)
  {
  }

  /** Unfolding aid, not a property: `Drive` at a complete run header. */
  lemma DriveRun(d: Decoder, mode: Mode)
    requires d.pos < |d.data|
    requires d.data[d.pos] > 128 && d.pos + 1 < |d.data|
    ensures Drive(d, mode) == Finish(Continue(d.(pos := d.pos + 2, out := d.out + Repeat(d.data[d.pos + 1], 257 - d.data[d.pos])), mode), mode)
  {
  }

  lemma EodKeepsInvariant(d: Decoder, mode: Mode)
    requires d.pos < |d.data| && d.data[d.pos] == EOD
    ensures Drive(d, mode) == Prepend(d.out, DecodeAll(d.data[d.pos..] + Flatten(d.pending)))
  {
    var s := d.data[d.pos..] + Flatten(d.pending);
    assert s[0] == EOD;
    assert d.out + [] == d.out;
  }

  lemma LiteralDecodes(d: Decoder)
    requires d.pos < |d.data|
    requires d.data[d.pos] < 128 && d.pos + d.data[d.pos] + 1 < |d.data|
    ensures var h := d.data[d.pos];
      DecodeAll(d.data[d.pos..] + Flatten(d.pending))
      == Prepend(d.data[d.pos + 1 .. d.pos + h + 2], DecodeAll(d.data[d.pos + h + 2 ..] + Flatten(d.pending)))
  {
    var h := d.data[d.pos];
    var a := d.data[d.pos..];
    assert a[0] == h;
    DecodeLiteralPrefix(a, Flatten(d.pending));
    SliceOfDrop(d.data, d.pos, 1, h + 2);
    DropDrop(d.data, d.pos, h + 2);
  }

  lemma RunDecodes(d: Decoder)
    requires d.pos < |d.data|
    requires d.data[d.pos] > 128 && d.pos + 1 < |d.data|
    ensures var h := d.data[d.pos];
      DecodeAll(d.data[d.pos..] + Flatten(d.pending))
      == Prepend(Repeat(d.data[d.pos + 1], 257 - h), DecodeAll(d.data[d.pos + 2 ..] + Flatten(d.pending)))
  {
    var a := d.data[d.pos..];
    var v, n := d.data[d.pos + 1], 257 - d.data[d.pos];
    assert a[0] == d.data[d.pos] && a[1] == v && 257 - a[0] == n;
    DecodeRunPrefix(a, Flatten(d.pending));
    DropDrop(d.data, d.pos, 2);
  }

  /** The partial-record case of the loop invariant. */
  lemma {:induction false} CarryDecodes(d: Decoder, mode: Mode)
    requires d.pos < |d.data|
    requires mode == AsWritten ==> NoEmptyFetch(d.data[d.pos..], d.pending)
    requires var h := d.data[d.pos];
      && h != EOD
      && !(h < 128 && d.pos + h + 1 < |d.data|)
      && !(h > 128 && d.pos + 1 < |d.data|)
    ensures Drive(d, mode) == Prepend(d.out, DecodeAll(d.data[d.pos..] + Flatten(d.pending)))
    decreases |d.pending|, |d.data| - d.pos, 2
  {
    var s := d.data[d.pos..] + Flatten(d.pending);
    if |d.pending| == 0 {
      assert s == d.data[d.pos..];
      assert d.out + [] == d.out;
    } else {
      var e := Decoder(d.data[d.pos..] + d.pending[0], 0, d.pending[1..], d.out);
      assert e.data[e.pos..] + Flatten(e.pending) == s;
      if mode == AsWritten {
        var t := d.data[d.pos..];
        assert t[0] == d.data[d.pos] && |t| < WireSize(t[0]);
        assert Split(t) == ([], Partial(t));
        assert e.data[e.pos..] == t + d.pending[0];
      }
      assert Step(d, mode) == Next(e);
      DriveDecodesRest(e, mode);
    }
  }

  /** After a complete record the boundary fetch keeps the loop invariant;
      `d` is the state before the record and only bounds the recursion. */
  lemma {:induction false} AfterRecord(d: Decoder, d1: Decoder, mode: Mode)
    requires d.pos < |d.data| && d1.pos <= |d1.data|
    requires d1.pending == d.pending && |d1.data| - d1.pos < |d.data| - d.pos
    requires mode == AsWritten ==> NoEmptyFetch(d1.data[d1.pos..], d1.pending)
    ensures Finish(Continue(d1, mode), mode)
         == Prepend(d1.out, DecodeAll(d1.data[d1.pos..] + Flatten(d1.pending)))
    decreases |d.pending|, |d.data| - d.pos, 0
  {
    RefillKeepsRest(d1, mode);
    var e := Refill(d1, mode);
    if e.pos < |e.data| {
      if mode == AsWritten {
        RefillKeepsNoEmptyFetch(d1);
      }
      DriveDecodesRest(e, mode);
    } else {
      assert e.data[e.pos..] + Flatten(e.pending) == [];
      assert d1.out + [] == d1.out;
    }
  }

  /** As written, the fetch at a boundary takes the next chunk as the new
      buffer, so the condition carries over to it. */
  lemma RefillKeepsNoEmptyFetch(d: Decoder)
    requires d.pos <= |d.data| && NoEmptyFetch(d.data[d.pos..], d.pending)
    ensures var e := Refill(d, AsWritten); NoEmptyFetch(e.data[e.pos..], e.pending)
  {
    if d.pos == |d.data| && |d.pending| > 0 {
      assert d.data[d.pos..] == [];
      assert Split([]).1 == Clean;
      assert [] + d.pending[0] == d.pending[0] == d.pending[0][0..];
    }
  }

  /** Fetching at a boundary does not change the bytes still to be decoded;
      it can only stop early when an empty chunk arrives as written. */
  lemma {:induction false} RefillKeepsRest(d: Decoder, mode: Mode)
    requires d.pos <= |d.data|
    requires mode == AsWritten ==> NoEmptyFetch(d.data[d.pos..], d.pending)
    ensures var e := Refill(d, mode);
      && (e.pos < |e.data| || |e.pending| == 0)
      && e.data[e.pos..] + Flatten(e.pending) == d.data[d.pos..] + Flatten(d.pending)
    decreases |d.pending|
  {
    if d.pos == |d.data| && |d.pending| > 0 {
      var e := Decoder(d.pending[0], 0, d.pending[1..], d.out);
      assert d.data[d.pos..] + Flatten(d.pending) == e.data[e.pos..] + Flatten(e.pending);
      if mode == SkipEmpty {
        RefillKeepsRest(e, mode);
      } else {
        assert d.data[d.pos..] == [];
        assert Split([]).1 == Clean;
      }
    } else if |d.pending| == 0 {
      assert Flatten(d.pending) == [];
    }
  }

  /** The decoder as written. Unless an empty chunk arrives at a record
      boundary before the end-of-data marker, in particular when no chunk is
      empty, its output does not depend on where the chunk boundaries fall:
      it is the decoding of the concatenated input. */
  function DecodeStream(chunks: seq<Bytes>): (r: Result)
    ensures NoEmptyFetch([], chunks) ==> r == DecodeAll(Flatten(chunks))
    ensures NonEmptyChunks(chunks) ==> r == DecodeAll(Flatten(chunks))
  {
    NonEmptyChunksFetch([], chunks);
    RunDecodesFlattened(chunks, AsWritten);
    DecodeChunks(chunks, AsWritten)
  }

  /** The decoder with empty chunks skipped at record boundaries: its output
      is the decoding of the concatenated input for every chunking. */
  function DecodeStreamSkippingEmpty(chunks: seq<Bytes>): (r: Result)
    ensures r == DecodeAll(Flatten(chunks))
  {
    RunDecodesFlattened(chunks, SkipEmpty);
    DecodeChunks(chunks, SkipEmpty)
  }

  lemma RunDecodesFlattened(chunks: seq<Bytes>, mode: Mode)
    ensures (mode == AsWritten ==> NoEmptyFetch([], chunks)) ==>
      DecodeChunks(chunks, mode) == DecodeAll(Flatten(chunks))
  {
    if mode == SkipEmpty || NoEmptyFetch([], chunks) {
      var d := Decoder([], 0, chunks, []);
      assert d.data[d.pos..] == [];
      assert d.data[d.pos..] + Flatten(d.pending) == Flatten(chunks);
      RefillKeepsRest(d, mode);
      var e := Refill(d, mode);
      if e.pos < |e.data| {
        if mode == AsWritten {
          RefillKeepsNoEmptyFetch(d);
        }
        DriveDecodesRest(e, mode);
        PrependEmpty(DecodeAll(Flatten(chunks)));
      } else {
        assert Flatten(chunks) == [];
      }
    }
  }

  /** Once the end-of-data marker has been read, later chunks are never
      fetched: appending chunks to the source changes nothing, whatever they
      hold. As written, the chunks up to the marker must not be empty. */
  lemma RunIgnoresChunksAfterEod(chunks: seq<Bytes>, extra: seq<Bytes>, rs: seq<Record>, trailing: Bytes)
    requires NonEmptyChunks(chunks) && AllValid(rs)
    requires Flatten(chunks) == SerializeAll(rs) + [EOD] + trailing
    ensures DecodeStream(chunks + extra) == DecodeStream(chunks) == Ok(ExpandAll(rs))
  {
    SplitEndsAtEod(rs, trailing);
    assert [] + Flatten(chunks) == Flatten(chunks);
    EodBeforeEmptyChunks([], chunks, extra);
    AppendedChunksAfterEod(chunks, extra, rs, trailing);
  }

  /** The same with empty chunks skipped, for every chunking. */
  lemma RunSkippingIgnoresChunksAfterEod(chunks: seq<Bytes>, extra: seq<Bytes>, rs: seq<Record>, trailing: Bytes)
    requires AllValid(rs)
    requires Flatten(chunks) == SerializeAll(rs) + [EOD] + trailing
    ensures DecodeStreamSkippingEmpty(chunks + extra) == DecodeStreamSkippingEmpty(chunks) == Ok(ExpandAll(rs))
  {
    AppendedChunksAfterEod(chunks, extra, rs, trailing);
  }

  lemma AppendedChunksAfterEod(chunks: seq<Bytes>, extra: seq<Bytes>, rs: seq<Record>, trailing: Bytes)
    requires AllValid(rs)
    requires Flatten(chunks) == SerializeAll(rs) + [EOD] + trailing
    ensures DecodeAll(Flatten(chunks + extra)) == DecodeAll(Flatten(chunks)) == Ok(ExpandAll(rs))
  {
    FlattenAppend(chunks, extra);
    DecodeStopsAtEod(rs, trailing);
    DecodeStopsAtEod(rs, trailing + Flatten(extra));
    AppendAssoc(SerializeAll(rs) + [EOD], trailing, Flatten(extra));
  }

  /** An empty chunk that arrives at a record boundary ends decoding as
      written: the run before it is kept, the literal after it is lost. */
  lemma EmptyChunkEndsDecoding()
    ensures DecodeStream([[249, 65], [], [0, 66]]) == Ok(Repeat(65, 8))
    ensures DecodeStreamSkippingEmpty([[249, 65], [], [0, 66]]) == Ok(Repeat(65, 8) + [66])
  {
    var chunks: seq<Bytes> := [[249, 65], [], [0, 66]];
    var d0 := Decoder([], 0, chunks, []);
    var d1 := Decoder([249, 65], 0, chunks[1..], []);
    assert Continue(d0, AsWritten) == Next(d1);
    var d2 := d1.(pos := 2, out := d1.out + Repeat(65, 8));
    assert Step(d1, AsWritten) == Continue(d2, AsWritten);
    assert d2.out == Repeat(65, 8);
    assert Refill(d2, AsWritten) == Decoder([], 0, chunks[2..], Repeat(65, 8));
    assert Flatten(chunks) == [249, 65, 0, 66];
    var s: Bytes := [249, 65, 0, 66];
    assert s[2..] == [0, 66];
    assert DecodeAll(s[2..]) == Ok([66]);
  }
}
