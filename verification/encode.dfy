/** The encoder of lib/hexapdf/filter/run_length_decode.rb. Each chunk is
    scanned on its own into records: a run of two or more equal bytes
    becomes a run record, anything else a literal record that ends before
    the next pair of equal bytes. The encoded stream is the chunks'
    encodings followed by a final end-of-data chunk. */
module Encoding {
  import opened Framing
  import opened Records
  import opened Decoding

  /** Two equal bytes start at `q`. */
  predicate PairAt(c: Bytes, q: nat)
  {
    q + 1 < |c| && c[q] == c[q + 1]
  }

  /** A literal may end before position `q`: the chunk ends there or a pair
      of equal bytes starts there. */
  predicate LiteralStop(c: Bytes, q: nat)
  {
    q == |c| || PairAt(c, q)
  }

  /** No two adjacent bytes of `d` are equal. */
  predicate NoPairs(d: Bytes)
  {
    forall j :: 0 <= j < |d| ==> !PairAt(d, j)
  }

  /** The number of consecutive copies of `x` starting at `j`, at most `cap`:
      the greedy repetition of the run pattern. */
  function RunLength(c: Bytes, j: nat, x: byte, cap: nat): (n: nat)
    requires j <= |c|
    ensures n <= cap && j + n <= |c|
    ensures forall m :: j <= m < j + n ==> c[m] == x
    ensures n < cap && j + n < |c| ==> c[j + n] != x
    decreases cap
  {
    if cap == 0 || j == |c| || c[j] != x then 0 else 1 + RunLength(c, j + 1, x, cap - 1)
  }

  /** The smallest length from `k` up to 128 after which a literal starting
      at `pos` may stop, or 128 when there is none: the lazy repetition of
      the literal pattern. */
  function LiteralLength(c: Bytes, pos: nat, k: nat): (n: nat)
    requires pos < |c| && 1 <= k <= MaxRecordLength && pos + k <= |c|
    requires forall q :: pos < q < pos + k ==> !LiteralStop(c, q)
    ensures k <= n <= MaxRecordLength && pos + n <= |c|
    ensures forall q :: pos < q < pos + n ==> !LiteralStop(c, q)
    ensures n < MaxRecordLength ==> LiteralStop(c, pos + n)
    decreases MaxRecordLength - k
  {
    if k == MaxRecordLength || LiteralStop(c, pos + k) then k else LiteralLength(c, pos, k + 1)
  }

  /** The record the scanner takes at `pos`. It stands for the bytes right
      there; it is a run exactly when two equal bytes start at `pos`; a run
      is as long as the bytes allow up to 128; a literal holds no pair of
      equal bytes and ends at the first place it may stop, or at 128 bytes. */
  function NextRecord(c: Bytes, pos: nat): (r: Record)
    requires pos < |c|
    ensures Valid(r) && pos + Width(r) <= |c|
    ensures Expand(r) == c[pos .. pos + Width(r)]
    ensures r.Run? <==> PairAt(c, pos)
    ensures r.Run? ==> r.count == MaxRecordLength || pos + r.count == |c| || c[pos + r.count] != r.value
    ensures r.Literal? ==> NoPairs(r.data)
    ensures r.Literal? ==> forall q :: pos < q < pos + |r.data| ==> !LiteralStop(c, q)
    ensures r.Literal? ==> |r.data| == MaxRecordLength || LiteralStop(c, pos + |r.data|)
  {
    if PairAt(c, pos) then RunAt(c, pos) else LiteralAt(c, pos)
  }

  /** The run pattern `(.)\1{1,127}` matched at `pos`. */
  function RunAt(c: Bytes, pos: nat): (r: Record)
    requires PairAt(c, pos)
    ensures r.Run? && Valid(r) && r.value == c[pos] && pos + r.count <= |c|
    ensures Expand(r) == c[pos .. pos + r.count]
    ensures r.count == MaxRecordLength || pos + r.count == |c| || c[pos + r.count] != r.value
  {
    var n := RunLength(c, pos, c[pos], MaxRecordLength);
    RepeatMatches(c, pos, n, c[pos]);
    Run(c[pos], n)
  }

  /** The literal pattern `.{1,128}?(?=(.)\1|\z)|.{128}` matched at `pos`. */
  function LiteralAt(c: Bytes, pos: nat): (r: Record)
    requires pos < |c| && !PairAt(c, pos)
    ensures r.Literal? && Valid(r) && pos + |r.data| <= |c|
    ensures r.data == c[pos .. pos + |r.data|]
    ensures NoPairs(r.data)
    ensures forall q :: pos < q < pos + |r.data| ==> !LiteralStop(c, q)
    ensures |r.data| == MaxRecordLength || LiteralStop(c, pos + |r.data|)
  {
    var n := LiteralLength(c, pos, 1);
    LiteralHasNoPairs(c, pos, n);
    assert |c[pos .. pos + n]| == n;
    Literal(c[pos .. pos + n])
  }

  lemma RepeatMatches(c: Bytes, j: nat, n: nat, x: byte)
    requires j + n <= |c|
    requires forall m :: j <= m < j + n ==> c[m] == x
    ensures Repeat(x, n) == c[j .. j + n]
  {
    assert forall i :: 0 <= i < n ==> Repeat(x, n)[i] == c[j .. j + n][i];
  }

  lemma LiteralHasNoPairs(c: Bytes, pos: nat, n: nat)
    requires pos + n <= |c| && !PairAt(c, pos)
    requires forall q :: pos < q < pos + n ==> !LiteralStop(c, q)
    ensures NoPairs(c[pos .. pos + n])
  {
    var d := c[pos .. pos + n];
    forall j | 0 <= j < |d| ensures !PairAt(d, j) {
      if j > 0 {
        assert !LiteralStop(c, pos + j);
      }
    }
  }

  /** The records of the chunk from `pos` on. They are valid and stand for
      exactly those bytes. */
  function ScanFrom(c: Bytes, pos: nat): (rs: seq<Record>)
    requires pos <= |c|
    ensures AllValid(rs)
    ensures ExpandAll(rs) == c[pos..]
    ensures pos < |c| ==> |rs| > 0
    decreases |c| - pos
  {
    if pos == |c| then []
    else
      var r := NextRecord(c, pos);
      var rest := ScanFrom(c, pos + Width(r));
      ScanStep(c, pos, r, rest);
      [r] + rest
  }

  lemma ScanStep(c: Bytes, pos: nat, r: Record, rest: seq<Record>)
    requires Valid(r) && pos + Width(r) <= |c|
    requires Expand(r) == c[pos .. pos + Width(r)]
    requires AllValid(rest) && ExpandAll(rest) == c[pos + Width(r) ..]
    ensures AllValid([r] + rest) && ExpandAll([r] + rest) == c[pos..]
  {
    var w := Width(r);
    assert c[pos..] == c[pos .. pos + w] + c[pos + w ..];
    ExpandAllCons(r, rest);
    AllValidCons(r, rest);
  }

  function Scan(c: Bytes): (rs: seq<Record>)
    ensures AllValid(rs)
    ensures ExpandAll(rs) == c
    ensures |rs| == 0 <==> |c| == 0
  {
    assert c[0..] == c;
    ScanFrom(c, 0)
  }

  /** The encoding of one input chunk. */
  function EncodeChunk(c: Bytes): Bytes
  {
    SerializeAll(Scan(c))
  }

  /** An encoded chunk is self-delimiting: it decodes to the chunk and
      decoding goes on right after it, so no record spans two chunks and
      no header inside it is the end-of-data marker. */
  lemma EncodedChunkDecodes(c: Bytes, rest: Bytes)
    ensures DecodeAll(EncodeChunk(c) + rest) == Prepend(c, DecodeAll(rest))
  {
    DecodeRecords(Scan(c), rest);
  }

  lemma EncodeChunkNonEmpty(c: Bytes)
    requires |c| > 0
    ensures |EncodeChunk(c)| > 0
  {
    var rs := Scan(c);
    assert SerializeAll(rs) == Serialize(rs[0]) + SerializeAll(rs[1..]);
  }

  /** The encoder's output chunks: each input chunk encoded on its own, in
      order, then the end-of-data marker as the final chunk. Decoding their
      concatenation gives back the concatenated input. */
  function Encode(chunks: seq<Bytes>): (out: seq<Bytes>)
    ensures |out| == |chunks| + 1
    ensures out[|chunks|] == [EOD]
    ensures forall i :: 0 <= i < |chunks| ==> out[i] == EncodeChunk(chunks[i])
    ensures NonEmptyChunks(chunks) ==> NonEmptyChunks(out)
    ensures DecodeAll(Flatten(out)) == Ok(Flatten(chunks))
  {
    if |chunks| == 0 then
      assert Flatten([[EOD]]) == [EOD];
      [[EOD]]
    else
      var rest := Encode(chunks[1..]);
      EncodeConsDecodes(chunks, rest);
      EncodeConsNonEmpty(chunks, rest);
      [EncodeChunk(chunks[0])] + rest
  }

  lemma EncodeConsDecodes(chunks: seq<Bytes>, rest: seq<Bytes>)
    requires |chunks| > 0
    requires DecodeAll(Flatten(rest)) == Ok(Flatten(chunks[1..]))
    ensures DecodeAll(Flatten([EncodeChunk(chunks[0])] + rest)) == Ok(Flatten(chunks))
  {
    assert ([EncodeChunk(chunks[0])] + rest)[1..] == rest;
    EncodedChunkDecodes(chunks[0], Flatten(rest));
  }

  lemma EncodeConsNonEmpty(chunks: seq<Bytes>, rest: seq<Bytes>)
    requires |chunks| > 0
    requires NonEmptyChunks(chunks[1..]) ==> NonEmptyChunks(rest)
    ensures NonEmptyChunks(chunks) ==> NonEmptyChunks([EncodeChunk(chunks[0])] + rest)
  {
    if NonEmptyChunks(chunks) {
      NonEmptyChunksSuffix(chunks, 1);
      EncodeChunkNonEmpty(chunks[0]);
      var out := [EncodeChunk(chunks[0])] + rest;
      forall i | 0 <= i < |out| ensures |out[i]| > 0 {
        if i > 0 {
          assert out[i] == rest[i - 1];
        }
      }
    }
  }

  /** Eight equal bytes become one run record [249, 'A']. */
  lemma EncodeRunVector()
    ensures EncodeChunk(Repeat(65, 8)) == [249, 65]
  {
    var c := Repeat(65, 8);
    var r := NextRecord(c, 0);
    assert PairAt(c, 0);
    assert r.count == 8;
    assert r == Run(65, 8);
    assert Scan(c) == [r] + ScanFrom(c, 8);
    assert ScanFrom(c, 8) == [];
  }

  /** Six distinct bytes become one literal record of length 6. */
  lemma EncodeLiteralVector()
    ensures EncodeChunk([65, 66, 67, 68, 69, 70]) == [5, 65, 66, 67, 68, 69, 70]
  {
    var c: Bytes := [65, 66, 67, 68, 69, 70];
    var r := NextRecord(c, 0);
    assert !PairAt(c, 0);
    assert |r.data| == 6;
    assert r == Literal(c);
    assert Scan(c) == [r] + ScanFrom(c, 6);
    assert ScanFrom(c, 6) == [];
  }

  /** 129 equal bytes do not fit one run: a run of 128 is followed by a
      one-byte literal. */
  lemma EncodeLongRunVector(x: byte)
    ensures EncodeChunk(Repeat(x, 129)) == [129, x, 0, x]
  {
    var c := Repeat(x, 129);
    var r := NextRecord(c, 0);
    assert PairAt(c, 0);
    assert Expand(r)[0] == c[0];
    assert r.value == x;
    assert r.count == 128;
    var r2 := NextRecord(c, 128);
    assert !PairAt(c, 128);
    assert r2.data == c[128..129] == [x];
    var tail := ScanFrom(c, 129);
    assert tail == [];
    assert ScanFrom(c, 128) == [r2] + tail;
    assert Scan(c) == [r] + ScanFrom(c, 128);
    assert Scan(c) == [Run(x, 128), Literal([x])];
    assert SerializeAll([Literal([x])]) == [0, x];
  }
}
