/** The chunked decoder, fed the encoder's output chunks, gives back the
    encoder's input. */
module RoundTrip {
  import opened Framing
  import opened Encoding
  import opened StreamDecoder

  /** The chunked decoder as written restores every stream whose chunks
      are all non-empty. */
  lemma StreamRoundTrip(chunks: seq<Bytes>)
    requires NonEmptyChunks(chunks)
    ensures DecodeStream(Encode(chunks)) == Ok(Flatten(chunks))
  {
  }

  /** With empty chunks skipped, the chunked decoder restores every stream. */
  lemma SkippingRoundTrip(chunks: seq<Bytes>)
    ensures DecodeStreamSkippingEmpty(Encode(chunks)) == Ok(Flatten(chunks))
  {
  }

  /** An empty input chunk is encoded as an empty chunk, and the decoder as
      written stops there: the byte after it is lost. */
  lemma EmptyChunkBreaksRoundTrip()
    ensures Flatten([[], [65]]) == [65]
    ensures DecodeStream(Encode([[], [65]])) == Ok([])
  {
    var chunks: seq<Bytes> := [[], [65]];
    var out := Encode(chunks);
    assert Scan([]) == [];
    assert out[0] == [];
    assert Continue(Decoder([], 0, out, []), AsWritten) == Stop(Ok([]));
    assert Flatten(chunks) == [] + Flatten([[65]]);
  }
}
