# HexaPDF RunLengthDecode filter, modelled in Dafny

This project models the run-length codec of HexaPDF (`HexaPDF::Filter::RunLengthDecode`),
the RunLengthDecode filter of ISO 32000-1 (PDF 1.7), section 7.4.5. It covers both halves.

- **Decoder.** It reads records from a stream of encoded chunks:
  - a length byte `L` in 0..127 is followed by `L+1` literal bytes;
  - a length byte `L` in 129..255 is followed by one byte, repeated `257-L` times;
  - the byte 128 marks end of data (EOD).
  A record cut by a chunk boundary is completed from the next chunk. A record the source cannot complete is the error "Missing data for run length encoded stream".
- **Encoder.** It scans each input chunk on its own, producing run records and literal records, then emits the single byte 128 after the last chunk.

Layout:

- `framing.dfy` (`Framing`): bytes, the EOD constant, chunk concatenation, and the decoder's `Result`. The error carries the output handed to the consumer before the failure.
- `records.dfy` (`Records`): the abstract records (`Literal`, `Run`), their validity (1..128 and 2..128 bytes), their header byte, their wire form and what they expand to.
- `decode.dfy` (`Decoding`): `DecodeAll`, the decoder's meaning on one contiguous buffer, with lemmas that relate it to the records.
- `stream_decoder.dfy` (`StreamDecoder`): the chunked decoder as a state machine. Its state is the buffer, the cursor, the chunks not yet fetched and the output so far. There is one step per pass of the source's loop. Two modes:
  - `AsWritten` fetches one chunk at a record boundary, as the source does;
  - `SkipEmpty` keeps fetching past empty chunks (the corrected behaviour, see Findings).
- `encode.dfy` (`Encoding`): the scanner. Two functions stand in for the two regular expressions:
  - `RunLength` is the greedy `(.)\1{1,127}`;
  - `LiteralLength` is the lazy `.{1,128}?(?=(.)\1|\z)|.{128}`.
  `NextRecord` picks the record at a position, `Scan` turns a chunk into records, and `Encode` builds the output chunk sequence.
- `round_trip.dfy` (`RoundTrip`): decoding the encoder's output gives back its input.

The upstream source of chunks is a finite sequence of byte chunks. A `resume` that returns nil, or a source that is no longer `alive?`, is the end of that sequence. The decoder's output is the concatenation of everything it yields.

Two details of the code shape the model:

- **Empty output.** The yield at :63, before a partial record is carried over, can hand out an empty string. The model keeps only the concatenated output, so this makes no difference to it.
- **Empty input chunks.** An empty chunk fetched at a record boundary (:75) ends decoding, because the loop condition at :54 then fails. This is modelled as written (see Findings).

## Model

| member | source | states |
|---|---|---|
| `Records.Header` | lib/hexapdf/filter/run_length_decode.rb:92-96 | a record's header is never 128; it is below 128 exactly for a literal, literal header L means L+1 bytes, run header L means 257-L copies |
| `Decoding.DecodeAll` | lib/hexapdf/filter/run_length_decode.rb:54-72 | the definition: the decoding loop run on one contiguous buffer; its meaning is given by `Decoding.DecodeRecords` (records decode to their expansion) and `Decoding.DecodeAllBySplit` (its three outcomes) |
| `Decoding.DecodeRecord` | lib/hexapdf/filter/run_length_decode.rb:56-61 | a complete literal or run record at the front of the buffer is replaced by the bytes it stands for, and decoding continues right after the record |
| `Decoding.DecodeRecords` | lib/hexapdf/filter/run_length_decode.rb:54-61 | decoding the wire form of any sequence of valid records, followed by anything, yields their expansion followed by the decoding of what follows |
| `Decoding.DecodeStopsAtEod` | lib/hexapdf/filter/run_length_decode.rb:71-72 | after whole records, the EOD byte ends decoding successfully; bytes after it are never read |
| `Decoding.DecodeTruncated` | lib/hexapdf/filter/run_length_decode.rb:62-68 | a buffer that ends inside any record is the missing-data error, after the records before it were decoded |
| `Records.Serialize` | lib/hexapdf/filter/run_length_decode.rb:56-61 | a record's wire form starts with its header and is exactly as long as the decoder reads for that header: L+2 bytes for a literal, 2 for a run |
| `Decoding.RecordAt` | lib/hexapdf/filter/run_length_decode.rb:56-61 | the bytes the decoder reads for one complete header form a valid record whose wire form they are |
| `Decoding.Split` | lib/hexapdf/filter/run_length_decode.rb:54-72 | every buffer is the wire form of valid whole records followed by nothing, by the EOD byte and anything, or by a record cut short |
| `Decoding.SplitEndsAtEod` | lib/hexapdf/filter/run_length_decode.rb:71-72 | whole records followed by the EOD byte end at that byte, whatever follows it |
| `Decoding.DecodeAllBySplit` | lib/hexapdf/filter/run_length_decode.rb:54-72 | decoding fails if and only if the buffer ends inside a record; in every case its output is the expansion of the whole records before that point or before EOD |
| `Decoding.DecodeRunVector` | lib/hexapdf/filter/run_length_decode.rb:59-72 | [249, 'A', 128, 0, 'B'] decodes to eight 'A's |
| `Decoding.DecodeLiteralVector` | lib/hexapdf/filter/run_length_decode.rb:56-72 | [5, 'A'..'F', 128] decodes to "ABCDEF" |
| `Decoding.DecodeTruncatedVector` | lib/hexapdf/filter/run_length_decode.rb:62-67 | [3, 'A', 'B'] is the missing-data error with nothing decoded |
| `StreamDecoder.Refill` | lib/hexapdf/filter/run_length_decode.rb:75-79 | the fetch keeps the output and leaves a state with an unread byte, or with no chunk left, unchanged; at a record boundary with chunks left it consumes at least one chunk and resets the cursor to 0; as written it takes exactly the next chunk as the new buffer; skipping empty chunks it stops at a non-empty chunk or when none is left |
| `StreamDecoder.Continue` | lib/hexapdf/filter/run_length_decode.rb:75-79 | the definition of the boundary fetch followed by the loop test `i < data.length` of line 54: a state it lets through has an unread byte and the same output, and either is unchanged or has consumed chunks; `StreamDecoder.RefillKeepsRest` shows the fetch keeps the bytes still to be decoded |
| `StreamDecoder.Step` | lib/hexapdf/filter/run_length_decode.rb:54-80 | each pass of the decoding loop either fetches a chunk or moves the cursor forward, so decoding ends for every input |
| `StreamDecoder.StepConsumesRecord` | lib/hexapdf/filter/run_length_decode.rb:55-61 | a complete record under the cursor is appended as its expansion and the cursor moves by the record's size (L+2 for a literal, 2 for a run) |
| `StreamDecoder.StepStopsAtEod` | lib/hexapdf/filter/run_length_decode.rb:71-72 | the EOD byte under the cursor ends decoding with the output so far and fetches nothing |
| `StreamDecoder.StepCarriesPartialRecord` | lib/hexapdf/filter/run_length_decode.rb:62-70 | a partial record with no chunk left is the missing-data error carrying all output so far; otherwise the unread tail is glued to the next chunk and the cursor reset to 0 |
| `StreamDecoder.DriveDecodesRest` | lib/hexapdf/filter/run_length_decode.rb:54-80 | loop invariant: the rest of the output is the single-buffer decoding of the unread buffer followed by all unfetched chunks (when run as written: provided no empty chunk would be fetched at a record boundary before EOD) |
| `StreamDecoder.RefillKeepsRest` | lib/hexapdf/filter/run_length_decode.rb:75-79 | fetching at a record boundary leaves the byte stream still to be decoded unchanged |
| `StreamDecoder.DecodeChunks` | lib/hexapdf/filter/run_length_decode.rb:50-82 | the definition of the whole decoder: first fetch, loop and final result; `StreamDecoder.RunDecodesFlattened` gives its meaning as the decoding of the concatenated chunks |
| `StreamDecoder.RunDecodesFlattened` | lib/hexapdf/filter/run_length_decode.rb:53-81 | starting from the first fetch, the chunked decoder equals the single-buffer decoding of the concatenated chunks: always when empty chunks are skipped, and for the as-written decoder provided no empty chunk is fetched at a record boundary before EOD |
| `StreamDecoder.DecodeStream` | lib/hexapdf/filter/run_length_decode.rb:49-83 | the decoder as written: unless an empty chunk arrives at a record boundary before EOD (in particular when no chunk is empty), its output, or its error, is that of decoding the concatenated chunks, wherever the boundaries fall |
| `StreamDecoder.DecodeStreamSkippingEmpty` | lib/hexapdf/filter/run_length_decode.rb:49-83 | the corrected decoder equals decoding the concatenated chunks for every chunking |
| `StreamDecoder.RunIgnoresChunksAfterEod` | lib/hexapdf/filter/run_length_decode.rb:71-72 | once the EOD byte is reached, appending further chunks, empty or not, to the source changes nothing |
| `StreamDecoder.RunSkippingIgnoresChunksAfterEod` | lib/hexapdf/filter/run_length_decode.rb:71-72 | with empty chunks skipped, the same holds for every chunking |
| `StreamDecoder.NonEmptyChunksFetch` | lib/hexapdf/filter/run_length_decode.rb:75 | when no chunk is empty, the as-written decoder never fetches an empty chunk at a record boundary |
| `StreamDecoder.EodBeforeEmptyChunks` | lib/hexapdf/filter/run_length_decode.rb:71-75 | when the non-empty chunks fetched so far contain EOD after whole records, the chunks after them may be empty: they are never fetched at a boundary |
| `StreamDecoder.NoEmptyFetchDropsRecord` | lib/hexapdf/filter/run_length_decode.rb:56-61 | consuming a whole record keeps the condition that no empty chunk will be fetched at a boundary before EOD |
| `StreamDecoder.EmptyChunkEndsDecoding` | lib/hexapdf/filter/run_length_decode.rb:54-79 | as written, [[249,'A'], [], [0,'B']] decodes to eight 'A's only; skipping the empty chunk keeps the 'B' |
| `Encoding.RunLength` | lib/hexapdf/filter/run_length_decode.rb:92 | counts the maximal run of a byte from a position, capped: all counted bytes equal it, and the byte after them does not unless the cap or the chunk end was reached |
| `Encoding.LiteralLength` | lib/hexapdf/filter/run_length_decode.rb:95 | the smallest length up to 128 after which the chunk ends or two equal bytes start, or 128 when there is none |
| `Encoding.RunAt` | lib/hexapdf/filter/run_length_decode.rb:92-93 | where two equal bytes start, the run taken is valid, repeats that byte, stands for the bytes there, and stops only at 128 bytes, the chunk end or a different byte |
| `Encoding.LiteralAt` | lib/hexapdf/filter/run_length_decode.rb:95-96 | where no two equal bytes start, the literal taken is 1..128 bytes of the chunk, holds no pair of equal bytes, and ends at the first pair or the chunk end unless capped at 128 |
| `Encoding.NextRecord` | lib/hexapdf/filter/run_length_decode.rb:91-97 | the record taken at a position stands for the bytes there. It is a run exactly when two equal bytes start there, and a run is maximal up to 128. A literal has no two adjacent equal bytes and stops at the first pair or the chunk end, unless capped at 128 |
| `Encoding.ScanFrom` | lib/hexapdf/filter/run_length_decode.rb:91-98 | the records scanned from a position are valid and expand to exactly the rest of the chunk |
| `Encoding.Scan` | lib/hexapdf/filter/run_length_decode.rb:89-98 | a chunk's records are valid, expand to the chunk, and are none exactly for an empty chunk |
| `Encoding.EncodeChunk` | lib/hexapdf/filter/run_length_decode.rb:89-99 | the definition: the wire form of the records one chunk is scanned into; `Encoding.EncodedChunkDecodes` gives its meaning, that it decodes back to the chunk and is self-delimiting |
| `Encoding.Encode` | lib/hexapdf/filter/run_length_decode.rb:86-103 | one output chunk per input chunk, each the encoding of that chunk alone, then the final chunk [128]; no chunk is empty unless its input chunk was; the concatenated output, EOD included, decodes to the concatenated input for any content and chunking |
| `Encoding.EncodeRunVector` | lib/hexapdf/filter/run_length_decode.rb:92-93 | "AAAAAAAA" encodes to [249, 'A'] |
| `Encoding.EncodeLiteralVector` | lib/hexapdf/filter/run_length_decode.rb:94-96 | "ABCDEF" encodes to [5, 'A'..'F'] |
| `Encoding.EncodeLongRunVector` | lib/hexapdf/filter/run_length_decode.rb:92-96 | 129 equal bytes encode as two records, a run of 128 then a one-byte literal |
| `Encoding.EncodedChunkDecodes` | lib/hexapdf/filter/run_length_decode.rb:88-99 | an encoded chunk is self-delimiting: it decodes to the chunk and decoding continues right after it |
| `RoundTrip.StreamRoundTrip` | lib/hexapdf/filter/run_length_decode.rb:49-103 | the chunked decoder as written, fed the encoder's chunks, restores the input when no input chunk is empty |
| `RoundTrip.SkippingRoundTrip` | lib/hexapdf/filter/run_length_decode.rb:49-103 | the corrected chunked decoder, fed the encoder's chunks, restores every input |
| `RoundTrip.EmptyChunkBreaksRoundTrip` | lib/hexapdf/filter/run_length_decode.rb:54-99 | as written, encoding [[], ['A']] and decoding the result yields nothing |

## Left out

- The Fiber mechanics (`Fiber.new`, `Fiber.yield`, `resume`, `alive?`). The source is a sequence of chunks, and the decoder's output is the concatenation of its yields. Where the intermediate yields fall, including the empty ones, is not modelled.
- A source that returns nil from `resume` while still `alive?` is treated as exhausted at that point. Anything such a source would produce later is not modelled.
- Ruby string encodings and the `StringScanner` engine: strings are binary, `.` with `/m` matches any byte, and lengths count bytes. The two patterns are replaced by the functions `RunLength` and `LiteralLength`.
- The `FilterError` class and the filter registration: the error is the `Err` result, which carries the output emitted before it.
- The ignored options argument of both entry points.
- `StreamDecoder.DecodeStream`: it is related to `DecodeAll` only when no empty chunk is fetched at a record boundary before EOD. When one is, the source really does behave differently (see Findings); the model does not state what it returns then beyond the concrete cases.
- `StreamDecoder.RunIgnoresChunksAfterEod`: as written, the chunks up to the one that holds EOD must be non-empty, because an empty one at a record boundary before the marker ends decoding early (see Findings). The appended chunks may be anything.

## Findings

| source | as written | input that shows it | evidently intended | confidence | as-written member | corrected member |
|---|---|---|---|---|---|---|
| lib/hexapdf/filter/run_length_decode.rb:75 | at a record boundary one chunk is fetched. If it is empty, `i < data.length` at :54 is false and decoding ends silently, skipping all later chunks (the same holds for an empty first chunk at :53) | chunks [[249,65], [], [0,66]] decode to eight 'A's without the 'B'. The encoder's output for input chunks [[], [65]] decodes to nothing | empty chunks are skipped and decoding goes on with the next non-empty chunk | medium, not executed | `StreamDecoder.EmptyChunkEndsDecoding` | `StreamDecoder.DecodeStreamSkippingEmpty` |
