/** Shared vocabulary of the run-length codec: bytes, the end-of-data
    marker, chunk concatenation and the decoder's result type. */
module Framing {

  /** One byte of a binary string. */
  type byte = b: int | 0 <= b < 256

  type Bytes = seq<byte>

  /** The end-of-data marker (EOD) that terminates an encoded stream. */
  const EOD: byte := 128

  /** `n` copies of `x`: what a repeat record expands to. */
  function Repeat(x: byte, n: nat): (r: Bytes)
    ensures |r| == n
    ensures forall i :: 0 <= i < n ==> r[i] == x
  {
    if n == 0 then [] else [x] + Repeat(x, n - 1)
  }

  /** The logical byte stream a sequence of chunks represents. */
  function Flatten(chunks: seq<Bytes>): Bytes
  {
    if |chunks| == 0 then [] else chunks[0] + Flatten(chunks[1..])
  }

  predicate NonEmptyChunks(chunks: seq<Bytes>)
  {
    forall i :: 0 <= i < |chunks| ==> |chunks[i]| > 0
  }

  lemma NonEmptyChunksSuffix(chunks: seq<Bytes>, k: nat)
    requires NonEmptyChunks(chunks) && k <= |chunks|
    ensures NonEmptyChunks(chunks[k..])
  {
    forall i | 0 <= i < |chunks[k..]| ensures |chunks[k..][i]| > 0 {
      assert chunks[k..][i] == chunks[k + i];
    }
  }

  /** Dropping a prefix of the first part of a concatenation. */
  lemma DropAppend(a: Bytes, b: Bytes, k: nat)
    requires k <= |a|
    ensures (a + b)[k..] == a[k..] + b
  {
  }

  lemma AppendAssoc(a: Bytes, b: Bytes, c: Bytes)
    ensures a + (b + c) == (a + b) + c
  {
  }

  lemma TakeAppend(a: Bytes, b: Bytes, i: nat, j: nat)
    requires i <= j <= |a|
    ensures (a + b)[i .. j] == a[i .. j]
  {
  }

  lemma SliceOfDrop(a: Bytes, k: nat, i: nat, j: nat)
    requires i <= j && k + j <= |a|
    ensures a[k..][i .. j] == a[k + i .. k + j]
  {
  }

  /** Splitting the first chunk off a concatenation of chunk sequences. */
  lemma ChunksAppendTail(a: seq<Bytes>, b: seq<Bytes>)
    requires |a| > 0
    ensures (a + b)[0] == a[0] && (a + b)[1..] == a[1..] + b
  {
  }

  lemma SliceOfSlice(a: Bytes, i: nat, j: nat, k: nat)
    requires i + k <= j <= |a|
    ensures a[i .. j][k..] == a[i + k .. j]
  {
  }

  lemma DropDrop(a: Bytes, i: nat, j: nat)
    requires i + j <= |a|
    ensures a[i..][j..] == a[i + j ..]
  {
  }

  /** The decoder's only failure: a record header promises bytes that the
      source cannot supply ("Missing data for run length encoded stream").
      `emitted` is the output handed to the consumer before the failure. */
  datatype FilterError = MissingData(emitted: Bytes)

  datatype Result = Ok(output: Bytes) | Err(error: FilterError)

  /** `r` preceded by output `p` that was produced before it. */
  function Prepend(p: Bytes, r: Result): Result
  {
    match r
    case Ok(o) => Ok(p + o)
    case Err(MissingData(e)) => Err(MissingData(p + e))
  }

  lemma PrependEmpty(r: Result)
    ensures Prepend([], r) == r
  {
    match r
    case Ok(o) => assert [] + o == o;
    case Err(MissingData(e)) => assert [] + e == e;
  }

  lemma PrependPrepend(p: Bytes, q: Bytes, r: Result)
    ensures Prepend(p, Prepend(q, r)) == Prepend(p + q, r)
  {
    match r
    case Ok(o) => assert p + (q + o) == (p + q) + o;
    case Err(MissingData(e)) => assert p + (q + e) == (p + q) + e;
  }

  lemma {:induction false} FlattenAppend(a: seq<Bytes>, b: seq<Bytes>)
    ensures Flatten(a + b) == Flatten(a) + Flatten(b)
    decreases |a|
  {
    if |a| == 0 {
      assert a + b == b;
    } else {
      assert (a + b)[1..] == a[1..] + b;
      FlattenAppend(a[1..], b);
    }
  }
}
