/** The records of a run-length encoded stream (ISO 32000-1, section 7.4.5):
    a literal record copies 1..128 bytes verbatim, a run record repeats one
    byte 2..128 times. Both the encoder and the decoder are stated against
    this abstract form. */
module Records {
  import opened Framing

  /** The most bytes one record stands for. */
  const MaxRecordLength: nat := 128

  datatype Record = Literal(data: Bytes) | Run(value: byte, count: nat)

  predicate Valid(r: Record)
  {
    match r
    case Literal(d) => 1 <= |d| <= MaxRecordLength
    case Run(_, n) => 2 <= n <= MaxRecordLength
  }

  predicate AllValid(rs: seq<Record>)
  {
    forall i :: 0 <= i < |rs| ==> Valid(rs[i])
  }

  /** The length byte that introduces `r` on the wire. No record header is
      the end-of-data marker, and the header alone tells the record's kind
      and the number of bytes it stands for. */
  function Header(r: Record): (h: byte)
    requires Valid(r)
    ensures h != EOD
    ensures r.Literal? <==> h < 128
    ensures r.Literal? ==> h + 1 == |r.data|
    ensures r.Run? ==> 257 - h == r.count
  {
    match r
    case Literal(d) => |d| - 1
    case Run(_, n) => 257 - n
  }

  /** The number of bytes a record whose header is `h` occupies on the wire. */
  function WireSize(h: byte): nat
    requires h != EOD
  {
    if h < 128 then h + 2 else 2
  }

  /** The wire form of one record: header, then the literal bytes or the
      single repeated byte. It is as long as its header announces. */
  function Serialize(r: Record): (w: Bytes)
    requires Valid(r)
    ensures |w| > 0 && w[0] == Header(r) && |w| == WireSize(w[0])
  {
    match r
    case Literal(d) => [Header(r)] + d
    case Run(v, _) => [Header(r), v]
  }

  /** The number of bytes one record stands for. */
  function Width(r: Record): nat
  {
    match r
    case Literal(d) => |d|
    case Run(_, n) => n
  }

  /** The bytes one record stands for. */
  function Expand(r: Record): (e: Bytes)
    ensures |e| == Width(r)
  {
    match r
    case Literal(d) => d
    case Run(v, n) => Repeat(v, n)
  }

  function SerializeAll(rs: seq<Record>): Bytes
    requires AllValid(rs)
  {
    if |rs| == 0 then [] else Serialize(rs[0]) + SerializeAll(rs[1..])
  }

  function ExpandAll(rs: seq<Record>): Bytes
  {
    if |rs| == 0 then [] else Expand(rs[0]) + ExpandAll(rs[1..])
  }

  lemma ExpandAllCons(r: Record, rs: seq<Record>)
    ensures ExpandAll([r] + rs) == Expand(r) + ExpandAll(rs)
  {
    assert ([r] + rs)[1..] == rs;
  }

  lemma AllValidTail(rs: seq<Record>)
    requires |rs| > 0 && AllValid(rs)
    ensures AllValid(rs[1..])
  {
    forall i | 0 <= i < |rs[1..]| ensures Valid(rs[1..][i]) {
      assert rs[1..][i] == rs[i + 1];
    }
  }

  lemma AllValidCons(r: Record, rs: seq<Record>)
    requires Valid(r) && AllValid(rs)
    ensures AllValid([r] + rs)
  {
    forall i | 0 <= i < |[r] + rs| ensures Valid(([r] + rs)[i]) {
      if i > 0 {
        assert ([r] + rs)[i] == rs[i - 1];
      }
    }
  }
}
