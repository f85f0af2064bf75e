/** The run-length / bit-packing hybrid that carries dictionary codes
    (RleEncoder / RleDecoder, arrow/util/rle-encoding.h, which is not part of this
    model), as laid out in the section "Run Length Encoding / Bit-Packing Hybrid
    (RLE = 3)" of the Parquet format.  A stream is a sequence of runs, each opening
    with a ULEB128 header `h`:
      - `h` even: a repeated run of `h / 2` copies of one value, stored in
        ceil(bit_width / 8) little-endian bytes;
      - `h` odd: a bit-packed run of `(h / 2) * 8` values of `bit_width` bits each.
    The decoder is modelled by the whole sequence of codes it can produce from a
    buffer; the encoder writes repeated runs only, which is a valid stream. */
module Rle {
  import opened Common
  import opened BitStream

  /** Bytes holding one repeated value: ceil(bit_width / 8). */
  function ValueBytes(w: nat): nat
  {
    (w + 7) / 8
  }

  function Repeat(v: nat, n: nat): (s: seq<nat>)
    ensures |s| == n && forall i :: 0 <= i < n ==> s[i] == v
  {
    if n == 0 then [] else [v] + Repeat(v, n - 1)
  }

  /** Bits taken by `n` packed values of `w` bits: n * w. */
  function PackedBits(n: nat, w: nat): (b: nat)
    ensures n > 0 ==> b >= w
  {
    if n == 0 then 0 else w + PackedBits(n - 1, w)
  }

  /** `n` bit-packed values of `w` bits each, starting at bit `pos`. */
  function Literals(data: seq<byte>, pos: nat, w: nat, n: nat): (s: seq<nat>)
    requires pos + PackedBits(n, w) <= 8 * |data|
    ensures |s| == n
    ensures forall i :: 0 <= i < n ==> s[i] < Pow2(w)
    decreases n
  {
    if n == 0 then []
    else [BitsAt(data, pos, w)] + Literals(data, pos + w, w, n - 1)
  }

  /** The next run at the cursor: its codes and the reader after it, or None at the
      end of the data or when the run does not fit in it. */
  function NextRun(r: BitReader, w: nat): (res: Option<(seq<nat>, BitReader)>)
    requires r.Valid()
    ensures res.Some? ==> res.value.1.Valid() && res.value.1.data == r.data &&
                          res.value.1.bitPos > r.bitPos
  {
    match ReadUleb(r)
    case Failure(_) => None
    case Success((h, r1)) =>
      if h % 2 == 0 then
        match GetAligned(r1, ValueBytes(w))
        case Failure(_) => None
        case Success((v, r2)) => Some((Repeat(v, h / 2), r2))
      else
        var n := (h / 2) * 8;
        if r1.bitPos + PackedBits(n, w) <= 8 * |r1.data| then
          Some((Literals(r1.data, r1.bitPos, w, n), BitReader(r1.data, r1.bitPos + PackedBits(n, w))))
        else None
  }

  /** Every code decodable from the reader's position on; decoding ends at the end of
      the data or at the first run that does not fit in it. */
  function DecodeRuns(r: BitReader, w: nat): (codes: seq<nat>)
    requires r.Valid()
    decreases 8 * |r.data| - r.bitPos
  {
    match NextRun(r, w)
    case None => []
    case Some((run, r1)) => run + DecodeRuns(r1, w)
  }

  /** RleDecoder(data, len, bit_width) viewed as the codes it will hand out. */
  function RleDecode(data: seq<byte>, w: nat): seq<nat>
  {
    DecodeRuns(BitReader(data, 0), w)
  }

  /** Length of the run of equal codes that opens `codes`. */
  function LeadRun(codes: seq<nat>): (k: nat)
    requires codes != []
    ensures 1 <= k <= |codes|
    ensures forall i :: 0 <= i < k ==> codes[i] == codes[0]
    ensures k < |codes| ==> codes[k] != codes[0]
    decreases |codes|
  {
    if |codes| == 1 || codes[1] != codes[0] then 1
    else
      var k' := LeadRun(codes[1..]);
      1 + k'
  }

  predicate CodesFit(codes: seq<nat>, w: nat)
  {
    forall i :: 0 <= i < |codes| ==> codes[i] < Pow2(w)
  }

  /** The encoder: one repeated run per maximal run of equal codes. */
  function RleEncode(codes: seq<nat>, w: nat): (e: seq<byte>)
    requires CodesFit(codes, w)
    ensures codes == [] <==> e == []
    decreases |codes|
  {
    if codes == [] then []
    else
      var k := LeadRun(codes);
      ValueBytesHold(codes[0], w);
      UlebEncode(2 * k) + LittleEndianBytes(codes[0], ValueBytes(w)) + RleEncode(codes[k..], w)
  }

  /** The encoder writing into a buffer of `capacity` bytes: it reports a full buffer
      exactly when the encoding does not fit. */
  function RleEncodeInto(codes: seq<nat>, w: nat, capacity: int): (res: Option<seq<byte>>)
    requires CodesFit(codes, w)
    ensures res.Some? <==> |RleEncode(codes, w)| <= capacity
    ensures res.Some? ==> RleDecode(res.value, w) == codes
  {
    var e := RleEncode(codes, w);
    if |e| <= capacity then
      RleRoundTrip(codes, w);
      Some(e)
    else None
  }

  lemma {:induction false} Pow2Mono(a: nat, b: nat)
    requires a <= b
    ensures Pow2(a) <= Pow2(b)
    decreases b
  {
    if a < b {
      Pow2Mono(a, b - 1);
    }
  }

  lemma ValueBytesHold(v: nat, w: nat)
    requires v < Pow2(w)
    ensures ValueBytesFit(v, w)
  {
    Pow2Mono(w, 8 * ValueBytes(w));
  }

  /** The decoder's step over a repeated run. */
  lemma NextRunRepeated(r: BitReader, w: nat, k: nat, r1: BitReader, v: nat, r2: BitReader)
    requires r.Valid() && ReadUleb(r) == Success((2 * k, r1))
    requires r1.Valid() && GetAligned(r1, ValueBytes(w)) == Success((v, r2))
    ensures NextRun(r, w) == Some((Repeat(v, k), r2))
  {
    assert (2 * k) % 2 == 0 && (2 * k) / 2 == k;
  }

  /** A value written little-endian at the next byte boundary reads back. */
  lemma ReadWrittenValue(r: BitReader, w: nat, v: nat, r2: BitReader)
    requires r.Valid() && ValueBytesFit(v, w)
    requires BytesAhead(r, LittleEndianBytes(v, ValueBytes(w)))
    requires r2 == BitReader(r.data, 8 * (BytePos(r) + ValueBytes(w)))
    ensures GetAligned(r, ValueBytes(w)) == Success((v, r2))
  {
    LittleEndianRoundTrip(v, ValueBytes(w));
  }

  /** The header of a run written at the next byte boundary reads back. */
  lemma ReadWrittenHeader(r: BitReader, k: nat, rest: seq<byte>, r1: BitReader)
    requires r.Valid() && BytesAhead(r, UlebEncode(2 * k) + rest)
    requires r1 == BitReader(r.data, 8 * (BytePos(r) + |UlebEncode(2 * k)|))
    ensures ReadUleb(r) == Success((2 * k, r1))
    ensures BytesAhead(r1, rest)
  {
    var hdr := UlebEncode(2 * k);
    BytesAheadSplit(r, hdr, rest);
    UlebRoundTrip(r, 2 * k);
    AlignedBytePos(r.data, BytePos(r) + |hdr|);
  }

  lemma BytesAheadSplit(r: BitReader, x: seq<byte>, y: seq<byte>)
    requires BytesAhead(r, x + y)
    ensures BytesAhead(r, x)
    ensures r.data[BytePos(r) + |x|..BytePos(r) + |x| + |y|] == y
  {
    var b := BytePos(r);
    assert r.data[b..b + |x| + |y|][..|x|] == r.data[b..b + |x|];
    assert r.data[b..b + |x| + |y|][|x|..] == r.data[b + |x|..b + |x| + |y|];
  }

  /** Where the encoding of a non-empty sequence splits into its first run and the rest. */
  lemma EncodeSplit(data: seq<byte>, b: nat, codes: seq<nat>, w: nat)
    requires CodesFit(codes, w) && codes != [] && b <= |data|
    requires data[b..] == RleEncode(codes, w)
    ensures ValueBytesFit(codes[0], w)
    ensures var k := LeadRun(codes);
            var hdr := UlebEncode(2 * k);
            var val := LittleEndianBytes(codes[0], ValueBytes(w));
            b + |hdr| + |val| <= |data| &&
            data[b..b + |hdr|] == hdr &&
            data[b + |hdr|..b + |hdr| + |val|] == val &&
            data[b + |hdr| + |val|..] == RleEncode(codes[LeadRun(codes)..], w)
  {
    ValueBytesHold(codes[0], w);
    var k := LeadRun(codes);
    var hdr := UlebEncode(2 * k);
    var val := LittleEndianBytes(codes[0], ValueBytes(w));
    var tail := RleEncode(codes[k..], w);
    assert data[b..] == hdr + val + tail;
    assert data[b..][..|hdr|] == hdr;
    assert data[b..][|hdr|..|hdr| + |val|] == val;
    assert data[b..][|hdr| + |val|..] == tail;
  }

  predicate ValueBytesFit(v: nat, w: nat)
  {
    v < Pow2(8 * ValueBytes(w))
  }

  /** Where a header and a value written at the next byte boundary end. */
  lemma EncodedRunLayout(r: BitReader, hdr: seq<byte>, val: seq<byte>, e: nat, r2: BitReader)
    requires r.Valid() && e == BytePos(r) + |hdr| + |val| <= |r.data|
    requires r.data[BytePos(r)..BytePos(r) + |hdr|] == hdr
    requires r.data[BytePos(r) + |hdr|..e] == val
    requires r2 == BitReader(r.data, 8 * e)
    ensures r2.Valid() && BytePos(r2) == e
    ensures BytesAhead(r, hdr + val)
  {
    AlignedBytePos(r.data, e);
    SliceJoin(r.data, BytePos(r), BytePos(r) + |hdr|, e);
  }

  /** A repeated run written at the next byte boundary reads back as that run. */
  lemma RunReadsBack(r: BitReader, w: nat, k: nat, v: nat, e: nat, r2: BitReader)
    requires r.Valid() && ValueBytesFit(v, w)
    requires e == BytePos(r) + |UlebEncode(2 * k)| + ValueBytes(w) <= |r.data|
    requires r.data[BytePos(r)..BytePos(r) + |UlebEncode(2 * k)|] == UlebEncode(2 * k)
    requires r.data[BytePos(r) + |UlebEncode(2 * k)|..e] == LittleEndianBytes(v, ValueBytes(w))
    requires r2 == BitReader(r.data, 8 * e)
    ensures NextRun(r, w) == Some((Repeat(v, k), r2))
    ensures r2.Valid() && BytePos(r2) == e
  {
    var b := BytePos(r);
    var hdr := UlebEncode(2 * k);
    var val := LittleEndianBytes(v, ValueBytes(w));
    EncodedRunLayout(r, hdr, val, e, r2);
    var r1 := BitReader(r.data, 8 * (b + |hdr|));
    ReadWrittenHeader(r, k, val, r1);
    AlignedBytePos(r.data, b + |hdr|);
    assert r2 == BitReader(r1.data, 8 * (BytePos(r1) + ValueBytes(w)));
    ReadWrittenValue(r1, w, v, r2);
    NextRunRepeated(r, w, k, r1, v, r2);
  }

  /** The first run of an encoding found at the next byte boundary decodes as the
      leading run of the codes, and the rest of the encoding follows it. */
  lemma NextRunEncoded(r: BitReader, codes: seq<nat>, w: nat) returns (r2: BitReader)
    requires CodesFit(codes, w) && codes != []
    requires r.Valid() && BytePos(r) <= |r.data| && r.data[BytePos(r)..] == RleEncode(codes, w)
    ensures NextRun(r, w) == Some((Repeat(codes[0], LeadRun(codes)), r2))
    ensures r2.Valid() && BytePos(r2) <= |r2.data| &&
            r2.data[BytePos(r2)..] == RleEncode(codes[LeadRun(codes)..], w)
  {
    var b := BytePos(r);
    var k := LeadRun(codes);
    EncodeSplit(r.data, b, codes, w);
    var e := b + |UlebEncode(2 * k)| + ValueBytes(w);
    r2 := BitReader(r.data, 8 * e);
    RunReadsBack(r, w, k, codes[0], e, r2);
  }

  /** Decoding an encoded sequence found at the next byte boundary gives it back. */
  lemma {:induction false} DecodeEncoded(r: BitReader, codes: seq<nat>, w: nat)
    requires CodesFit(codes, w)
    requires r.Valid() && BytePos(r) <= |r.data| && r.data[BytePos(r)..] == RleEncode(codes, w)
    ensures DecodeRuns(r, w) == codes
    decreases |codes|
  {
    if codes == [] {
      assert ReadUleb(r).Failure?;
    } else {
      var k := LeadRun(codes);
      var r2 := NextRunEncoded(r, codes, w);
      DecodeEncoded(r2, codes[k..], w);
      assert Repeat(codes[0], k) == codes[..k];
      SplitAt(codes, k);
    }
  }

  /** Round trip of the pair: decoding what the encoder wrote gives the codes back. */
  lemma RleRoundTrip(codes: seq<nat>, w: nat)
    requires CodesFit(codes, w)
    ensures RleDecode(RleEncode(codes, w), w) == codes
  {
    DecodeEncoded(BitReader(RleEncode(codes, w), 0), codes, w);
  }
}
