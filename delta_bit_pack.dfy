/** DeltaBitPackDecoder (parquet/encoding-internal.h): the decoder of the section
    "Delta Encoding (DELTA_BINARY_PACKED = 5)" of the Parquet format.  A block starts
    with a header (block size, number of mini-blocks, value count, first value as
    ULEB128 / zigzag numbers, then the minimum delta and one bit-width byte per
    mini-block); every further value is the previous one plus the minimum delta plus
    the next bit-packed delta of the current mini-block's width.

    The decoder's state machine is specified by pure functions on a `DeltaState`
    (InitBlockSpec, NextValue, DecodeN); the class updates its fields as the source
    does and is proved to follow them. */
module DeltaBitPack {
  import opened Common
  import opened BitStream

  /** The physical types of a Parquet column (parquet::Type). */
  datatype PhysicalType = Boolean | Int32 | Int64 | Int96 | Float | Double | ByteArray | FixedLenByteArray

  const IntegerOnlyMessage := "Delta bit pack encoding should only be for integer data."

  /** A value of C++ type uint64_t. */
  type uint64 = x: int | 0 <= x < TwoTo64

  /** The fields of a block header, in the order InitBlock reads them. */
  datatype Header = Header(blockSize: int32, numMiniBlocks: int32, valuesInBlock: int32,
                           firstValue: int32, minDelta: int32, widths: seq<byte>)

  /** The decoder's fields set from a block header, fixed until the next one. */
  datatype Block = Block(
    valuesInBlock: int32,           // values_current_block_
    numMiniBlocks: int32,           // num_mini_blocks_
    valuesPerMiniBlock: uint64,     // values_per_mini_block_
    minDelta: int32,                // min_delta_
    widths: seq<byte>)              // delta_bit_widths_

  /** The decoder's fields other than num_values_. */
  datatype DeltaState = DeltaState(
    reader: BitReader,              // decoder_
    block: Block,
    miniBlockIdx: nat,              // mini_block_idx_
    deltaBitWidth: nat,             // delta_bit_width_
    valuesCurrentMiniBlock: uint64, // values_current_mini_block_
    lastValue: int32)               // last_value_
  {
    predicate Ok()
    {
      reader.Valid()
    }
  }

  /** The mini-block bit widths: `k` aligned bytes. */
  function ReadWidths(r: BitReader, k: nat): (res: Result<(seq<byte>, BitReader)>)
    requires r.Valid()
    ensures res.Success? ==> |res.value.0| == k && res.value.1.Valid() && res.value.1.data == r.data
    ensures res.Failure? ==> res.error == Eof
    decreases k
  {
    if k == 0 then Success(([], r))
    else
      var b := GetAlignedByte(r);
      if b.Failure? then Failure(b.error)
      else Prepend([b.value.0], ReadWidths(b.value.1, k - 1))
  }

  /** The fixed fields of a block header, read as InitBlock reads them; a negative
      mini-block count is passed to the buffer allocation, which the source does not
      check.  The widths are not read yet. */
  function HeaderFields(r: BitReader): (res: Result<(Header, BitReader)>)
    requires r.Valid()
    ensures res.Success? ==> res.value.0.numMiniBlocks >= 0 && res.value.0.widths == [] &&
                             res.value.1.Valid() && res.value.1.data == r.data
  {
    var a := GetVlqInt(r);
    if a.Failure? then Failure(a.error) else
    var b := GetVlqInt(a.value.1);
    if b.Failure? then Failure(b.error) else
    var c := GetVlqInt(b.value.1);
    if c.Failure? then Failure(c.error) else
    var d := GetZigZagVlqInt(c.value.1);
    if d.Failure? then Failure(d.error) else
    if b.value.0 < 0 then Failure(Unchecked("negative number of mini-blocks")) else
    var e := GetZigZagVlqInt(d.value.1);
    if e.Failure? then Failure(e.error)
    else Success((Header(a.value.0, b.value.0, c.value.0, d.value.0, e.value.0, []), e.value.1))
  }

  /** The header reads of InitBlock: the fixed fields, then one bit width per
      mini-block.  A zero mini-block count makes the block size be divided by zero,
      which the source does not check either. */
  function ParseHeader(r: BitReader): (res: Result<(Header, BitReader)>)
    requires r.Valid()
    ensures res.Success? ==> res.value.0.numMiniBlocks > 0 &&
                             |res.value.0.widths| == res.value.0.numMiniBlocks as nat &&
                             res.value.1.Valid() && res.value.1.data == r.data
  {
    var f := HeaderFields(r);
    if f.Failure? then Failure(f.error) else
    var w := ReadWidths(f.value.1, f.value.0.numMiniBlocks);
    if w.Failure? then Failure(w.error)
    else if f.value.0.numMiniBlocks == 0 then Failure(Unchecked("block size divided by zero mini-blocks"))
    else Success((f.value.0.(widths := w.value.0), w.value.1))
  }

  /** InitBlock: read a header; the first mini-block is current and holds
      block_size / num_mini_blocks values (C++ division, stored in a uint64_t). */
  function InitBlockSpec(s: DeltaState): (res: Result<DeltaState>)
    requires s.Ok()
    ensures res.Success? ==> res.value.Ok()
  {
    var p := ParseHeader(s.reader);
    if p.Failure? then Failure(p.error) else
    var h := p.value.0;
    var perMiniBlock := ToUint64(TruncDiv(h.blockSize, h.numMiniBlocks));
    Success(DeltaState(p.value.1, Block(h.valuesInBlock, h.numMiniBlocks, perMiniBlock, h.minDelta, h.widths),
                       0, h.widths[0] as nat, perMiniBlock, h.firstValue))
  }

  /** The bit widths read before the first of `k` aligned reads that runs out of
      data; all `k` of them, as ReadWidths gives them, when none does. */
  function WidthsBefore(r: BitReader, k: nat): (ws: seq<byte>)
    requires r.Valid()
    ensures |ws| <= k
    ensures ReadWidths(r, k).Success? ==> ws == ReadWidths(r, k).value.0
    decreases k
  {
    if k == 0 then []
    else
      var b := GetAlignedByte(r);
      if b.Failure? then [] else [b.value.0] + WidthsBefore(b.value.1, k - 1)
  }

  /** What InitBlock has stored when one of its reads runs out of data: each field
      it read before that read (num_mini_blocks_, values_current_block_,
      last_value_, min_delta_, in that order), and, from the reading of last_value_
      on, a new widths buffer of num_mini_blocks_ bytes that starts with the widths
      read so far; its other bytes are not initialised.  The reader stays on the
      page; the mini-block index, its width and the two countdowns are untouched. */
  ghost predicate InitBlockAborted(s: DeltaState, t: DeltaState)
    requires s.Ok()
  {
    t.reader.Valid() && t.reader.data == s.reader.data &&
    t.miniBlockIdx == s.miniBlockIdx && t.deltaBitWidth == s.deltaBitWidth &&
    t.valuesCurrentMiniBlock == s.valuesCurrentMiniBlock && t.block.valuesPerMiniBlock == s.block.valuesPerMiniBlock &&
    var a := GetVlqInt(s.reader);
    if a.Failure? then t.block == s.block && t.lastValue == s.lastValue else
    var b := GetVlqInt(a.value.1);
    if b.Failure? then t.block == s.block && t.lastValue == s.lastValue else
    var c := GetVlqInt(b.value.1);
    if c.Failure? then t.block == s.block.(numMiniBlocks := b.value.0) && t.lastValue == s.lastValue else
    var d := GetZigZagVlqInt(c.value.1);
    if d.Failure? then
      t.block == s.block.(numMiniBlocks := b.value.0, valuesInBlock := c.value.0) && t.lastValue == s.lastValue
    else
      t.block.numMiniBlocks == b.value.0 && t.block.valuesInBlock == c.value.0 && t.lastValue == d.value.0 &&
      0 <= b.value.0 && |t.block.widths| == b.value.0 as nat &&
      var e := GetZigZagVlqInt(d.value.1);
      if e.Failure? then t.block.minDelta == s.block.minDelta
      else
        var ws := WidthsBefore(e.value.1, b.value.0 as nat);
        t.block.minDelta == e.value.0 && t.block.widths[..|ws|] == ws
  }

  /** A new buffer of `n` bytes (AllocateBuffer): the source leaves them
      uninitialised; the model zeroes them, and no contract depends on that. */
  function Unread(n: nat): (b: seq<byte>)
    ensures |b| == n
  {
    seq(n, _ => 0)
  }

  /** The state once InitBlock has read the fixed fields `h` of a header, leaving the
      reader at `r`: the widths buffer is allocated but not read yet. */
  function FieldsStored(s: DeltaState, h: Header, r: BitReader): (t: DeltaState)
    requires 0 <= h.numMiniBlocks
    ensures |t.block.widths| == h.numMiniBlocks as nat && t.reader == r
  {
    s.(reader := r, lastValue := h.firstValue,
       block := s.block.(numMiniBlocks := h.numMiniBlocks, valuesInBlock := h.valuesInBlock,
                         minDelta := h.minDelta, widths := Unread(h.numMiniBlocks as nat)))
  }

  /** A width read that runs out of data after the fixed fields are stored leaves
      the state InitBlockAborted describes. */
  lemma AbortedInWidths(s: DeltaState, t: DeltaState)
    requires s.Ok() && HeaderFields(s.reader).Success?
    requires var (h, r) := HeaderFields(s.reader).value;
             t == FieldsStored(s, h, r).(reader := t.reader, block := FieldsStored(s, h, r).block.(widths := t.block.widths)) &&
             t.reader.Valid() && t.reader.data == r.data && |t.block.widths| == h.numMiniBlocks as nat &&
             t.block.widths[..|WidthsBefore(r, h.numMiniBlocks as nat)|] == WidthsBefore(r, h.numMiniBlocks as nat)
    ensures InitBlockAborted(s, t)
  {
  }

  /** InitBlockSpec once the fixed fields `h` of the header are read, leaving the
      reader at `r`: the widths and the mini-block count decide the rest. */
  lemma InitBlockAfterFields(s: DeltaState, h: Header, r: BitReader)
    requires s.Ok() && HeaderFields(s.reader) == Success((h, r))
    ensures var w := ReadWidths(r, h.numMiniBlocks as nat);
            InitBlockSpec(s) ==
              if w.Failure? then Failure(w.error)
              else if h.numMiniBlocks == 0 then Failure(Unchecked("block size divided by zero mini-blocks"))
              else
                var per := ToUint64(TruncDiv(h.blockSize, h.numMiniBlocks));
                Success(DeltaState(w.value.1, Block(h.valuesInBlock, h.numMiniBlocks, per, h.minDelta, w.value.0),
                                0, w.value.0[0] as nat, per, h.firstValue))
  {
  }

  /** One value from the current mini-block: the previous value plus min_delta plus
      the next `delta_bit_width_` bits, all cut to 32 bits.  GetValue into an int64_t
      is defined for at most 64 bits. */
  function ReadDelta(s: DeltaState): (res: Result<(int32, DeltaState)>)
    requires s.Ok()
    ensures res.Success? ==> res.value.1.Ok() && res.value.1.lastValue == res.value.0
  {
    if s.deltaBitWidth > 64 then Failure(Unchecked("bit width above 64"))
    else
      var g := GetValue(s.reader, s.deltaBitWidth);
      if g.Failure? then Failure(g.error) else
      var next := Wrap32(s.lastValue + Wrap32(g.value.0 + s.block.minDelta));
      Success((next, s.(reader := g.value.1, lastValue := next,
                        valuesCurrentMiniBlock := DecUint64(s.valuesCurrentMiniBlock))))
  }

  /** One iteration of GetInternal's loop: move to the next mini-block when the
      current one is used up, and when there is none left read a new header and
      emit its first value. */
  function NextValue(s: DeltaState): (res: Result<(int32, DeltaState)>)
    requires s.Ok()
    ensures res.Success? ==> res.value.1.Ok() && res.value.1.lastValue == res.value.0
  {
    if s.valuesCurrentMiniBlock == 0 then
      var idx := s.miniBlockIdx + 1;
      if idx < |s.block.widths| then
        ReadDelta(s.(miniBlockIdx := idx, deltaBitWidth := s.block.widths[idx] as nat,
                     valuesCurrentMiniBlock := s.block.valuesPerMiniBlock))
      else
        var s1 := InitBlockSpec(s.(miniBlockIdx := idx));
        if s1.Failure? then Failure(s1.error) else Success((s1.value.lastValue, s1.value))
    else
      ReadDelta(s)
  }

  /** `n` values in a row. */
  function DecodeN(s: DeltaState, n: nat): (res: Result<(seq<int32>, DeltaState)>)
    requires s.Ok()
    ensures res.Success? ==> |res.value.0| == n && res.value.1.Ok()
    decreases n
  {
    if n == 0 then Success(([], s))
    else
      var next := NextValue(s);
      if next.Failure? then Failure(next.error)
      else Prepend([next.value.0], DecodeN(next.value.1, n - 1))
  }

  /** DecodeN one value at a time. */
  lemma DecodeNStep(s: DeltaState, m: nat)
    requires s.Ok()
    ensures var next := NextValue(s);
            DecodeN(s, m + 1) == if next.Failure? then Failure(next.error)
                                 else Prepend([next.value.0], DecodeN(next.value.1, m))
  {
  }

  lemma DecodeNOk(s: DeltaState, m: nat, v: int32, s': DeltaState)
    requires s.Ok() && s'.Ok() && NextValue(s) == Success((v, s'))
    ensures DecodeN(s, m + 1) == Prepend([v], DecodeN(s', m))
  {
  }

  /** `prefix` is how a run of `k` values from `s0` starts, and `s` is where the
      rest of the run continues from. */
  predicate Tracks(s0: DeltaState, k: nat, prefix: seq<int32>, s: DeltaState)
    requires s0.Ok() && s.Ok()
  {
    |prefix| <= k && DecodeN(s0, k) == Prepend(prefix, DecodeN(s, k - |prefix|))
  }

  /** A tracked run goes on with the next value decoding fine. */
  lemma TracksNext(s0: DeltaState, k: nat, prefix: seq<int32>, s: DeltaState, v: int32, s': DeltaState)
    requires s0.Ok() && s.Ok() && s'.Ok() && |prefix| < k && NextValue(s) == Success((v, s'))
    requires Tracks(s0, k, prefix, s)
    ensures Tracks(s0, k, prefix + [v], s')
  {
    var m := k - |prefix| - 1;
    assert k - |prefix| == m + 1 && k - |prefix + [v]| == m;
    DecodeNOk(s, m, v, s');
    PrependTwice(prefix, [v], DecodeN(s', m));
  }

  /** ... and stops when the next value fails. */
  lemma TracksFail(s0: DeltaState, k: nat, prefix: seq<int32>, s: DeltaState)
    requires s0.Ok() && s.Ok() && |prefix| < k && NextValue(s).Failure?
    requires Tracks(s0, k, prefix, s)
    ensures DecodeN(s0, k) == Failure(NextValue(s).error)
  {
    DecodeNStep(s, k - |prefix| - 1);
  }

  lemma TracksStart(s0: DeltaState, k: nat)
    requires s0.Ok()
    ensures Tracks(s0, k, [], s0)
  {
    PrependNone(DecodeN(s0, k));
  }

  lemma TracksEnd(s0: DeltaState, k: nat, prefix: seq<int32>, s: DeltaState)
    requires s0.Ok() && s.Ok() && |prefix| == k
    requires Tracks(s0, k, prefix, s)
    ensures DecodeN(s0, k) == Success((prefix, s))
  {
    assert prefix + [] == prefix;
  }

  // ------------------------------------------------------------------
  // The writer side of a block header, and what the decoder makes of it.

  /** Header fields a writer can emit: the three counts are non-negative 32-bit
      numbers and there is one bit width per mini-block. */
  predicate Writable(h: Header)
  {
    h.blockSize >= 0 && h.numMiniBlocks > 0 && h.valuesInBlock >= 0 &&
    |h.widths| == h.numMiniBlocks as nat
  }

  /** A writer's block header followed by the bytes `rest`: the fixed fields in the
      order InitBlock reads them, then the bit widths. */
  function WriteHeader(h: Header, rest: seq<byte>): (e: seq<byte>)
    requires Writable(h)
  {
    UlebEncode(h.blockSize as nat) + (UlebEncode(h.numMiniBlocks as nat) + (UlebEncode(h.valuesInBlock as nat) +
    (UlebEncode(ZigZagEncode(h.firstValue)) + (UlebEncode(ZigZagEncode(h.minDelta)) + (h.widths + rest)))))
  }

  /** The length of the fixed fields of a written header. */
  function FieldsLength(h: Header): nat
    requires Writable(h)
  {
    |UlebEncode(h.blockSize as nat)| + |UlebEncode(h.numMiniBlocks as nat)| + |UlebEncode(h.valuesInBlock as nat)| +
    |UlebEncode(ZigZagEncode(h.firstValue))| + |UlebEncode(ZigZagEncode(h.minDelta))|
  }

  /** Written bit widths are read back one aligned byte each. */
  lemma {:induction false} WidthsRoundTrip(r: BitReader, widths: seq<byte>, rest: seq<byte>)
    requires r.Valid() && r.bitPos == 8 * BytePos(r) && BytesAhead(r, widths + rest)
    ensures BytePos(r) + |widths| <= |r.data|
    ensures ReadWidths(r, |widths|) == Success((widths, Skip(r, |widths|)))
    decreases widths
  {
    BytesAheadNext(r, widths, rest);
    if widths != [] {
      var w := widths[0];
      assert widths + rest == [w] + (widths[1..] + rest);
      BytesAheadNext(r, [w], widths[1..] + rest);
      var r1 := Skip(r, 1);
      WidthsRoundTrip(r1, widths[1..], rest);
      SkipTwice(r, 1, |widths| - 1);
      assert [w] + widths[1..] == widths;
    }
  }

  /** Written header fields are read back by HeaderFields, which stops in front of
      the bit widths. */
  lemma HeaderFieldsRoundTrip(r: BitReader, h: Header, rest: seq<byte>)
    requires r.Valid() && Writable(h) && BytesAhead(r, WriteHeader(h, rest))
    ensures BytePos(r) + FieldsLength(h) <= |r.data|
    ensures HeaderFields(r) == Success((h.(widths := []), Skip(r, FieldsLength(h))))
    ensures BytesAhead(Skip(r, FieldsLength(h)), h.widths + rest)
  {
    var e1, e2, e3 := UlebEncode(h.blockSize as nat), UlebEncode(h.numMiniBlocks as nat), UlebEncode(h.valuesInBlock as nat);
    var e4, e5 := UlebEncode(ZigZagEncode(h.firstValue)), UlebEncode(ZigZagEncode(h.minDelta));
    var t1, t2, t3, t4, t5 := e2 + (e3 + (e4 + (e5 + (h.widths + rest)))), e3 + (e4 + (e5 + (h.widths + rest))),
                              e4 + (e5 + (h.widths + rest)), e5 + (h.widths + rest), h.widths + rest;
    VlqStep(r, h.blockSize as nat, t1);
    var r1 := Skip(r, |e1|);
    VlqStep(r1, h.numMiniBlocks as nat, t2);
    var r2 := Skip(r1, |e2|);
    VlqStep(r2, h.valuesInBlock as nat, t3);
    var r3 := Skip(r2, |e3|);
    ZigZagStep(r3, h.firstValue, t4);
    var r4 := Skip(r3, |e4|);
    ZigZagStep(r4, h.minDelta, t5);
    var r5 := Skip(r4, |e5|);
    HeaderFieldsFrom(r, r1, r2, r3, r4, r5, h.(widths := []));
    assert r5 == Skip(r, FieldsLength(h)) by {
      SkipTwice(r, |e1|, |e2|);
      SkipTwice(r, |e1| + |e2|, |e3|);
      SkipTwice(r, |e1| + |e2| + |e3|, |e4|);
      SkipTwice(r, |e1| + |e2| + |e3| + |e4|, |e5|);
    }
  }

  /** HeaderFields after five successful reads. */
  lemma HeaderFieldsFrom(r: BitReader, r1: BitReader, r2: BitReader, r3: BitReader, r4: BitReader,
                         r5: BitReader, h: Header)
    requires r.Valid() && r1.Valid() && r2.Valid() && r3.Valid() && r4.Valid()
    requires h.numMiniBlocks >= 0 && h.widths == []
    requires GetVlqInt(r) == Success((h.blockSize, r1)) && GetVlqInt(r1) == Success((h.numMiniBlocks, r2))
    requires GetVlqInt(r2) == Success((h.valuesInBlock, r3))
    requires GetZigZagVlqInt(r3) == Success((h.firstValue, r4)) && GetZigZagVlqInt(r4) == Success((h.minDelta, r5))
    ensures HeaderFields(r) == Success((h, r5))
  {
  }

  /** A written header is read back whole, and the reader stops right after it. */
  lemma HeaderRoundTrip(r: BitReader, h: Header, rest: seq<byte>)
    requires r.Valid() && Writable(h) && BytesAhead(r, WriteHeader(h, rest))
    ensures BytePos(r) + FieldsLength(h) + |h.widths| <= |r.data|
    ensures ParseHeader(r) == Success((h, Skip(r, FieldsLength(h) + |h.widths|)))
  {
    var h0 := h.(widths := []);
    assert BytePos(r) + FieldsLength(h) <= |r.data| by { HeaderFieldsRoundTrip(r, h, rest); }
    var r5 := Skip(r, FieldsLength(h));
    assert HeaderFields(r) == Success((h0, r5)) && BytesAhead(r5, h.widths + rest) by {
      HeaderFieldsRoundTrip(r, h, rest);
    }
    assert BytePos(r5) + |h.widths| <= |r.data| &&
           ReadWidths(r5, h.numMiniBlocks as nat) == Success((h.widths, Skip(r5, |h.widths|))) by {
      WidthsRoundTrip(r5, h.widths, rest);
    }
    assert Skip(r5, |h.widths|) == Skip(r, FieldsLength(h) + |h.widths|) by {
      SkipTwice(r, FieldsLength(h), |h.widths|);
    }
    assert h0.(widths := h.widths) == h;
  }

  /** When the last mini-block is used up the next value comes from a new header: it
      is the header's first value, no delta is read, the first mini-block is current,
      and every mini-block holds block_size / num_mini_blocks values. */
  lemma FirstValueAfterHeader(s: DeltaState, h: Header, rest: seq<byte>)
    requires s.Ok() && Writable(h) && BytesAhead(s.reader, WriteHeader(h, rest))
    requires s.valuesCurrentMiniBlock == 0 && s.miniBlockIdx + 1 >= |s.block.widths|
    ensures BytePos(s.reader) + FieldsLength(h) + |h.widths| <= |s.reader.data|
    ensures var per := h.blockSize / h.numMiniBlocks;
            NextValue(s) ==
            Success((h.firstValue,
                     DeltaState(Skip(s.reader, FieldsLength(h) + |h.widths|),
                                Block(h.valuesInBlock, h.numMiniBlocks, per, h.minDelta, h.widths),
                                0, h.widths[0] as nat, per, h.firstValue)))
  {
    HeaderRoundTrip(s.reader, h, rest);
    TruncDivMatches(h.blockSize, h.numMiniBlocks);
  }

  /** Within a block every value is the previous one plus min_delta plus the next
      bits of the current mini-block's width, cut to 32 bits; the read fails exactly
      when those bits run past the data (or the width is above 64). */
  lemma DeltaIsSum(s: DeltaState)
    requires s.Ok()
    ensures var w := s.deltaBitWidth;
            ReadDelta(s).Success? <==> w <= 64 && s.reader.bitPos + w <= 8 * |s.reader.data|
    ensures s.deltaBitWidth <= 64 && ReadDelta(s).Failure? ==> ReadDelta(s).error == Eof
    ensures ReadDelta(s).Success? ==>
              var (v, t) := ReadDelta(s).value;
              v == Wrap32(s.lastValue + s.block.minDelta + BitsAt(s.reader.data, s.reader.bitPos, s.deltaBitWidth)) &&
              t == s.(reader := BitReader(s.reader.data, s.reader.bitPos + s.deltaBitWidth), lastValue := v,
                      valuesCurrentMiniBlock := DecUint64(s.valuesCurrentMiniBlock))
  {
    if s.deltaBitWidth <= 64 && s.reader.bitPos + s.deltaBitWidth <= 8 * |s.reader.data| {
      DeltaInRange(s);
    }
  }

  /** DeltaIsSum when the bits are there. */
  lemma DeltaInRange(s: DeltaState)
    requires s.Ok() && s.deltaBitWidth <= 64 && s.reader.bitPos + s.deltaBitWidth <= 8 * |s.reader.data|
    ensures var v := Wrap32(s.lastValue + s.block.minDelta + BitsAt(s.reader.data, s.reader.bitPos, s.deltaBitWidth));
            ReadDelta(s) == Success((v, s.(reader := BitReader(s.reader.data, s.reader.bitPos + s.deltaBitWidth),
                                           lastValue := v, valuesCurrentMiniBlock := DecUint64(s.valuesCurrentMiniBlock))))
  {
    var d := BitsAt(s.reader.data, s.reader.bitPos, s.deltaBitWidth);
    assert GetValue(s.reader, s.deltaBitWidth).value.0 == d;
    Wrap32OfSum(s.lastValue, d + s.block.minDelta);
    assert s.lastValue + (d + s.block.minDelta) == s.lastValue + s.block.minDelta + d;
  }

  /** Inside a mini-block with values left, the next value is the previous one plus
      min_delta plus the next bits of the mini-block's width; the header fields and
      the mini-block stay, and one value fewer is left in it. */
  lemma SameMiniBlock(s: DeltaState, v: int32, t: DeltaState)
    requires s.Ok() && s.valuesCurrentMiniBlock > 0 && NextValue(s) == Success((v, t))
    ensures t.block == s.block && t.miniBlockIdx == s.miniBlockIdx && t.deltaBitWidth == s.deltaBitWidth
    ensures t.valuesCurrentMiniBlock + 1 == s.valuesCurrentMiniBlock
    ensures v == Wrap32(s.lastValue + s.block.minDelta + BitsAt(s.reader.data, s.reader.bitPos, s.deltaBitWidth))
    ensures t.reader == BitReader(s.reader.data, s.reader.bitPos + s.deltaBitWidth)
  {
    DeltaIsSum(s);
  }

  /** A used-up mini-block that is not the block's last hands over to the next one
      in the order of the bit-width list, whose first value is read at its width;
      it then has values_per_mini_block - 1 values left. */
  lemma NextMiniBlock(s: DeltaState, v: int32, t: DeltaState)
    requires s.Ok() && s.valuesCurrentMiniBlock == 0 && s.miniBlockIdx + 1 < |s.block.widths|
    requires NextValue(s) == Success((v, t))
    ensures t.block == s.block && t.miniBlockIdx == s.miniBlockIdx + 1
    ensures t.deltaBitWidth == s.block.widths[t.miniBlockIdx] as nat
    ensures s.block.valuesPerMiniBlock > 0 ==> t.valuesCurrentMiniBlock + 1 == s.block.valuesPerMiniBlock
    ensures v == Wrap32(s.lastValue + s.block.minDelta + BitsAt(s.reader.data, s.reader.bitPos, t.deltaBitWidth))
    ensures t.reader == BitReader(s.reader.data, s.reader.bitPos + t.deltaBitWidth)
  {
    var c := s.(miniBlockIdx := s.miniBlockIdx + 1, deltaBitWidth := s.block.widths[s.miniBlockIdx + 1] as nat,
                valuesCurrentMiniBlock := s.block.valuesPerMiniBlock);
    assert ReadDelta(c) == Success((v, t));
    DeltaIsSum(c);
  }

  /** `vs` counts on from `start` in steps of `step`, modulo 2^32. */
  predicate Progression(vs: seq<int32>, start: int, step: int)
  {
    forall j :: 0 <= j < |vs| ==> vs[j] == Wrap32(start + (j + 1) * step)
  }

  lemma ProgressionShift(j: nat, start: int, step: int)
    ensures Wrap32(Wrap32(start + step) + (j + 1) * step) == Wrap32(start + (j + 1 + 1) * step)
  {
    var a := (j + 1) * step;
    assert (j + 2) * step == a + step;
    Wrap32OfSum(a, start + step);
  }

  lemma ProgressionCons(v: int32, vs: seq<int32>, start: int, step: int)
    requires v == Wrap32(start + step) && Progression(vs, v, step)
    ensures Progression([v] + vs, start, step)
  {
    var w := [v] + vs;
    forall j | 0 <= j < |w|
      ensures w[j] == Wrap32(start + (j + 1) * step)
    {
      if j > 0 {
        assert w[j] == vs[j - 1] == Wrap32(v + j * step);
        ProgressionShift(j - 1, start, step);
      }
    }
  }

  /** A mini-block of bit width 0 holds an arithmetic progression with step
      min_delta (modulo 2^32). */
  lemma {:induction false} ZeroWidthRun(s: DeltaState, n: nat)
    requires s.Ok() && s.deltaBitWidth == 0 && n <= s.valuesCurrentMiniBlock
    ensures DecodeN(s, n).Success?
    ensures Progression(DecodeN(s, n).value.0, s.lastValue, s.block.minDelta)
    decreases n
  {
    if n > 0 {
      var v := Wrap32(s.lastValue + s.block.minDelta);
      var s1 := s.(lastValue := v, valuesCurrentMiniBlock := s.valuesCurrentMiniBlock - 1);
      assert NextValue(s) == Success((v, s1)) by {
        DeltaIsSum(s);
      }
      ZeroWidthRun(s1, n - 1);
      var rest := DecodeN(s1, n - 1);
      assert DecodeN(s, n) == Success(([v] + rest.value.0, rest.value.1)) by {
        DecodeNOk(s, n - 1, v, s1);
      }
      ProgressionCons(v, rest.value.0, s.lastValue, s.block.minDelta);
    } else {
      assert DecodeN(s, 0) == Success(([], s));
    }
  }

  /** SetData as the source writes it: a new reader and the two countdowns reset,
      while the bit widths and the mini-block index of the previous page stay. */
  function SetDataAsWritten(s: DeltaState, data: seq<byte>): (t: DeltaState)
    ensures t.Ok() && t.reader == BitReader(data, 0)
  {
    s.(reader := BitReader(data, 0), block := s.block.(valuesInBlock := 0), valuesCurrentMiniBlock := 0)
  }

  /** SetData as the model does it: also the bit widths emptied and the mini-block
      index back to 0, so that the page's first value reads a block header. */
  function SetDataSpec(s: DeltaState, data: seq<byte>): (t: DeltaState)
    ensures t.Ok() && t.reader == BitReader(data, 0)
  {
    s.(reader := BitReader(data, 0), block := s.block.(valuesInBlock := 0, widths := []),
       miniBlockIdx := 0, valuesCurrentMiniBlock := 0)
  }

  /** A decoder reused for a second page whose first page stopped in the first of two
      zero-width mini-blocks: as written, the new page's first value is the old last
      value plus the old min_delta, read without looking at the page's header; with
      the header read, it is the header's first value. */
  lemma SetDataAsWrittenMisreads()
    ensures var s := DeltaState(BitReader([], 0), Block(0, 2, 4, 0, [0, 0]), 0, 0, 0, 7);
            var page := WriteHeader(Header(8, 2, 8, 1, 0, [0, 0]), []);
            NextValue(SetDataAsWritten(s, page)).Success? && NextValue(SetDataAsWritten(s, page)).value.0 == 7 &&
            NextValue(SetDataSpec(s, page)).Success? && NextValue(SetDataSpec(s, page)).value.0 == 1
  {
    var s := DeltaState(BitReader([], 0), Block(0, 2, 4, 0, [0, 0]), 0, 0, 0, 7);
    var h := Header(8, 2, 8, 1, 0, [0, 0]);
    var page := WriteHeader(h, []);
    var t := SetDataAsWritten(s, page);
    var t1 := t.(miniBlockIdx := 1, deltaBitWidth := 0, valuesCurrentMiniBlock := 4);
    DeltaIsSum(t1);
    assert NextValue(t) == ReadDelta(t1);
    SetDataReadsHeader(s, h, []);
  }

  /** After SetData the page's first value is the first value of the block header the
      page opens with, whatever state the previous page left. */
  lemma SetDataReadsHeader(s: DeltaState, h: Header, rest: seq<byte>)
    requires Writable(h)
    ensures var page := WriteHeader(h, rest);
            var per := h.blockSize / h.numMiniBlocks;
            NextValue(SetDataSpec(s, page)) ==
            Success((h.firstValue,
                     DeltaState(Skip(BitReader(page, 0), FieldsLength(h) + |h.widths|),
                                Block(h.valuesInBlock, h.numMiniBlocks, per, h.minDelta, h.widths),
                                0, h.widths[0] as nat, per, h.firstValue)))
  {
    var page := WriteHeader(h, rest);
    assert BytesAhead(BitReader(page, 0), page) by {
      assert page[0..|page|] == page;
    }
    FirstValueAfterHeader(SetDataSpec(s, page), h, rest);
  }

  // ------------------------------------------------------------------
  // GetInternal as written: the bit widths through the pointer it takes once.

  const FreedWidths := "bit width read from a freed buffer"

  /** One iteration of GetInternal's loop as the source writes it.  The pointer to
      the bit widths is taken once, before the loop, while an InitBlock inside the
      loop allocates a new widths buffer and drops the old one; `stale` records that
      this has happened in the current call, after which moving to the next
      mini-block reads its width from freed memory.  The bound it checks is the new
      buffer's size. */
  function NextValueAsWritten(s: DeltaState, stale: bool): (res: Result<(int32, DeltaState, bool)>)
    requires s.Ok()
    ensures res.Success? ==> res.value.1.Ok()
  {
    if s.valuesCurrentMiniBlock == 0 then
      var idx := s.miniBlockIdx + 1;
      if idx < |s.block.widths| then
        if stale then Failure(Unchecked(FreedWidths))
        else
          var r := ReadDelta(s.(miniBlockIdx := idx, deltaBitWidth := s.block.widths[idx] as nat,
                                valuesCurrentMiniBlock := s.block.valuesPerMiniBlock));
          if r.Failure? then Failure(r.error) else Success((r.value.0, r.value.1, false))
      else
        var s1 := InitBlockSpec(s.(miniBlockIdx := idx));
        if s1.Failure? then Failure(s1.error) else Success((s1.value.lastValue, s1.value, true))
    else
      var r := ReadDelta(s);
      if r.Failure? then Failure(r.error) else Success((r.value.0, r.value.1, stale))
  }

  /** `n` values of one GetInternal call as written; `stale` is false at the start
      of a call. */
  function DecodeNAsWritten(s: DeltaState, n: nat, stale: bool): (res: Result<(seq<int32>, DeltaState)>)
    requires s.Ok()
    decreases n
  {
    if n == 0 then Success(([], s))
    else
      var next := NextValueAsWritten(s, stale);
      if next.Failure? then Failure(next.error)
      else Prepend([next.value.0], DecodeNAsWritten(next.value.1, n - 1, next.value.2))
  }

  /** The call as written decodes what DecodeN decodes, except that it may stop at
      the read from the freed widths buffer. */
  lemma {:induction false} AsWrittenAgrees(s: DeltaState, n: nat, stale: bool)
    requires s.Ok()
    ensures DecodeNAsWritten(s, n, stale) == DecodeN(s, n) ||
            DecodeNAsWritten(s, n, stale) == Failure(Unchecked(FreedWidths))
    decreases n
  {
    if n > 0 {
      var a, b := NextValueAsWritten(s, stale), NextValue(s);
      if a.Success? {
        assert b == Success((a.value.0, a.value.1));
        DecodeNOk(s, n - 1, a.value.0, a.value.1);
        AsWrittenAgrees(a.value.1, n - 1, a.value.2);
      }
    }
  }

  /** A value of width 0: min_delta more than the last, no bits read. */
  lemma ZeroWidthDelta(t: DeltaState)
    requires t.Ok() && t.deltaBitWidth == 0 && t.valuesCurrentMiniBlock > 0
    ensures var v := Wrap32(t.lastValue + t.block.minDelta);
            ReadDelta(t) == Success((v, t.(lastValue := v, valuesCurrentMiniBlock := t.valuesCurrentMiniBlock - 1)))
  {
    DeltaIsSum(t);
    assert BitReader(t.reader.data, t.reader.bitPos + 0) == t.reader;
  }

  /** Two mini-blocks of one zero-width value each, the first current and full,
      after an InitBlock in the same call: as written the second value stops at the
      read of its width; with the current block's width it is min_delta more. */
  lemma UnitMiniBlocks(r: BitReader, b: Block, v: int32)
    requires r.Valid() && b.widths == [0, 0] && b.valuesPerMiniBlock == 1
    ensures var t := DeltaState(r, b, 0, 0, 1, v);
            DecodeNAsWritten(t, 2, true) == Failure(Unchecked(FreedWidths)) &&
            DecodeN(t, 2).Success? && DecodeN(t, 2).value.0 == [Wrap32(v + b.minDelta), Wrap32(Wrap32(v + b.minDelta) + b.minDelta)]
  {
    var t := DeltaState(r, b, 0, 0, 1, v);
    ZeroWidthDelta(t);
    var v1 := Wrap32(v + b.minDelta);
    var t2 := t.(lastValue := v1, valuesCurrentMiniBlock := 0);
    assert NextValue(t) == Success((v1, t2)) && NextValueAsWritten(t, true) == Success((v1, t2, true));
    assert NextValueAsWritten(t2, true) == Failure(Unchecked(FreedWidths));
    var c := t2.(miniBlockIdx := 1, deltaBitWidth := b.widths[1] as nat, valuesCurrentMiniBlock := b.valuesPerMiniBlock);
    ZeroWidthDelta(c);
    var v2 := Wrap32(v1 + b.minDelta);
    var t3 := c.(lastValue := v2, valuesCurrentMiniBlock := 0);
    assert NextValue(t2) == Success((v2, t3));
    DecodeNOk(t2, 0, v2, t3);
    DecodeNOk(t, 1, v1, t2);
  }

  /** A page whose block has two mini-blocks of one zero-width value each: as
      written, the first call decodes the header's first value and the first
      mini-block's value, and then reads the second mini-block's width through the
      pointer taken before the header was read; reading the width from the current
      block gives the third value, 5 + 3 + 3. */
  lemma StaleWidthsMisread()
    ensures var s := SetDataSpec(DeltaState(BitReader([], 0), Block(0, 0, 0, 0, []), 0, 0, 0, 0),
                                 WriteHeader(Header(2, 2, 3, 5, 3, [0, 0]), []));
            DecodeNAsWritten(s, 3, false) == Failure(Unchecked(FreedWidths)) &&
            DecodeN(s, 3).Success? && DecodeN(s, 3).value.0 == [5, 8, 11]
  {
    var s0 := DeltaState(BitReader([], 0), Block(0, 0, 0, 0, []), 0, 0, 0, 0);
    var h := Header(2, 2, 3, 5, 3, [0, 0]);
    var page := WriteHeader(h, []);
    var s := SetDataSpec(s0, page);
    SetDataReadsHeader(s0, h, []);
    var r1 := Skip(BitReader(page, 0), FieldsLength(h) + |h.widths|);
    var b := Block(3, 2, 1, 3, [0, 0]);
    var t1 := DeltaState(r1, b, 0, 0, 1, 5);
    assert NextValue(s) == Success((5, t1));
    assert NextValueAsWritten(s, false) == Success((5, t1, true));
    UnitMiniBlocks(r1, b, 5);
    DecodeNOk(s, 2, 5, t1);
  }

  /** The fixed fields of InitBlock: `t` is the decoder's fields as the source
      leaves them, each stored as it is read and the new widths buffer allocated once
      last_value_ is read, whether or not a later read fails. */
  method ReadBlockFields(s: DeltaState) returns (o: Outcome, blockSize: int32, t: DeltaState)
    requires s.Ok()
    ensures t.Ok()
    ensures var f := HeaderFields(s.reader);
            if f.Success? then o == Pass && blockSize == f.value.0.blockSize && t == FieldsStored(s, f.value.0, f.value.1)
            else o == Fail(f.error) && (f.error == Eof ==> InitBlockAborted(s, t))
  {
    t := s;
    var a := GetVlqInt(t.reader);
    if a.Failure? {
      return Fail(a.error), 0, t;
    }
    blockSize := a.value.0;
    t := t.(reader := a.value.1);
    var b := GetVlqInt(t.reader);
    if b.Failure? {
      return Fail(b.error), blockSize, t;
    }
    t := t.(block := t.block.(numMiniBlocks := b.value.0), reader := b.value.1);
    var c := GetVlqInt(t.reader);
    if c.Failure? {
      return Fail(c.error), blockSize, t;
    }
    t := t.(block := t.block.(valuesInBlock := c.value.0), reader := c.value.1);
    var d := GetZigZagVlqInt(t.reader);
    if d.Failure? {
      return Fail(d.error), blockSize, t;
    }
    t := t.(lastValue := d.value.0, reader := d.value.1);
    if b.value.0 < 0 {
      return Fail(Unchecked("negative number of mini-blocks")), blockSize, t;
    }
    t := t.(block := t.block.(widths := Unread(b.value.0 as nat)));
    var e := GetZigZagVlqInt(t.reader);
    if e.Failure? {
      return Fail(e.error), blockSize, t;
    }
    t := t.(block := t.block.(minDelta := e.value.0), reader := e.value.1);
    o := Pass;
  }

  /** InitBlock's loop: one aligned byte per mini-block into the widths buffer
      allocated for them; a read that runs out of data leaves the widths before it
      stored. */
  method ReadBitWidths(s: DeltaState) returns (o: Outcome, t: DeltaState)
    requires s.Ok()
    ensures t.Ok() && t.reader.data == s.reader.data && |t.block.widths| == |s.block.widths|
    ensures t == s.(reader := t.reader, block := s.block.(widths := t.block.widths))
    ensures var spec := ReadWidths(s.reader, |s.block.widths|);
            if spec.Success? then o == Pass && t.block.widths == spec.value.0 && t.reader == spec.value.1
            else o == Fail(spec.error) &&
                 t.block.widths[..|WidthsBefore(s.reader, |s.block.widths|)|] == WidthsBefore(s.reader, |s.block.widths|)
  {
    var widths, r := s.block.widths, s.reader;
    var count := |widths|;
    var i := 0;
    PrependNone(ReadWidths(s.reader, count));
    while i < count
      invariant 0 <= i <= count == |widths| && r.Valid() && r.data == s.reader.data
      invariant ReadWidths(s.reader, count) == Prepend(widths[..i], ReadWidths(r, count - i))
      invariant WidthsBefore(s.reader, count) == widths[..i] + WidthsBefore(r, count - i)
    {
      var w := GetAlignedByte(r);
      if w.Failure? {
        assert widths[..i] + [] == widths[..i];
        return Fail(Eof), s.(reader := r, block := s.block.(widths := widths));
      }
      ghost var done := widths[..i];
      PrependTwice(done, [w.value.0], ReadWidths(w.value.1, count - i - 1));
      widths := widths[i := w.value.0];
      r := w.value.1;
      assert widths[..i + 1] == done + [w.value.0];
      i := i + 1;
    }
    assert ReadWidths(r, 0) == Success(([], r));
    assert widths[..i] + [] == widths;
    o, t := Pass, s.(reader := r, block := s.block.(widths := widths));
  }

  /** InitBlock on the decoder's fields: `t` is what it leaves in them, whether it
      succeeds or a read runs out of data. */
  method ReadBlock(s: DeltaState) returns (o: Outcome, t: DeltaState)
    requires s.Ok()
    ensures t.Ok()
    ensures var spec := InitBlockSpec(s);
            if spec.Success? then o == Pass && t == spec.value
            else o == Fail(spec.error) && (spec.error == Eof ==> InitBlockAborted(s, t))
  {
    var blockSize;
    o, blockSize, t := ReadBlockFields(s);
    if o.Fail? {
      return;
    }
    ghost var h, r := HeaderFields(s.reader).value.0, HeaderFields(s.reader).value.1;
    InitBlockAfterFields(s, h, r);
    o, t := ReadBitWidths(t);
    if o.Fail? {
      AbortedInWidths(s, t);
      return;
    }
    if t.block.numMiniBlocks == 0 {
      return Fail(Unchecked("block size divided by zero mini-blocks")), t;
    }
    var perMiniBlock := ToUint64(TruncDiv(blockSize, t.block.numMiniBlocks));
    t := t.(block := t.block.(valuesPerMiniBlock := perMiniBlock), miniBlockIdx := 0,
            deltaBitWidth := t.block.widths[0] as nat, valuesCurrentMiniBlock := perMiniBlock);
  }

  class DeltaBitPackDecoder {
    /** num_values_: values left in the page. */
    var numValues: int
    var decoder: BitReader
    var valuesCurrentBlock: int32
    var numMiniBlocks: int32
    var valuesPerMiniBlock: uint64
    var valuesCurrentMiniBlock: uint64
    var minDelta: int32
    var miniBlockIdx: nat
    var deltaBitWidths: seq<byte>
    var deltaBitWidth: nat
    var lastValue: int32

    function State(): DeltaState
      reads this
    {
      DeltaState(decoder, Block(valuesCurrentBlock, numMiniBlocks, valuesPerMiniBlock, minDelta, deltaBitWidths),
                 miniBlockIdx, deltaBitWidth, valuesCurrentMiniBlock, lastValue)
    }

    ghost predicate Valid()
      reads this
      ensures Valid() <==> State().Ok()
    {
      decoder.Valid()
    }

    constructor ()
      ensures Valid() && numValues == 0
      ensures decoder == BitReader([], 0) && deltaBitWidths == [] && valuesCurrentMiniBlock == 0
    {
      numValues := 0;
      decoder := BitReader([], 0);
      valuesCurrentBlock := 0;
      numMiniBlocks := 0;
      valuesPerMiniBlock := 0;
      valuesCurrentMiniBlock := 0;
      minDelta := 0;
      miniBlockIdx := 0;
      deltaBitWidths := [];
      deltaBitWidth := 0;
      lastValue := 0;
    }

    /** SetData(num_values, data, len): a new page; the next value read starts a
        block.  The source resets only the two countdowns; the model also empties the
        bit-width list so that its first value reads a header. */
    method SetData(count: int, data: seq<byte>)
      modifies this
      ensures Valid() && numValues == count
      ensures State() == SetDataSpec(old(State()), data)
    {
      numValues := count;
      decoder := BitReader(data, 0);
      valuesCurrentBlock := 0;
      valuesCurrentMiniBlock := 0;
      deltaBitWidths := [];
      miniBlockIdx := 0;
    }

    /** Set every field but num_values_. */
    method Load(s: DeltaState)
      modifies this
      ensures State() == s && numValues == old(numValues)
    {
      decoder := s.reader;
      valuesCurrentBlock := s.block.valuesInBlock;
      numMiniBlocks := s.block.numMiniBlocks;
      valuesPerMiniBlock := s.block.valuesPerMiniBlock;
      valuesCurrentMiniBlock := s.valuesCurrentMiniBlock;
      minDelta := s.block.minDelta;
      miniBlockIdx := s.miniBlockIdx;
      deltaBitWidths := s.block.widths;
      deltaBitWidth := s.deltaBitWidth;
      lastValue := s.lastValue;
    }

    /** InitBlock(): read a block header, storing each field as it is read, and
        make its first mini-block current.  A read that runs out of data leaves the
        fields read before it stored, as InitBlockAborted states. */
    method InitBlock() returns (o: Outcome)
      requires Valid()
      modifies this
      ensures Valid() && numValues == old(numValues)
      ensures var spec := InitBlockSpec(old(State()));
              if spec.Success? then o == Pass && State() == spec.value
              else o == Fail(spec.error) && (spec.error == Eof ==> InitBlockAborted(old(State()), State()))
    {
      var t;
      o, t := ReadBlock(State());
      Load(t);
    }

    /** The body of GetInternal's loop: the next value. */
    method Next() returns (res: Result<int32>)
      requires Valid()
      modifies this
      ensures Valid() && numValues == old(numValues)
      ensures var spec := NextValue(old(State()));
              if spec.Success? then res == Success(spec.value.0) && State() == spec.value.1
              else res == Failure(spec.error)
    {
      if valuesCurrentMiniBlock == 0 {
        miniBlockIdx := miniBlockIdx + 1;
        if miniBlockIdx < |deltaBitWidths| {
          deltaBitWidth := deltaBitWidths[miniBlockIdx] as nat;
          valuesCurrentMiniBlock := valuesPerMiniBlock;
          res := ReadNextDelta();
        } else {
          var o := InitBlock();
          res := if o.Fail? then Failure(o.error) else Success(lastValue);
        }
      } else {
        res := ReadNextDelta();
      }
    }

    /** A value of the current mini-block. */
    method ReadNextDelta() returns (res: Result<int32>)
      requires Valid()
      modifies this
      ensures Valid() && numValues == old(numValues)
      ensures var spec := ReadDelta(old(State()));
              if spec.Success? then res == Success(spec.value.0) && State() == spec.value.1
              else res == Failure(spec.error)
    {
      if deltaBitWidth > 64 {
        return Failure(Unchecked("bit width above 64"));
      }
      var g := GetValue(decoder, deltaBitWidth);
      if g.Failure? {
        return Failure(Eof);
      }
      decoder := g.value.1;
      lastValue := Wrap32(lastValue + Wrap32(g.value.0 + minDelta));
      valuesCurrentMiniBlock := DecUint64(valuesCurrentMiniBlock);
      res := Success(lastValue);
    }

    /** Decode(buffer, max_values) / GetInternal: min(max_values, num_values_) values
        (none when that is negative), num_values_ lowered by that count, which is
        returned. */
    method GetInternal(buffer: array<int32>, maxValues: int) returns (res: Result<int>)
      requires Valid() && Clamp(Min(maxValues, numValues)) <= buffer.Length
      modifies this, buffer
      ensures Valid()
      ensures var n := Min(maxValues, old(numValues));
              var spec := DecodeN(old(State()), Clamp(n));
              if spec.Success? then
                res == Success(n) && numValues == old(numValues) - n && State() == spec.value.1 &&
                buffer[..Clamp(n)] == spec.value.0 && buffer[Clamp(n)..] == old(buffer[Clamp(n)..])
              else
                res == Failure(spec.error)
    {
      var n := Min(maxValues, numValues);
      var decoded := DecodeValues(buffer, Clamp(n));
      if decoded.Fail? {
        return Failure(decoded.error);
      }
      ghost var last := State();
      numValues := numValues - n;
      assert State() == last;
      res := Success(n);
    }

    /** GetInternal's loop: `k` values into the front of `buffer`. */
    method DecodeValues(buffer: array<int32>, k: nat) returns (o: Outcome)
      requires Valid() && k <= buffer.Length
      modifies this, buffer
      ensures Valid() && numValues == old(numValues)
      ensures var spec := DecodeN(old(State()), k);
              if spec.Success? then
                o == Pass && State() == spec.value.1 &&
                buffer[..k] == spec.value.0 && buffer[k..] == old(buffer[k..])
              else
                o == Fail(spec.error)
    {
      ghost var s0 := State();
      var i := 0;
      TracksStart(s0, k);
      while i < k
        invariant 0 <= i <= k && Valid() && numValues == old(numValues)
        invariant Tracks(s0, k, buffer[..i], State())
        invariant buffer[i..] == old(buffer[i..])
      {
        ghost var prefix := buffer[..i];
        ghost var before := State();
        var v := Next();
        if v.Failure? {
          TracksFail(s0, k, prefix, before);
          return Fail(v.error);
        }
        ghost var b0 := buffer[..];
        buffer[i] := v.value;
        assert buffer[..i + 1] == prefix + [v.value];
        assert buffer[i + 1..] == b0[i + 1..] == old(buffer[i + 1..]);
        TracksNext(s0, k, prefix, before, v.value, State());
        i := i + 1;
      }
      TracksEnd(s0, k, buffer[..k], State());
      o := Pass;
    }
  }

  /** The decoder factory: only INT32 and INT64 columns may use DELTA_BINARY_PACKED. */
  method NewDeltaBitPackDecoder(t: PhysicalType) returns (res: Result<DeltaBitPackDecoder>)
    ensures res.Success? <==> t == Int32 || t == Int64
    ensures res.Failure? ==> res.error == Invalid(IntegerOnlyMessage)
    ensures res.Success? ==> fresh(res.value) && res.value.Valid() && res.value.numValues == 0
  {
    if t != Int32 && t != Int64 {
      return Failure(Invalid(IntegerOnlyMessage));
    }
    var d := new DeltaBitPackDecoder();
    res := Success(d);
  }
}
