/** DictionaryDecoder (parquet/encoding-internal.h): expands dictionary codes into
    values.  The dictionary is installed by SetDict (copied into storage the decoder
    owns for the byte-array types), SetData reads the bit-width byte and starts the
    run-length decoder over the rest of the page, and Decode / DecodeSpaced look the
    codes up.

    The run-length decoder (RleDecoder, arrow/util/rle-encoding.h, which is not part
    of this model) is represented by the codes it still has to deliver: SetData
    installs every code the page decodes to (Rle.RleDecode) and each read takes codes
    off the front. */
module DictDecoding {
  import opened Common
  import opened Memo
  import opened Rle
  import BitStream
  import DictEncoding

  /** A `const uint8_t*`: a buffer and a position in it. */
  datatype Ptr = Ptr(buf: array<byte>, offset: nat)

  /** parquet::ByteArray: a length and a pointer to the bytes. */
  datatype ByteArray = ByteArray(len: nat, ptr: Ptr)

  /** parquet::FixedLenByteArray: a pointer only; the length is the column's
      type_length. */
  datatype FixedLenByteArray = FixedLenByteArray(ptr: Ptr)

  predicate Addressable(p: Ptr, len: nat)
  {
    p.offset + len <= p.buf.Length
  }

  /** The `len` bytes a pointer addresses. */
  function Bytes(p: Ptr, len: nat): (s: seq<byte>)
    requires Addressable(p, len)
    reads p.buf
    ensures |s| == len
  {
    p.buf[p.offset..p.offset + len]
  }

  /** The values a spaced decode gives position `i`: the next code's value when the
      validity bit is set and a code is left for it, else what was there. */
  function SpacedValue<T>(dict: seq<T>, codes: seq<nat>, validBits: seq<byte>, offset: nat,
                          i: nat, previous: T): T
    requires offset + i < 8 * |validBits|
    requires forall j :: 0 <= j < |codes| ==> codes[j] < |dict|
  {
    var rank := DictEncoding.CountSet(validBits, offset, i);
    if BitStream.Bit(validBits, offset + i) == 1 && rank < |codes| then dict[codes[rank]] else previous
  }

  class DictionaryDecoder<T> {
    /** dictionary_: the value of each code. */
    var dictionary: seq<T>
    /** num_values_: values left in the current data page. */
    var numValues: int
    /** idx_decoder_: the codes the run-length decoder has yet to deliver. */
    var idxCodes: seq<nat>
    /** byte_array_data_: the storage the byte-array dictionary entries point into. */
    var byteArrayData: array<byte>

    constructor ()
      ensures dictionary == [] && numValues == 0 && idxCodes == []
      ensures fresh(byteArrayData) && byteArrayData.Length == 0
    {
      dictionary := [];
      numValues := 0;
      idxCodes := [];
      byteArrayData := new byte[0];
    }

    /** SetDict for the primitive types: the dictionary decoder's values, copied. */
    method SetDict(values: seq<T>)
      modifies this
      ensures dictionary == values
      ensures numValues == old(numValues) && idxCodes == old(idxCodes)
      ensures byteArrayData == old(byteArrayData)
    {
      dictionary := values;
    }

    /** SetData(num_values, data, len): an empty page leaves the index decoder as it
        was; otherwise byte 0 is the bit width of the codes in the remaining bytes. */
    method SetData(count: int, data: seq<byte>)
      modifies this
      ensures numValues == count
      ensures dictionary == old(dictionary) && byteArrayData == old(byteArrayData)
      ensures |data| == 0 ==> idxCodes == old(idxCodes)
      ensures |data| > 0 ==> idxCodes == RleDecode(data[1..], data[0])
    {
      numValues := count;
      if |data| == 0 {
        return;
      }
      idxCodes := RleDecode(data[1..], data[0]);
    }

    /** Decode(buffer, max_values): min(max_values, num_values_) values, or end of
        data when the page has fewer codes.  A code past the dictionary is read out of
        bounds by the source; the model reports it and changes nothing. */
    method Decode(buffer: array<T>, maxValues: int) returns (r: Result<nat>)
      requires maxValues <= buffer.Length
      modifies this, buffer
      ensures dictionary == old(dictionary) && byteArrayData == old(byteArrayData)
      ensures var n := Min(maxValues, old(numValues));
              var k := if n < 0 then 0 else if n < |old(idxCodes)| then n else |old(idxCodes)|;
              if n < 0 then
                r == Failure(Eof) && numValues == old(numValues) && idxCodes == old(idxCodes) &&
                buffer[..] == old(buffer[..])
              else if exists j :: 0 <= j < k && old(idxCodes)[j] >= |dictionary| then
                r.Failure? && r.error.Unchecked? &&
                numValues == old(numValues) && idxCodes == old(idxCodes) && buffer[..] == old(buffer[..])
              else
                (forall j :: 0 <= j < k ==> old(idxCodes)[j] < |dictionary|) &&
                buffer[..k] == Lookup(dictionary, old(idxCodes)[..k]) &&
                buffer[k..] == old(buffer[k..]) &&
                if k < n then
                  r == Failure(Eof) && numValues == old(numValues) && idxCodes == []
                else
                  r == Success(n) && numValues == old(numValues) - n && idxCodes == old(idxCodes)[n..]
    {
      var n := Min(maxValues, numValues);
      if n < 0 {
        return Failure(Eof);
      }
      var k := if n < |idxCodes| then n else |idxCodes|;
      if exists j :: 0 <= j < k && idxCodes[j] >= |dictionary| {
        return Failure(Unchecked("dictionary code past the end of the dictionary"));
      }
      var i := 0;
      while i < k
        modifies buffer
        invariant 0 <= i <= k
        invariant forall j :: 0 <= j < i ==> buffer[j] == dictionary[idxCodes[j]]
        invariant forall j :: i <= j < buffer.Length ==> buffer[j] == old(buffer[j])
      {
        buffer[i] := dictionary[idxCodes[i]];
        i := i + 1;
      }
      assert buffer[k..] == old(buffer[k..]);
      idxCodes := idxCodes[k..];
      if k < n {
        return Failure(Eof);
      }
      numValues := numValues - n;
      r := Success(n);
    }

    /** DecodeSpaced(buffer, num_values, null_count, valid_bits, valid_bits_offset):
        one code per set validity bit, null positions left as they were; end of data
        unless all `count` positions are filled.  num_values_ is not changed. */
    method DecodeSpaced(buffer: array<T>, count: int, nullCount: int, validBits: seq<byte>, offset: nat)
      returns (r: Result<nat>)
      requires Clamp(count) <= buffer.Length
      requires offset + Clamp(count) <= 8 * |validBits|
      modifies this, buffer
      ensures dictionary == old(dictionary) && byteArrayData == old(byteArrayData)
      ensures numValues == old(numValues)
      ensures var m := Clamp(count);
              var need := DictEncoding.CountSet(validBits, offset, m);
              var k := if need < |old(idxCodes)| then need else |old(idxCodes)|;
              if exists j :: 0 <= j < k && old(idxCodes)[j] >= |dictionary| then
                r.Failure? && r.error.Unchecked? && idxCodes == old(idxCodes) &&
                buffer[..] == old(buffer[..])
              else
                var codes := old(idxCodes)[..k];
                (forall j :: 0 <= j < k ==> codes[j] < |dictionary|) &&
                (forall i :: 0 <= i < m ==>
                   buffer[i] == SpacedValue(dictionary, codes, validBits, offset, i, old(buffer[i]))) &&
                buffer[m..] == old(buffer[m..]) &&
                if need <= |old(idxCodes)| then
                  idxCodes == old(idxCodes)[need..] &&
                  r == (if count < 0 then Failure(Eof) else Success(count))
                else
                  idxCodes == [] && r == Failure(Eof)
    {
      var m := Clamp(count);
      var need := DictEncoding.CountSet(validBits, offset, m);
      var k := if need < |idxCodes| then need else |idxCodes|;
      if exists j :: 0 <= j < k && idxCodes[j] >= |dictionary| {
        return Failure(Unchecked("dictionary code past the end of the dictionary"));
      }
      var filled := GetBatchWithDictSpaced(dictionary, idxCodes[..k], buffer, m, validBits, offset);
      if !filled {
        idxCodes := [];
        return Failure(Eof);
      }
      idxCodes := idxCodes[need..];
      r := if count < 0 then Failure(Eof) else Success(count);
    }
  }

  /** RleDecoder::GetBatchWithDictSpaced over the codes it has left: positions
      0 .. m-1 with a set validity bit take the next code's value; it reports whether
      every such position found a code. */
  method GetBatchWithDictSpaced<T>(dict: seq<T>, codes: seq<nat>, buffer: array<T>, m: nat,
                                   validBits: seq<byte>, offset: nat) returns (filled: bool)
    requires forall j :: 0 <= j < |codes| ==> codes[j] < |dict|
    requires m <= buffer.Length && offset + m <= 8 * |validBits|
    modifies buffer
    ensures filled <==> DictEncoding.CountSet(validBits, offset, m) <= |codes|
    ensures forall i :: 0 <= i < m ==>
              buffer[i] == SpacedValue(dict, codes, validBits, offset, i, old(buffer[i]))
    ensures buffer[m..] == old(buffer[m..])
  {
    var used := 0;
    var i := 0;
    while i < m
      invariant 0 <= i <= m
      invariant used == DictEncoding.CountSet(validBits, offset, i) <= |codes|
      invariant forall j :: 0 <= j < i ==>
                  buffer[j] == SpacedValue(dict, codes, validBits, offset, j, old(buffer[j]))
      invariant forall j :: i <= j < buffer.Length ==> buffer[j] == old(buffer[j])
    {
      if BitStream.Bit(validBits, offset + i) == 1 {
        if used == |codes| {
          DictEncoding.CountSetMono(validBits, offset, i, m);
          SpacedTail(dict, codes, validBits, offset, i, m, buffer[..], old(buffer[..]));
          return false;
        }
        buffer[i] := dict[codes[used]];
        used := used + 1;
      }
      i := i + 1;
    }
    filled := true;
  }

  /** When the codes run out at position `i`, every later position already holds
      what SpacedValue says: no code is left for it. */
  lemma SpacedTail<T>(dict: seq<T>, codes: seq<nat>, validBits: seq<byte>, offset: nat, i: nat, m: nat,
                      now: seq<T>, before: seq<T>)
    requires i <= m <= |now| == |before| && offset + m <= 8 * |validBits|
    requires forall j :: 0 <= j < |codes| ==> codes[j] < |dict|
    requires DictEncoding.CountSet(validBits, offset, i) == |codes|
    requires forall j :: 0 <= j < i ==> now[j] == SpacedValue(dict, codes, validBits, offset, j, before[j])
    requires forall j :: i <= j < |now| ==> now[j] == before[j]
    ensures forall j :: 0 <= j < m ==> now[j] == SpacedValue(dict, codes, validBits, offset, j, before[j])
  {
    forall j | i <= j < m
      ensures now[j] == SpacedValue(dict, codes, validBits, offset, j, before[j])
    {
      DictEncoding.CountSetMono(validBits, offset, i, j);
    }
  }

  /** The message of DictionaryDecoder<BooleanType>::SetDict. */
  const BooleanDictionaryMessage := "Dictionary encoding is not implemented for boolean values"

  /** SetDict for BOOLEAN: dictionary encoding of booleans is not implemented. */
  method SetDictBoolean(d: DictionaryDecoder<bool>, values: seq<bool>) returns (r: Outcome)
    ensures r == Fail(NotImplemented(BooleanDictionaryMessage))
  {
    r := Fail(NotImplemented(BooleanDictionaryMessage));
  }

  /** Where entry `n` is packed: the lengths of the entries before it, added up. */
  function PackedOffset(srcs: seq<seq<byte>>, n: nat): nat
    requires n <= |srcs|
  {
    if n == 0 then 0 else PackedOffset(srcs, n - 1) + |srcs[n - 1]|
  }

  lemma {:induction false} PackedOffsetLength(srcs: seq<seq<byte>>, n: nat)
    requires n <= |srcs|
    ensures PackedOffset(srcs, n) == |Concat(srcs[..n])|
    decreases n
  {
    if n > 0 {
      PackedOffsetLength(srcs, n - 1);
      assert srcs[..n][..n - 1] == srcs[..n - 1];
    }
  }

  /** Entry `j` sits in the packed bytes at its packed offset. */
  lemma {:induction false} PackedEntry(srcs: seq<seq<byte>>, j: nat)
    requires j < |srcs|
    ensures PackedOffset(srcs, j) + |srcs[j]| <= |Concat(srcs)|
    ensures Concat(srcs)[PackedOffset(srcs, j)..PackedOffset(srcs, j) + |srcs[j]|] == srcs[j]
    decreases |srcs|
  {
    var last := |srcs| - 1;
    var init := srcs[..last];
    assert Concat(srcs) == Concat(init) + srcs[last];
    PackedOffsetLength(srcs, j);
    if j == last {
      assert srcs[..j] == init;
    } else {
      PackedEntry(init, j);
      PackedOffsetPrefix(srcs, last, j);
    }
  }

  lemma {:induction false} PackedOffsetPrefix(srcs: seq<seq<byte>>, n: nat, j: nat)
    requires j < n <= |srcs|
    ensures PackedOffset(srcs[..n], j) == PackedOffset(srcs, j)
    decreases j
  {
    if j > 0 {
      PackedOffsetPrefix(srcs, n, j - 1);
    }
  }

  /** With entries of one length the offsets are multiples of it. */
  lemma {:induction false} PackedOffsetFixed(srcs: seq<seq<byte>>, fixedLen: nat, n: nat)
    requires n <= |srcs| && forall i :: 0 <= i < |srcs| ==> |srcs[i]| == fixedLen
    ensures PackedOffset(srcs, n) == n * fixedLen
    decreases n
  {
    if n > 0 {
      PackedOffsetFixed(srcs, fixedLen, n - 1);
    }
  }

  /** The copy loop of the byte-array SetDict specialisations: each entry memcpy'd
      to the running offset, which then advances by the entry's length. */
  method PackEntries(arena: array<byte>, srcs: seq<seq<byte>>)
    requires |Concat(srcs)| <= arena.Length
    modifies arena
    ensures arena[..|Concat(srcs)|] == Concat(srcs)
  {
    var offset := 0;
    var i := 0;
    PackedOffsetLength(srcs, |srcs|);
    assert srcs[..|srcs|] == srcs;
    while i < |srcs|
      invariant 0 <= i <= |srcs|
      invariant offset == PackedOffset(srcs, i) <= PackedOffset(srcs, |srcs|)
      invariant arena[..offset] == Concat(srcs[..i])
    {
      assert offset + |srcs[i]| == PackedOffset(srcs, i + 1) <= PackedOffset(srcs, |srcs|) by {
        PackedOffsetMonoLe(srcs, i + 1, |srcs|);
      }
      ghost var before := arena[..];
      CopyBytes(arena, offset, srcs[i]);
      assert arena[..offset + |srcs[i]|] == Concat(srcs[..i + 1]) by {
        CopiedAround(before, arena[..], offset, srcs[i]);
        PrefixSnoc(srcs, i);
        assert srcs[..i + 1][..i] == srcs[..i];
      }
      offset := offset + |srcs[i]|;
      i := i + 1;
    }
    assert srcs[..i] == srcs;
  }

  lemma {:induction false} PackedOffsetMonoLe(srcs: seq<seq<byte>>, i: nat, j: nat)
    requires i <= j <= |srcs|
    ensures PackedOffset(srcs, i) <= PackedOffset(srcs, j)
    decreases j
  {
    if i < j {
      PackedOffsetMonoLe(srcs, i, j - 1);
    }
  }

  /** The bytes every BYTE_ARRAY entry addresses. */
  function ByteArraySources(values: seq<ByteArray>): (srcs: seq<seq<byte>>)
    requires forall i :: 0 <= i < |values| ==> Addressable(values[i].ptr, values[i].len)
    reads set i | 0 <= i < |values| :: values[i].ptr.buf
    ensures |srcs| == |values|
    ensures forall i :: 0 <= i < |values| ==> srcs[i] == Bytes(values[i].ptr, values[i].len)
  {
    seq(|values|, i requires 0 <= i < |values| reads if 0 <= i < |values| then {values[i].ptr.buf} else {} =>
          Bytes(values[i].ptr, values[i].len))
  }

  /** The bytes every FIXED_LEN_BYTE_ARRAY entry addresses. */
  function FixedSources(values: seq<FixedLenByteArray>, fixedLen: nat): (srcs: seq<seq<byte>>)
    requires forall i :: 0 <= i < |values| ==> Addressable(values[i].ptr, fixedLen)
    reads set i | 0 <= i < |values| :: values[i].ptr.buf
    ensures |srcs| == |values|
    ensures forall i :: 0 <= i < |values| ==> srcs[i] == Bytes(values[i].ptr, fixedLen)
  {
    seq(|values|, i requires 0 <= i < |values| reads if 0 <= i < |values| then {values[i].ptr.buf} else {} =>
          Bytes(values[i].ptr, fixedLen))
  }

  /** SetDict for BYTE_ARRAY: the entries' bytes are packed one after the other into
      a buffer the decoder owns (allocated only when there is at least one byte), and
      entry `i` is repointed at its packed offset.  PackedEntry shows that the bytes
      it then addresses are the bytes it addressed before. */
  method SetDictByteArray(d: DictionaryDecoder<ByteArray>, values: seq<ByteArray>)
    requires forall i :: 0 <= i < |values| ==> Addressable(values[i].ptr, values[i].len)
    modifies d
    ensures d.numValues == old(d.numValues) && d.idxCodes == old(d.idxCodes)
    ensures var srcs := old(ByteArraySources(values));
            if |Concat(srcs)| > 0 then
              fresh(d.byteArrayData) && d.byteArrayData[..] == Concat(srcs)
            else
              d.byteArrayData == old(d.byteArrayData)
    ensures |d.dictionary| == |values|
    ensures forall i :: 0 <= i < |values| ==>
              d.dictionary[i] == ByteArray(values[i].len, Ptr(d.byteArrayData, PackedOffset(old(ByteArraySources(values)), i)))
  {
    var srcs := ByteArraySources(values);
    var total := PackedOffset(srcs, |srcs|);
    PackedOffsetLength(srcs, |srcs|);
    assert srcs[..|srcs|] == srcs;
    var arena := d.byteArrayData;
    if total > 0 {
      arena := new byte[total];
      PackEntries(arena, srcs);
      assert arena[..] == arena[..total];
    }
    d.dictionary := seq(|values|, i requires 0 <= i < |values| => ByteArray(values[i].len, Ptr(arena, PackedOffset(srcs, i))));
    d.byteArrayData := arena;
  }

  /** Offset of entry `i` of a FIXED_LEN_BYTE_ARRAY dictionary: i * type_length. */
  function SlotOffset(i: nat, fixedLen: nat): nat
  {
    i * fixedLen
  }

  /** With entries of one length, entry `i` of the packed bytes starts at its slot
      offset and the buffer is exactly as long as the slots. */
  lemma FixedSlots(srcs: seq<seq<byte>>, fixedLen: nat, i: nat)
    requires forall j :: 0 <= j < |srcs| ==> |srcs[j]| == fixedLen
    requires i < |srcs|
    ensures |Concat(srcs)| == SlotOffset(|srcs|, fixedLen)
    ensures SlotOffset(i, fixedLen) + fixedLen <= |Concat(srcs)|
    ensures Concat(srcs)[SlotOffset(i, fixedLen)..SlotOffset(i, fixedLen) + fixedLen] == srcs[i]
  {
    PackedEntry(srcs, i);
    PackedOffsetFixed(srcs, fixedLen, i);
    PackedOffsetFixed(srcs, fixedLen, |srcs|);
    PackedOffsetLength(srcs, |srcs|);
    assert srcs[..|srcs|] == srcs;
  }

  /** SetDict for FIXED_LEN_BYTE_ARRAY: a buffer of num_values * type_length bytes
      holds the entries one after the other, and entry `i` points at offset
      i * type_length.  FixedSlots shows it addresses the bytes it addressed before. */
  method SetDictFixedLen(d: DictionaryDecoder<FixedLenByteArray>, values: seq<FixedLenByteArray>, fixedLen: nat)
    requires forall i :: 0 <= i < |values| ==> Addressable(values[i].ptr, fixedLen)
    modifies d
    ensures d.numValues == old(d.numValues) && d.idxCodes == old(d.idxCodes)
    ensures fresh(d.byteArrayData) && d.byteArrayData.Length == SlotOffset(|values|, fixedLen)
    ensures d.byteArrayData[..] == Concat(old(FixedSources(values, fixedLen)))
    ensures |d.dictionary| == |values|
    ensures forall i :: 0 <= i < |values| ==>
              d.dictionary[i] == FixedLenByteArray(Ptr(d.byteArrayData, SlotOffset(i, fixedLen)))
  {
    var srcs := FixedSources(values, fixedLen);
    PackedOffsetFixed(srcs, fixedLen, |srcs|);
    PackedOffsetLength(srcs, |srcs|);
    assert srcs[..|srcs|] == srcs;
    var arena := new byte[SlotOffset(|values|, fixedLen)];
    PackEntries(arena, srcs);
    assert arena[..] == arena[..|Concat(srcs)|];
    d.dictionary := seq(|values|, i requires 0 <= i < |values| => FixedLenByteArray(Ptr(arena, SlotOffset(i, fixedLen))));
    d.byteArrayData := arena;
  }

  // ------------------------------------------------------------------
  // The decoder against the encoder.

  /** The index page WriteIndices produces decodes, after SetData, to exactly the
      codes the encoder buffered, and looking them up in the dictionary WriteDict
      wrote gives the values put (their memo keys). */
  lemma IndexPageRoundTrip(memo: seq<seq<byte>>, keys: seq<seq<byte>>, w: nat)
    requires w < 256 && CodesFit(InternAll(memo, keys).1, w)
    ensures var page := [w] + RleEncode(InternAll(memo, keys).1, w);
            RleDecode(page[1..], page[0]) == InternAll(memo, keys).1 &&
            Lookup(InternAll(memo, keys).0, RleDecode(page[1..], page[0])) == keys
  {
    var codes := InternAll(memo, keys).1;
    var page := [w] + RleEncode(codes, w);
    assert page[1..] == RleEncode(codes, w);
    RleRoundTrip(codes, w);
    InternAllRoundTrip(memo, keys);
  }

  /** With nulls: position `i` of a spaced decode over the codes PutSpaced buffered
      holds the key of the value that was at position `i`, for every valid `i`. */
  lemma SpacedRoundTrip(kind: DictEncoding.ValueKind, typeLength: int, memo: seq<seq<byte>>,
                        src: seq<seq<byte>>, validBits: seq<byte>, offset: nat, m: nat, i: nat)
    requires m <= |src| && offset + m <= 8 * |validBits|
    requires forall v :: v in src ==> DictEncoding.ValueOk(kind, typeLength, v)
    requires i < m && BitStream.Bit(validBits, offset + i) == 1
    ensures var sel := DictEncoding.Selected(src, validBits, offset, m);
            var r := InternAll(memo, DictEncoding.Keys(kind, typeLength, sel));
            forall previous: seq<byte> ::
              SpacedValue(r.0, r.1, validBits, offset, i, previous) == DictEncoding.Key(kind, typeLength, src[i])
  {
    var sel := DictEncoding.Selected(src, validBits, offset, m);
    DictEncoding.SelectedRank(src, validBits, offset, m, i);
    DictEncoding.SelectedCount(src, validBits, offset, m);
    InternAllRoundTrip(memo, DictEncoding.Keys(kind, typeLength, sel));
  }
}
