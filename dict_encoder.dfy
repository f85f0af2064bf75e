/** DictEncoder (parquet/encoding-internal.h): the streaming dictionary encoder of the
    section "Dictionary Encoding (PLAIN_DICTIONARY = 2 and RLE_DICTIONARY = 8)" of
    the Parquet format.  Every value put is interned in a memo table and its code is
    buffered; WriteIndices emits the buffered codes behind a bit-width byte and
    WriteDict emits the dictionary in PLAIN layout.

    A value is modelled by its bytes: a primitive value by its `size` bytes in memory,
    a BYTE_ARRAY value by its payload, a FIXED_LEN_BYTE_ARRAY value by the bytes its
    pointer addresses (of which the encoder keeps the first type_length). */
module DictEncoding {
  import opened Common
  import opened Memo
  import opened Rle

  /** The physical type the encoder is instantiated with. */
  datatype ValueKind =
    | Primitive(size: nat)   // sizeof(T) for BOOLEAN, INT32, INT64, INT96, FLOAT, DOUBLE
    | ByteArrayKind
    | FixedLenKind

  /** What a caller must hand to Put: a whole primitive value, a byte array whose
      length fits its uint32_t length field, or at least type_length bytes. */
  predicate ValueOk(kind: ValueKind, typeLength: int, v: seq<byte>)
  {
    match kind
    case Primitive(size) => |v| == size
    case ByteArrayKind => |v| < TwoTo32
    case FixedLenKind => 0 <= typeLength <= |v|
  }

  /** The bytes the memo table keys a value by. */
  function Key(kind: ValueKind, typeLength: int, v: seq<byte>): (k: seq<byte>)
    requires ValueOk(kind, typeLength, v)
    ensures kind.FixedLenKind? ==> |k| == typeLength
    ensures !kind.FixedLenKind? ==> k == v
  {
    if kind.FixedLenKind? then v[..typeLength] else v
  }

  function Keys(kind: ValueKind, typeLength: int, vs: seq<seq<byte>>): (ks: seq<seq<byte>>)
    requires forall v :: v in vs ==> ValueOk(kind, typeLength, v)
    ensures |ks| == |vs| && forall i :: 0 <= i < |vs| ==> ks[i] == Key(kind, typeLength, vs[i])
  {
    seq(|vs|, i requires 0 <= i < |vs| => Key(kind, typeLength, vs[i]))
  }

  /** The shape every dictionary entry has. */
  predicate EntryOk(kind: ValueKind, e: seq<byte>)
  {
    match kind
    case Primitive(size) => |e| == size
    case ByteArrayKind => |e| < TwoTo32
    case FixedLenKind => true
  }

  /** Growth of dict_encoded_size_ when an entry is first seen: sizeof(T), the length
      plus a 4-byte length prefix, or type_length. */
  function EntrySize(kind: ValueKind, e: seq<byte>): nat
  {
    if kind.ByteArrayKind? then |e| + 4 else |e|
  }

  function EncodedSize(kind: ValueKind, entries: seq<seq<byte>>): nat
  {
    if entries == [] then 0
    else EncodedSize(kind, entries[..|entries| - 1]) + EntrySize(kind, entries[|entries| - 1])
  }

  /** PLAIN layout of one entry: raw bytes, or a little-endian uint32 length then the
      bytes for BYTE_ARRAY. */
  function EntryBytes(kind: ValueKind, e: seq<byte>): (b: seq<byte>)
    requires EntryOk(kind, e)
    ensures |b| == EntrySize(kind, e)
  {
    if kind.ByteArrayKind? then LE32(|e|) + e else e
  }

  /** The dictionary page: the entries' PLAIN layouts in code order. */
  function DictPayload(kind: ValueKind, entries: seq<seq<byte>>): seq<byte>
    requires forall e :: e in entries ==> EntryOk(kind, e)
  {
    if entries == [] then []
    else EntryBytes(kind, entries[0]) + DictPayload(kind, entries[1..])
  }

  /** BitUtil::Log2: the least `w` with n <= 2^w. */
  function CeilLog2(n: nat): (w: nat)
    requires n >= 1
    ensures n <= Pow2(w)
    ensures w > 0 ==> Pow2(w - 1) < n
    decreases n
  {
    if n == 1 then 0 else 1 + CeilLog2((n + 1) / 2)
  }

  /** bit_width() for a dictionary of `n` entries. */
  function BitWidthFor(n: nat): (w: nat)
    ensures n <= 1 ==> w == n
    ensures n >= 2 ==> w == CeilLog2(n)
  {
    if n == 0 then 0 else if n == 1 then 1 else CeilLog2(n)
  }

  /** Every code of a dictionary of `n` entries fits in bit_width() bits, and no
      narrower width would do. */
  lemma BitWidthIsMinimal(n: nat)
    ensures n <= Pow2(BitWidthFor(n))
    ensures n >= 2 ==> Pow2(BitWidthFor(n) - 1) < n
  {
  }

  class DictEncoder {
    const kind: ValueKind
    /** type_length_, -1 for variable-length types. */
    var typeLength: int
    /** The memo table: the distinct keys in insertion order. */
    var memo: seq<seq<byte>>
    /** buffered_indices_: codes not yet written by WriteIndices. */
    var bufferedIndices: seq<nat>
    var dictEncodedSize: int

    ghost predicate Valid()
      reads this
    {
      && Distinct(memo)
      && (forall e :: e in memo ==> EntryOk(kind, e))
      && (forall i :: 0 <= i < |bufferedIndices| ==> bufferedIndices[i] < |memo|)
      && dictEncodedSize == EncodedSize(kind, memo)
    }

    constructor (kind: ValueKind, typeLength: int)
      ensures Valid()
      ensures this.kind == kind && this.typeLength == typeLength
      ensures memo == [] && bufferedIndices == [] && dictEncodedSize == 0
    {
      this.kind := kind;
      this.typeLength := typeLength;
      memo := [];
      bufferedIndices := [];
      dictEncodedSize := 0;
    }

    method SetTypeLength(typeLength: int)
      modifies this
      ensures this.typeLength == typeLength
      ensures memo == old(memo) && bufferedIndices == old(bufferedIndices)
      ensures dictEncodedSize == old(dictEncodedSize)
    {
      this.typeLength := typeLength;
    }

    /** num_entries(). */
    function NumEntries(): nat
      reads this
    {
      |memo|
    }

    function BitWidth(): nat
      reads this
    {
      BitWidthFor(|memo|)
    }

    /** Put(value): buffer the value's code; the dictionary, and the encoded size with
        it, grows only when the value is new. */
    method Put(v: seq<byte>)
      requires Valid() && ValueOk(kind, typeLength, v)
      modifies this
      ensures Valid() && typeLength == old(typeLength)
      ensures var k := Key(kind, typeLength, v);
              memo == GetOrInsert(old(memo), k).0 &&
              bufferedIndices == old(bufferedIndices) + [GetOrInsert(old(memo), k).1] &&
              dictEncodedSize == old(dictEncodedSize) +
                (if k in old(memo) then 0 else EntrySize(kind, k))
    {
      var k := Key(kind, typeLength, v);
      var r := GetOrInsert(memo, k);
      if k !in memo {
        dictEncodedSize := dictEncodedSize + EntrySize(kind, k);
        assert r.0[..|r.0| - 1] == memo;
      }
      memo := r.0;
      bufferedIndices := bufferedIndices + [r.1];
    }

    /** Put(values, num_values): the values one after the other. */
    method PutBatch(vs: seq<seq<byte>>)
      requires Valid() && forall v :: v in vs ==> ValueOk(kind, typeLength, v)
      modifies this
      ensures Valid() && typeLength == old(typeLength)
      ensures var r := InternAll(old(memo), Keys(kind, typeLength, vs));
              memo == r.0 && bufferedIndices == old(bufferedIndices) + r.1
    {
      var ks := Keys(kind, typeLength, vs);
      var i := 0;
      while i < |vs|
        invariant 0 <= i <= |vs|
        invariant Valid() && typeLength == old(typeLength)
        invariant memo == InternAll(old(memo), ks[..i]).0
        invariant bufferedIndices == old(bufferedIndices) + InternAll(old(memo), ks[..i]).1
      {
        ghost var bufferedBefore := bufferedIndices;
        PrefixSnoc(ks, i);
        Put(vs[i]);
        PutStep(old(memo), old(bufferedIndices), bufferedBefore, ks[..i], ks[..i + 1], ks[i], memo, bufferedIndices);
        i := i + 1;
      }
      assert ks[..|vs|] == ks;
    }

    /** PutSpaced: the values whose validity bit is set, in order; null slots are
        skipped. */
    method PutSpaced(src: seq<seq<byte>>, numValues: int, validBits: seq<byte>, validBitsOffset: nat)
      requires Valid()
      requires Clamp(numValues) <= |src| && validBitsOffset + Clamp(numValues) <= 8 * |validBits|
      requires forall v :: v in src ==> ValueOk(kind, typeLength, v)
      modifies this
      ensures Valid() && typeLength == old(typeLength)
      ensures var r := InternAll(old(memo), SelectedKeys(kind, typeLength, src, validBits, validBitsOffset, Clamp(numValues)));
              memo == r.0 && bufferedIndices == old(bufferedIndices) + r.1
    {
      var n := Clamp(numValues);
      var i := 0;
      while i < n
        invariant 0 <= i <= n
        invariant Valid() && typeLength == old(typeLength)
        invariant var r := InternAll(old(memo), SelectedKeys(kind, typeLength, src, validBits, validBitsOffset, i));
                  memo == r.0 && bufferedIndices == old(bufferedIndices) + r.1
      {
        ghost var memoBefore, bufferedBefore := memo, bufferedIndices;
        if BitStream.Bit(validBits, validBitsOffset + i) == 1 {
          assert src[i] in src;
          Put(src[i]);
        }
        PutSpacedStep(kind, typeLength, src, validBits, validBitsOffset, i, old(memo), old(bufferedIndices),
                      memoBefore, bufferedBefore, memo, bufferedIndices);
        i := i + 1;
      }
    }

    /** WriteIndices(buffer, buffer_len): the bit width in the first byte, then the
        buffered codes run-length encoded.  Returns 1 + the encoded length and clears
        the buffered codes, or -1, leaving them, when the encoder finds the buffer
        full. */
    method WriteIndices(buffer: array<byte>, bufferLen: int) returns (written: int)
      requires Valid() && 1 <= bufferLen <= buffer.Length
      modifies this, buffer
      ensures Valid()
      ensures memo == old(memo) && dictEncodedSize == old(dictEncodedSize) && typeLength == old(typeLength)
      ensures buffer[0] == BitWidth() % 256
      ensures CodesFit(old(bufferedIndices), BitWidth())
      ensures var enc := RleEncode(old(bufferedIndices), BitWidth());
              if |enc| <= bufferLen - 1 then
                written == 1 + |enc| && buffer[1..written] == enc &&
                bufferedIndices == [] && buffer[written..] == old(buffer[written..])
              else
                written == -1 && bufferedIndices == old(bufferedIndices) &&
                buffer[1..] == old(buffer[1..])
    {
      var w := BitWidth();
      BitWidthIsMinimal(|memo|);
      assert CodesFit(bufferedIndices, w) by {
        forall i | 0 <= i < |bufferedIndices|
          ensures bufferedIndices[i] < Pow2(w)
        {
        }
      }
      buffer[0] := w % 256;
      var enc := RleEncodeInto(bufferedIndices, w, bufferLen - 1);
      if enc.None? {
        return -1;
      }
      CopyBytes(buffer, 1, enc.value);
      bufferedIndices := [];
      written := 1 + |enc.value|;
    }

    /** WriteDict(buffer): the dictionary page, into a buffer of at least
        dict_encoded_size() bytes.  Fixed-length entries must all be type_length
        bytes long, which the source checks in debug builds only. */
    method WriteDict(buffer: array<byte>)
      requires Valid() && dictEncodedSize <= buffer.Length
      requires kind.FixedLenKind? ==> forall e :: e in memo ==> |e| == typeLength
      modifies buffer
      ensures buffer[..dictEncodedSize] == DictPayload(kind, memo)
      ensures buffer[dictEncodedSize..] == old(buffer[dictEncodedSize..])
    {
      var offset := 0;
      var i := 0;
      while i < |memo|
        invariant 0 <= i <= |memo|
        invariant offset == EncodedSize(kind, memo[..i]) <= dictEncodedSize
        invariant buffer[..offset] == DictPayload(kind, memo[..i])
        invariant buffer[offset..] == old(buffer[offset..])
      {
        var bytes := EntryBytes(kind, memo[i]);
        assert offset + |bytes| == EncodedSize(kind, memo[..i + 1]) <= dictEncodedSize by {
          PrefixSnoc(memo, i);
          EncodedSizePrefix(kind, memo, i + 1);
        }
        ghost var before := buffer[..];
        CopyBytes(buffer, offset, bytes);
        assert buffer[..offset + |bytes|] == DictPayload(kind, memo[..i + 1]) &&
               buffer[offset + |bytes|..] == old(buffer[offset + |bytes|..]) by {
          CopiedAround(before, buffer[..], offset, bytes);
          SuffixFrom(before, old(buffer[..]), offset, offset + |bytes|);
          PrefixSnoc(memo, i);
          DictPayloadSnoc(kind, memo[..i], memo[i]);
        }
        offset := offset + |bytes|;
        i := i + 1;
      }
      assert memo[..|memo|] == memo;
    }
  }

  /** The values among the first `n` whose validity bit is set, in order. */
  function Selected(src: seq<seq<byte>>, validBits: seq<byte>, offset: nat, n: nat): (s: seq<seq<byte>>)
    requires n <= |src| && offset + n <= 8 * |validBits|
    ensures forall v :: v in s ==> v in src
  {
    if n == 0 then []
    else
      var prev := Selected(src, validBits, offset, n - 1);
      if BitStream.Bit(validBits, offset + n - 1) == 1 then prev + [src[n - 1]] else prev
  }

  /** The memo keys of the selected values. */
  function SelectedKeys(kind: ValueKind, typeLength: int, src: seq<seq<byte>>, validBits: seq<byte>,
                        offset: nat, n: nat): seq<seq<byte>>
    requires n <= |src| && offset + n <= 8 * |validBits|
    requires forall v :: v in src ==> ValueOk(kind, typeLength, v)
  {
    Keys(kind, typeLength, Selected(src, validBits, offset, n))
  }

  lemma SelectedKeysStep(kind: ValueKind, typeLength: int, src: seq<seq<byte>>, validBits: seq<byte>,
                         offset: nat, i: nat)
    requires i < |src| && offset + i < 8 * |validBits|
    requires forall v :: v in src ==> ValueOk(kind, typeLength, v)
    ensures SelectedKeys(kind, typeLength, src, validBits, offset, i + 1) ==
            SelectedKeys(kind, typeLength, src, validBits, offset, i) +
            (if BitStream.Bit(validBits, offset + i) == 1 then [Key(kind, typeLength, src[i])] else [])
  {
  }

  /** One step of PutSpaced: a set bit interns one more key, a clear bit none. */
  lemma PutSpacedStep(kind: ValueKind, typeLength: int, src: seq<seq<byte>>, validBits: seq<byte>, offset: nat,
                      i: nat, memo0: seq<seq<byte>>, buffered0: seq<nat>,
                      memo: seq<seq<byte>>, buffered: seq<nat>, memo': seq<seq<byte>>, buffered': seq<nat>)
    requires i < |src| && offset + i < 8 * |validBits|
    requires forall v :: v in src ==> ValueOk(kind, typeLength, v)
    requires var r := InternAll(memo0, SelectedKeys(kind, typeLength, src, validBits, offset, i));
             memo == r.0 && buffered == buffered0 + r.1
    requires BitStream.Bit(validBits, offset + i) == 1 ==>
               var g := GetOrInsert(memo, Key(kind, typeLength, src[i]));
               memo' == g.0 && buffered' == buffered + [g.1]
    requires BitStream.Bit(validBits, offset + i) != 1 ==> memo' == memo && buffered' == buffered
    ensures var r := InternAll(memo0, SelectedKeys(kind, typeLength, src, validBits, offset, i + 1));
            memo' == r.0 && buffered' == buffered0 + r.1
  {
    var ks := SelectedKeys(kind, typeLength, src, validBits, offset, i);
    SelectedKeysStep(kind, typeLength, src, validBits, offset, i);
    if BitStream.Bit(validBits, offset + i) == 1 {
      PutStep(memo0, buffered0, buffered, ks, ks + [Key(kind, typeLength, src[i])], Key(kind, typeLength, src[i]),
              memo', buffered');
    } else {
      assert ks + [] == ks;
    }
  }

  /** One Put interns one more key. */
  lemma PutStep(memo0: seq<seq<byte>>, buffered0: seq<nat>, buffered: seq<nat>,
                      ks: seq<seq<byte>>, ks': seq<seq<byte>>, k: seq<byte>,
                      memo': seq<seq<byte>>, buffered': seq<nat>)
    requires ks' == ks + [k]
    requires buffered == buffered0 + InternAll(memo0, ks).1
    requires memo' == GetOrInsert(InternAll(memo0, ks).0, k).0
    requires buffered' == buffered + [GetOrInsert(InternAll(memo0, ks).0, k).1]
    ensures memo' == InternAll(memo0, ks').0 && buffered' == buffered0 + InternAll(memo0, ks').1
  {
    InternAllSnoc(memo0, ks, k);
  }

  /** Number of set validity bits among the first `n`. */
  function CountSet(validBits: seq<byte>, offset: nat, n: nat): nat
    requires offset + n <= 8 * |validBits|
  {
    if n == 0 then 0
    else CountSet(validBits, offset, n - 1) + BitStream.Bit(validBits, offset + n - 1)
  }

  /** PutSpaced buffers exactly one code per set validity bit. */
  lemma {:induction false} SelectedCount(src: seq<seq<byte>>, validBits: seq<byte>, offset: nat, n: nat)
    requires n <= |src| && offset + n <= 8 * |validBits|
    ensures |Selected(src, validBits, offset, n)| == CountSet(validBits, offset, n)
  {
    if n > 0 {
      SelectedCount(src, validBits, offset, n - 1);
    }
  }

  /** More positions never have fewer set bits, and a set bit at `i` is counted
      before `j` when i < j. */
  lemma {:induction false} CountSetMono(validBits: seq<byte>, offset: nat, i: nat, j: nat)
    requires i <= j && offset + j <= 8 * |validBits|
    ensures CountSet(validBits, offset, i) <= CountSet(validBits, offset, j)
    ensures i < j && BitStream.Bit(validBits, offset + i) == 1 ==>
              CountSet(validBits, offset, i) < CountSet(validBits, offset, j)
    decreases j
  {
    if i < j {
      CountSetMono(validBits, offset, i, j - 1);
    }
  }

  /** The value at a valid position `i` is the selected value whose rank is the number
      of valid positions before `i`: the code order of PutSpaced. */
  lemma {:induction false} SelectedRank(src: seq<seq<byte>>, validBits: seq<byte>, offset: nat, n: nat, i: nat)
    requires n <= |src| && offset + n <= 8 * |validBits|
    requires i < n && BitStream.Bit(validBits, offset + i) == 1
    ensures CountSet(validBits, offset, i) < |Selected(src, validBits, offset, n)|
    ensures Selected(src, validBits, offset, n)[CountSet(validBits, offset, i)] == src[i]
    decreases n
  {
    SelectedCount(src, validBits, offset, n);
    CountSetMono(validBits, offset, i, n);
    if i < n - 1 {
      SelectedRank(src, validBits, offset, n - 1, i);
    } else {
      SelectedCount(src, validBits, offset, n - 1);
    }
  }

  lemma {:induction false} EncodedSizePrefix(kind: ValueKind, entries: seq<seq<byte>>, n: nat)
    requires n <= |entries|
    ensures EncodedSize(kind, entries[..n]) <= EncodedSize(kind, entries)
    decreases |entries|
  {
    if n < |entries| {
      EncodedSizePrefix(kind, entries[..|entries| - 1], n);
      assert entries[..|entries| - 1][..n] == entries[..n];
    } else {
      assert entries[..n] == entries;
    }
  }

  lemma {:induction false} DictPayloadSnoc(kind: ValueKind, entries: seq<seq<byte>>, e: seq<byte>)
    requires forall x :: x in entries ==> EntryOk(kind, x)
    requires EntryOk(kind, e)
    ensures DictPayload(kind, entries + [e]) == DictPayload(kind, entries) + EntryBytes(kind, e)
    decreases |entries|
  {
    if entries != [] {
      assert (entries + [e])[1..] == entries[1..] + [e];
      DictPayloadSnoc(kind, entries[1..], e);
    } else {
      assert DictPayload(kind, [e]) == EntryBytes(kind, e) + DictPayload(kind, []);
    }
  }

  /** WriteDict writes exactly dict_encoded_size() bytes. */
  lemma {:induction false} PayloadLength(kind: ValueKind, entries: seq<seq<byte>>)
    requires forall e :: e in entries ==> EntryOk(kind, e)
    ensures |DictPayload(kind, entries)| == EncodedSize(kind, entries)
    decreases |entries|
  {
    if entries != [] {
      var init := entries[..|entries| - 1];
      PayloadLength(kind, init);
      DictPayloadSnoc(kind, init, entries[|entries| - 1]);
      assert init + [entries[|entries| - 1]] == entries;
    }
  }

  /** For a primitive type the encoded size is sizeof(T) per entry, the debug check
      of the primitive WriteDict. */
  lemma {:induction false} PrimitiveEncodedSize(size: nat, entries: seq<seq<byte>>)
    requires forall e :: e in entries ==> |e| == size
    ensures EncodedSize(Primitive(size), entries) == size * |entries|
    decreases |entries|
  {
    if entries != [] {
      PrimitiveEncodedSize(size, entries[..|entries| - 1]);
      assert entries[|entries| - 1] in entries;
      assert size * |entries| == size * (|entries| - 1) + size;
    }
  }

  // ------------------------------------------------------------------
  // PLAIN decoding of a dictionary page, the partner of WriteDict.

  /** Reads `n` fixed-width entries back from a dictionary page. */
  function PlainDecodeFixed(width: nat, page: seq<byte>, n: nat): (r: Option<seq<seq<byte>>>)
    ensures r.Some? ==> |r.value| == n
    decreases n
  {
    if n == 0 then (if page == [] then Some([]) else None)
    else if |page| < width then None
    else
      var rest := PlainDecodeFixed(width, page[width..], n - 1);
      if rest.None? then None else Some([page[..width]] + rest.value)
  }

  /** Reads `n` length-prefixed BYTE_ARRAY entries back from a dictionary page. */
  function PlainDecodeByteArray(page: seq<byte>, n: nat): (r: Option<seq<seq<byte>>>)
    ensures r.Some? ==> |r.value| == n
    decreases n
  {
    if n == 0 then (if page == [] then Some([]) else None)
    else if |page| < 4 then None
    else
      var len := ReadLE32(page);
      if |page| < 4 + len then None
      else
        match PlainDecodeByteArray(page[4 + len..], n - 1)
        case None => None
        case Some(rest) => Some([page[4..4 + len]] + rest)
  }

  function PlainDecode(kind: ValueKind, width: nat, page: seq<byte>, n: nat): (r: Option<seq<seq<byte>>>)
  {
    if kind.ByteArrayKind? then PlainDecodeByteArray(page, n) else PlainDecodeFixed(width, page, n)
  }

  /** The width of a fixed-size entry: sizeof(T), or type_length. */
  function EntryWidth(kind: ValueKind, typeLength: int): nat
  {
    match kind
    case Primitive(size) => size
    case FixedLenKind => if typeLength < 0 then 0 else typeLength
    case ByteArrayKind => 0
  }

  lemma {:induction false} FixedRoundTrip(kind: ValueKind, width: nat, entries: seq<seq<byte>>)
    requires !kind.ByteArrayKind?
    requires forall e :: e in entries ==> EntryOk(kind, e) && |e| == width
    ensures PlainDecodeFixed(width, DictPayload(kind, entries), |entries|) == Some(entries)
    decreases |entries|
  {
    if entries != [] {
      var e := entries[0];
      var rest := entries[1..];
      assert forall x :: x in rest ==> x in entries;
      FixedRoundTrip(kind, width, rest);
      var page := DictPayload(kind, entries);
      assert e in entries;
      assert page == e + DictPayload(kind, rest);
      ConcatHalves(e, DictPayload(kind, rest));
      HeadTail(entries);
    }
  }

  /** One length-prefixed entry comes off the front of a page. */
  lemma ByteArrayStep(e: seq<byte>, tail: seq<byte>, page: seq<byte>, n: nat, rest: seq<seq<byte>>)
    requires |e| < TwoTo32 && n >= 1
    requires page == LE32(|e|) + (e + tail)
    requires PlainDecodeByteArray(tail, n - 1) == Some(rest)
    ensures PlainDecodeByteArray(page, n) == Some([e] + rest)
  {
    LE32RoundTrip(|e|, e + tail);
    assert page[4..4 + |e|] == e;
    assert page[4 + |e|..] == tail;
  }

  lemma PayloadFront(entries: seq<seq<byte>>, page: seq<byte>, tail: seq<byte>)
    requires entries != [] && forall e :: e in entries ==> EntryOk(ByteArrayKind, e)
    requires forall e :: e in entries[1..] ==> EntryOk(ByteArrayKind, e)
    requires page == DictPayload(ByteArrayKind, entries)
    requires tail == DictPayload(ByteArrayKind, entries[1..])
    ensures |entries[0]| < TwoTo32
    ensures page == LE32(|entries[0]|) + (entries[0] + tail)
  {
    assert entries[0] in entries;
    assert page == EntryBytes(ByteArrayKind, entries[0]) + tail;
    ConcatAssoc(LE32(|entries[0]|), entries[0], tail);
  }

  lemma ByteArrayCons(entries: seq<seq<byte>>)
    requires entries != [] && forall e :: e in entries ==> EntryOk(ByteArrayKind, e)
    requires forall e :: e in entries[1..] ==> EntryOk(ByteArrayKind, e)
    requires PlainDecodeByteArray(DictPayload(ByteArrayKind, entries[1..]), |entries| - 1) == Some(entries[1..])
    ensures PlainDecodeByteArray(DictPayload(ByteArrayKind, entries), |entries|) ==
            Some([entries[0]] + entries[1..])
  {
    var page := DictPayload(ByteArrayKind, entries);
    var tail := DictPayload(ByteArrayKind, entries[1..]);
    PayloadFront(entries, page, tail);
    ByteArrayStep(entries[0], tail, page, |entries|, entries[1..]);
  }

  lemma {:induction false} ByteArrayRoundTrip(entries: seq<seq<byte>>)
    requires forall e :: e in entries ==> EntryOk(ByteArrayKind, e)
    ensures PlainDecodeByteArray(DictPayload(ByteArrayKind, entries), |entries|) == Some(entries)
    decreases |entries|
  {
    if entries != [] {
      assert forall x :: x in entries[1..] ==> x in entries;
      ByteArrayRoundTrip(entries[1..]);
      ByteArrayCons(entries);
      HeadTail(entries);
    } else {
      assert DictPayload(ByteArrayKind, entries) == [];
    }
  }

  /** Reading a written dictionary page back gives the dictionary, in code order. */
  lemma WriteDictRoundTrip(kind: ValueKind, typeLength: int, entries: seq<seq<byte>>)
    requires forall e :: e in entries ==> EntryOk(kind, e)
    requires kind.FixedLenKind? ==> forall e :: e in entries ==> |e| == typeLength
    ensures PlainDecode(kind, EntryWidth(kind, typeLength), DictPayload(kind, entries), |entries|) == Some(entries)
  {
    if kind.ByteArrayKind? {
      ByteArrayRoundTrip(entries);
    } else {
      FixedRoundTrip(kind, EntryWidth(kind, typeLength), entries);
    }
  }
}
