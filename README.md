# Parquet codecs, Arrow hash kernels and the IPC dictionary memo, in Dafny

This project models three pieces of Apache Arrow's C++ code base and proves properties about them.

- **Parquet page codecs** (`cpp/src/parquet/encoding-internal.h`):
  - the streaming dictionary encoder `DictEncoder`, which interns values in a memo table, buffers their codes, writes the codes as a bit-width byte plus a run-length/bit-packed hybrid stream, and writes the dictionary in PLAIN layout;
  - the `DictionaryDecoder` that expands those codes again, with and without nulls;
  - the three delta decoders: `DeltaBitPackDecoder` (DELTA_BINARY_PACKED blocks of mini-blocks), `DeltaLengthByteArrayDecoder` (lengths, then the value bytes back to back) and `DeltaByteArrayDecoder` (a prefix length of the previous value, plus a suffix).
- **The hash kernels** behind `compute::Unique` and `compute::DictionaryEncode` (`cpp/src/arrow/compute/kernels/hash.cc`):
  - an open-addressing table of int32 slots over a dense dictionary, with linear probing, growth past a load of 0.7 and a rehash into a table of twice the size;
  - the unique and dictionary-encode actions, and the `HashKernelImpl` wrapper;
  - the choice of kernel by type;
  - `InvokeHash` over an array or the chunks of a chunked array.
- **The IPC `DictionaryMemo` contract** (`cpp/src/arrow/ipc/dictionary.h`): ids for dictionary-encoded fields, the field of each id, and the current dictionary of each id.

The model follows the source's own form:
- Objects whose methods update fields are classes with `modifies` clauses: the encoder, the decoders, the kernels, the observer and the memo.
- Loops are `while` loops with invariants: Put batches, the probe loops, the rehash, the decode loops, the SetDict copy loops and the chunk loop.
- Each method is proved against a pure specification function. Examples are `Memo.InternAll`, `Rle.RleEncode`/`Rle.RleDecode`, `DeltaBitPack.NextValue`/`DecodeN`, `DeltaByteArray.Rebuild` and `HashSpec.Uniq`/`Encode`.
- The properties the format and the kernels promise are lemmas about those functions: round trips, code stability across chunks, minimal bit width, and first-seen order.

Three helper libraries are called by the codecs but are not among the modelled source files. Each is modelled abstractly, by what the callers rely on:
- the bit reader (`BitUtil::BitReader`), in module BitStream;
- the RLE/bit-packing hybrid (`RleEncoder`/`RleDecoder`), in module Rle;
- the memo tables (`ScalarMemoTable`/`BinaryMemoTable`), in module Memo.

Their rows below cite the lines of `encoding-internal.h` that call them.

## Model

| member | source | states |
|---|---|---|
| Common.Wrap32 | cpp/src/parquet/encoding-internal.h:456-457 | the int32 result of adding into an `int32_t`: congruent to the sum modulo 2^32 and within the int32 range |
| Common.LE32RoundTrip | cpp/src/parquet/encoding-internal.h:494 | the 4-byte little-endian size at the head of a delta page reads back as the number written |
| Common.CopyBytes | cpp/src/parquet/encoding-internal.h:559-560 | memcpy: the destination range holds the source bytes and nothing else changes |
| BitStream.GetValue | cpp/src/parquet/encoding-internal.h:455 | `GetValue(num_bits)` succeeds exactly when the next `w` bits lie within the data. It then yields a number below 2^w and advances the cursor by `w`; otherwise it fails with end of data |
| BitStream.GetAligned | cpp/src/parquet/encoding-internal.h:426 | `GetAligned`: succeeds exactly when `k` bytes from the next byte boundary lie within the data. It yields them as a little-endian number and leaves the cursor after them; otherwise it fails with end of data |
| BitStream.GetVlqInt | cpp/src/parquet/encoding-internal.h:414-416 | a read keeps the buffer, leaves a valid cursor, and fails only with end of data (its value is stated by VlqRoundTrip) |
| BitStream.GetZigZagVlqInt | cpp/src/parquet/encoding-internal.h:419 | a read keeps the buffer, leaves a valid cursor, and fails only with end of data (its value is stated by ZigZagVlqRoundTrip) |
| BitStream.ZigZagRoundTrip | cpp/src/parquet/encoding-internal.h:419 | zigzag coding is a bijection between int32 and uint32 |
| BitStream.UlebRoundTrip | cpp/src/parquet/encoding-internal.h:414-416 | a written ULEB128 number reads back, and the cursor stops right after its bytes |
| BitStream.VlqRoundTrip | cpp/src/parquet/encoding-internal.h:414-416 | `GetVlqInt` reads back a written 32-bit number |
| BitStream.ZigZagVlqRoundTrip | cpp/src/parquet/encoding-internal.h:419 | `GetZigZagVlqInt` reads back any written int32 |
| BitStream.LittleEndianRoundTrip | cpp/src/parquet/encoding-internal.h:426 | `k` little-endian bytes of a value below 2^(8k) read back as that value |
| Memo.GetOrInsert | cpp/src/parquet/encoding-internal.h:296-306 | `memo_table_.GetOrInsert`: a value present keeps its code and the table; a new value gets the next code and is appended |
| Memo.InternAllDistinct | cpp/src/parquet/encoding-internal.h:304 | the memo table only ever holds distinct values |
| Memo.InternAllContents | cpp/src/parquet/encoding-internal.h:304 | the table holds exactly the old entries and the values put |
| Memo.InternAllDense | cpp/src/parquet/encoding-internal.h:304 | codes are dense: each new entry comes from the stream, and at most one entry is added per value put |
| Memo.InternAllStable | cpp/src/parquet/encoding-internal.h:304 | an entry already in the table keeps its code |
| Memo.InternAllAppend | cpp/src/parquet/encoding-internal.h:289-294 | interning two batches in turn is interning their concatenation |
| Memo.InternAllFirstSeenOrder | cpp/src/parquet/encoding-internal.h:304 | new entries are appended in the order the stream first shows them |
| Memo.InternAllRoundTrip | cpp/src/parquet/encoding-internal.h:304 | looking the codes up in the final table gives back the values put |
| Rle.NextRun | cpp/src/parquet/encoding-internal.h:71 | a run that is read keeps the buffer and moves the cursor strictly forward, so the decoder always makes progress |
| Rle.RleEncode | cpp/src/parquet/encoding-internal.h:372-376 | the encoding is empty exactly when there are no codes (its content is stated by RleRoundTrip) |
| Rle.RleEncodeInto | cpp/src/parquet/encoding-internal.h:372-374 | a buffer of `capacity` bytes is reported full exactly when the encoding does not fit; otherwise it holds the encoding |
| Rle.RleRoundTrip | cpp/src/parquet/encoding-internal.h:71-77 | decoding what the encoder wrote gives the codes back, for codes that fit the bit width |
| DictEncoding.BitWidthFor | cpp/src/parquet/encoding-internal.h:223-227 | `bit_width()`: 0 for no entry, 1 for one, otherwise ceil(log2(num_entries)) |
| DictEncoding.BitWidthIsMinimal | cpp/src/parquet/encoding-internal.h:222-227 | every code of the dictionary fits in `bit_width()` bits, and for two or more entries no narrower width does |
| DictEncoding.DictEncoder.constructor | cpp/src/parquet/encoding-internal.h:197-203 | an empty dictionary, no buffered codes, an encoded size of 0, and the column's type length |
| DictEncoding.DictEncoder.SetTypeLength | cpp/src/parquet/encoding-internal.h:207 | only `type_length_` changes |
| DictEncoding.DictEncoder.Put | cpp/src/parquet/encoding-internal.h:296-335 | the value's memo key is interned and its code buffered. `dict_encoded_size_` grows only for a new entry: by sizeof(T), by the length plus 4 for BYTE_ARRAY, or by type_length for FIXED_LEN_BYTE_ARRAY |
| DictEncoding.DictEncoder.PutBatch | cpp/src/parquet/encoding-internal.h:289-294 | the values' keys are interned in order, and their codes appended to the buffered ones |
| DictEncoding.DictEncoder.PutSpaced | cpp/src/parquet/encoding-internal.h:252-262 | only the values whose validity bit is set are interned, in order; null slots add no code |
| DictEncoding.SelectedCount | cpp/src/parquet/encoding-internal.h:252-262 | PutSpaced buffers exactly one code per set validity bit |
| DictEncoding.SelectedRank | cpp/src/parquet/encoding-internal.h:252-262 | the value at valid position `i` is the selected value whose rank is the number of valid positions before `i` |
| DictEncoding.DictEncoder.WriteIndices | cpp/src/parquet/encoding-internal.h:366-380 | byte 0 holds the bit width, followed by the buffered codes run-length encoded. It returns 1 + the encoded length and clears the codes; when the encoder finds the buffer full it returns -1 and keeps them. The dictionary is unchanged |
| DictEncoding.DictEncoder.WriteDict | cpp/src/parquet/encoding-internal.h:337-363 | the first `dict_encoded_size()` bytes hold the PLAIN dictionary page in code order; the rest of the buffer is untouched |
| DictEncoding.PayloadLength | cpp/src/parquet/encoding-internal.h:236 | the dictionary page is exactly `dict_encoded_size()` bytes long |
| DictEncoding.PrimitiveEncodedSize | cpp/src/parquet/encoding-internal.h:340 | for a primitive type, the encoded size is sizeof(T) times the entry count (the debug check of WriteDict) |
| DictEncoding.FixedRoundTrip | cpp/src/parquet/encoding-internal.h:338-363 | a fixed-width dictionary page reads back entry by entry |
| DictEncoding.ByteArrayRoundTrip | cpp/src/parquet/encoding-internal.h:346-354 | a length-prefixed BYTE_ARRAY dictionary page reads back entry by entry |
| DictEncoding.WriteDictRoundTrip | cpp/src/parquet/encoding-internal.h:337-363 | reading a written dictionary page back gives the dictionary, in code order |
| DictDecoding.DictionaryDecoder.constructor | cpp/src/parquet/encoding-internal.h:56-60 | an empty dictionary, no codes, and an empty byte buffer |
| DictDecoding.DictionaryDecoder.SetDict | cpp/src/parquet/encoding-internal.h:110-114 | the decoder's dictionary becomes the values; nothing else changes |
| DictDecoding.DictionaryDecoder.SetData | cpp/src/parquet/encoding-internal.h:65-72 | sets the value count. An empty page keeps the code stream. Otherwise byte 0 is the bit width, and the codes are those of the rest of the page |
| DictDecoding.DictionaryDecoder.Decode | cpp/src/parquet/encoding-internal.h:74-83 | min(max_values, num_values_) values, each the dictionary entry of the next code. Fewer codes left means end of data. num_values_ drops by the count returned |
| DictDecoding.DictionaryDecoder.DecodeSpaced | cpp/src/parquet/encoding-internal.h:85-94 | each position with a set validity bit takes the next code's value, and null positions keep what they held. It is end of data unless every valid position found a code. num_values_ is unchanged |
| DictDecoding.GetBatchWithDictSpaced | cpp/src/parquet/encoding-internal.h:88-89 | reports success exactly when the set bits are at most the codes left; position `i` holds SpacedValue; the buffer past `m` is untouched |
| DictDecoding.SetDictBoolean | cpp/src/parquet/encoding-internal.h:116-120 | dictionary encoding of booleans fails with the not-implemented message |
| DictDecoding.PackEntries | cpp/src/parquet/encoding-internal.h:137-143 | the copy loop packs the entries' bytes back to back into the decoder's buffer |
| DictDecoding.PackedEntry | cpp/src/parquet/encoding-internal.h:139-142 | entry `j` sits in the packed bytes at the sum of the lengths before it |
| DictDecoding.SetDictByteArray | cpp/src/parquet/encoding-internal.h:122-144 | the decoder's buffer holds every entry's bytes back to back. Entry `i` keeps its length and points at its packed offset, where the bytes it addressed before now lie |
| DictDecoding.FixedSlots | cpp/src/parquet/encoding-internal.h:152-160 | with entries of one length, entry `i` lies at offset i * type_length, and the buffer is num_values * type_length long |
| DictDecoding.SetDictFixedLen | cpp/src/parquet/encoding-internal.h:146-161 | a fresh buffer of num_values * type_length bytes holds the entries; entry `i` points at offset i * type_length, which holds its bytes |
| DictDecoding.IndexPageRoundTrip | cpp/src/parquet/encoding-internal.h:65-83 | the page WriteIndices writes decodes, after SetData, to exactly the buffered codes; looked up in the written dictionary, they give back the values put |
| DictDecoding.SpacedRoundTrip | cpp/src/parquet/encoding-internal.h:85-94 | a spaced decode of the codes PutSpaced buffered puts at every valid position the value put at that position |
| DeltaBitPack.ParseHeader | cpp/src/parquet/encoding-internal.h:412-434 | a header read has a positive mini-block count and exactly one bit width per mini-block, and the reader stays on the same data |
| DeltaBitPack.WidthsBefore | cpp/src/parquet/encoding-internal.h:425-429 | the widths read before the first aligned read that runs out of data are at most the mini-block count, and all of ReadWidths' widths when none does |
| DeltaBitPack.ReadBlockFields | cpp/src/parquet/encoding-internal.h:413-424 | the fixed fields are read as HeaderFields reads them. Each is stored as it is read, and the new widths buffer is allocated once last_value_ is read; a read that runs out of data leaves what InitBlockAborted states |
| DeltaBitPack.ReadBitWidths | cpp/src/parquet/encoding-internal.h:425-429 | the width loop stores one aligned byte per mini-block, giving ReadWidths' widths and reader. A read that runs out of data leaves the widths read before it stored, and nothing but the widths and the reader changes |
| DeltaBitPack.ReadBlock | cpp/src/parquet/encoding-internal.h:412-434 | the decoder's fields become InitBlockSpec of the old ones. When a read runs out of data, the fields read before it are stored, as InitBlockAborted states |
| DeltaBitPack.InitBlockSpec | cpp/src/parquet/encoding-internal.h:412-434 | a block that starts leaves the decoder state well formed (its fields are stated by FirstValueAfterHeader) |
| DeltaBitPack.HeaderRoundTrip | cpp/src/parquet/encoding-internal.h:412-434 | a written header reads back whole, and the reader stops right after it |
| DeltaBitPack.FirstValueAfterHeader | cpp/src/parquet/encoding-internal.h:445-449 | when the last mini-block is used up, the next value is the new header's first value, read without a delta |
| DeltaBitPack.DeltaIsSum | cpp/src/parquet/encoding-internal.h:453-459 | within a block, each value is the previous one plus min_delta plus the next `delta_bit_width_` bits, cut to 32 bits; the read fails exactly when those bits run past the data or the width is above 64 |
| DeltaBitPack.SameMiniBlock | cpp/src/parquet/encoding-internal.h:453-459 | inside a mini-block, the header fields and the mini-block stay, and one value fewer is left |
| DeltaBitPack.NextMiniBlock | cpp/src/parquet/encoding-internal.h:441-445 | a used-up mini-block that is not the last hands over to the next width in the list, with values_per_mini_block - 1 values then left |
| DeltaBitPack.ZeroWidthRun | cpp/src/parquet/encoding-internal.h:453-459 | a mini-block of bit width 0 yields an arithmetic progression with step min_delta, modulo 2^32 |
| DeltaBitPack.DeltaBitPackDecoder.constructor | cpp/src/parquet/encoding-internal.h:390-396 | no values, an empty reader and no bit widths |
| DeltaBitPack.NewDeltaBitPackDecoder | cpp/src/parquet/encoding-internal.h:390-396 | succeeds exactly for INT32 and INT64 columns, else throws the integer-only message |
| DeltaBitPack.DeltaBitPackDecoder.SetData | cpp/src/parquet/encoding-internal.h:398-403 | sets the value count, and the decoder's state becomes SetDataSpec of the old one: a reader at the page start, with the next value reading a header (see Findings) |
| DeltaBitPack.DeltaBitPackDecoder.InitBlock | cpp/src/parquet/encoding-internal.h:412-434 | the fields become InitBlockSpec of the old state. A read that runs out of data leaves num_mini_blocks_, values_current_block_, last_value_, min_delta_ and the new widths buffer as far as they were read (InitBlockAborted) |
| DeltaBitPack.DeltaBitPackDecoder.Next | cpp/src/parquet/encoding-internal.h:441-460 | one loop iteration of GetInternal follows NextValue |
| DeltaBitPack.DeltaBitPackDecoder.GetInternal | cpp/src/parquet/encoding-internal.h:437-463 | Decode: min(max_values, num_values_) values (none when negative), as DecodeN gives them; num_values_ drops by that count, which is returned |
| DeltaBitPack.AsWrittenAgrees | cpp/src/parquet/encoding-internal.h:437-463 | one GetInternal call as written decodes what DecodeN decodes, or stops at the read of a bit width from the freed buffer |
| DeltaBitPack.StaleWidthsMisread | cpp/src/parquet/encoding-internal.h:439-447 | a block of two one-value zero-width mini-blocks: as written the first call reads the second width from the freed buffer, where DecodeN gives 5, 8, 11 |
| DeltaBitPack.SetDataReadsHeader | cpp/src/parquet/encoding-internal.h:398-403 | after SetData, the page's first value is its header's first value, whatever state the previous page left |
| DeltaLength.SlicesTile | cpp/src/parquet/encoding-internal.h:505-510 | slicing succeeds exactly when no length is negative and the lengths fit the payload. The slices then have the decoded lengths, each starts where the last one ended, and the cursor ends after all of them |
| DeltaLength.SlicesJoin | cpp/src/parquet/encoding-internal.h:505-510 | the values handed out, read one after another, are exactly the payload bytes the cursor passed |
| DeltaLength.DecodeLengths | cpp/src/parquet/encoding-internal.h:502-504 | on success, exactly `n` lengths, `n` being non-negative, and a well-formed length-decoder state after them |
| DeltaLength.DeltaLengthByteArrayDecoder.constructor | cpp/src/parquet/encoding-internal.h:485-489 | no values and an empty payload |
| DeltaLength.DeltaLengthByteArrayDecoder.SetData | cpp/src/parquet/encoding-internal.h:491-499 | an empty page only sets the count and leaves the length decoder as it was. Otherwise the 4-byte size gives the lengths section to the length decoder (its count and SetDataSpec state), and the payload cursor starts right after it |
| DeltaLength.DeltaLengthByteArrayDecoder.Decode | cpp/src/parquet/encoding-internal.h:501-513 | min(max_values, num_values_) values, each a zero-copy slice of the payload of the next decoded length. The cursor moves past them, num_values_ drops by their count, and the length decoder stands where DecodeLengths leaves it, its count down by the lengths it delivered |
| DeltaByteArray.Rebuild | cpp/src/parquet/encoding-internal.h:549-567 | on success, one value per prefix length (their content is stated by RebuildShape and RebuildRoundTrip) |
| DeltaByteArray.CommonPrefix | cpp/src/parquet/encoding-internal.h:549-567 | the longest common prefix, the encoder-side partner of the prefix length |
| DeltaByteArray.RebuildRoundTrip | cpp/src/parquet/encoding-internal.h:549-567 | decoding the prefix lengths and suffixes the encoder writes gives the values back |
| DeltaByteArray.RebuildShape | cpp/src/parquet/encoding-internal.h:556-560 | every rebuilt value is a prefix of the previous value followed by its suffix, its length their sum |
| DeltaByteArray.FirstPrefixIsZero | cpp/src/parquet/encoding-internal.h:532 | the value before the first one is empty, so a page's first prefix length must be 0 |
| DeltaByteArray.RebuildSplit | cpp/src/parquet/encoding-internal.h:562-563 | two Decode calls, the second starting from the last value kept, give the values of one call |
| DeltaByteArray.NewValue | cpp/src/parquet/encoding-internal.h:558-560 | malloc plus two memcpy calls: a fresh buffer holding the prefix, then the suffix |
| DeltaByteArray.DeltaByteArrayDecoder.constructor | cpp/src/parquet/encoding-internal.h:527-533 | the previous value is empty |
| DeltaByteArray.DeltaByteArrayDecoder.SetData | cpp/src/parquet/encoding-internal.h:535-545 | an empty page only sets the count. Otherwise the 4-byte size gives the prefix-length section to the prefix decoder (count and SetDataSpec state); the rest goes to the suffix decoder, which for an empty rest only takes the count, and otherwise takes the count, the payload cursor and the lengths section. The previous value is kept |
| DeltaByteArray.DeltaByteArrayDecoder.ReadPrefixLength | cpp/src/parquet/encoding-internal.h:552-553 | the prefix decoder's next value, or 0 when it has none left, and its new state and count: NextPrefix |
| DeltaByteArray.DeltaByteArrayDecoder.ReadSuffix | cpp/src/parquet/encoding-internal.h:554-555 | the next suffix's bytes, or none when the suffix decoder has none left, and the suffix decoder's new state (its length decoder, counts and cursor): NextSuffix |
| DeltaByteArray.DeltaByteArrayDecoder.DecodeOne | cpp/src/parquet/encoding-internal.h:552-563 | one loop turn: prefix length, suffix, and the value they make in an array of its own, which becomes the previous value; both decoders move as Step says |
| DeltaByteArray.DeltaByteArrayDecoder.DecodeAt | cpp/src/parquet/encoding-internal.h:552-563 | the loop body at `i`: the run from the loop's start grows by one value, stored at buffer[i], or the whole run fails with this turn's error |
| DeltaByteArray.DeltaByteArrayDecoder.DecodeValues | cpp/src/parquet/encoding-internal.h:551-564 | the loop: the first `k` entries hold DecodeRun's values, the decoders stand where the run leaves them, and a failure is the run's error |
| DeltaByteArray.DecodeRunStops | cpp/src/parquet/encoding-internal.h:551-564 | a run that fails at a turn fails there with the same error however many turns were asked |
| DeltaByteArray.DecodeRunRebuilds | cpp/src/parquet/encoding-internal.h:549-567 | the loop succeeds exactly when both decoders deliver `k` items and Rebuild of them succeeds; its values are then Rebuild of the prefix lengths and suffixes, and both decoders stand where their own runs leave them |
| DeltaByteArray.DeltaByteArrayDecoder.Decode | cpp/src/parquet/encoding-internal.h:549-567 | DecodeRun of min(max_values, num_values_) turns from the decoders' state on entry: a failure is its error; on success each value sits in an array of its own, the decoders' states are the run's, the last value becomes the previous value, num_values_ drops by the count returned, and the rest of the buffer is untouched |
| HashTable.InitialSizeIsPowerOfTwo | cpp/src/arrow/compute/kernels/hash.cc:38-39 | kInitialHashTableSize = 1 << 10 is a power of two, as HashTable::Init requires |
| HashTable.DoubledIsPowerOfTwo | cpp/src/arrow/compute/kernels/hash.cc:323-324 | doubling keeps the table size a power of two |
| HashTable.Home | cpp/src/arrow/compute/kernels/hash.cc:251 | the home slot `hash & mod_bitmask_` lies in the table |
| HashTable.ProbeStep | cpp/src/arrow/compute/kernels/hash.cc:254-259 | the probe `++j; if (j == size) j = 0;` visits the slots in order from the home slot, wrapping at the end |
| HashTable.NewHashTable | cpp/src/arrow/compute/kernels/hash.cc:57-66 | `size` slots, all kHashSlotEmpty |
| HashTable.EmptyTable | cpp/src/arrow/compute/kernels/hash.cc:137-145 | a table of empty slots holds the empty dictionary |
| HashTable.ExactlyOnce | cpp/src/arrow/compute/kernels/hash.cc:262-268 | every code the table holds sits in exactly one slot |
| HashTable.FreeSlot | cpp/src/arrow/compute/kernels/hash.cc:254-259 | a table whose dictionary is smaller than the table has an empty slot, so every probe loop stops |
| HashTable.Miss | cpp/src/arrow/compute/kernels/hash.cc:254-262 | a probe that reaches an empty slot, having passed only other values, proves the value absent |
| HashTable.Place | cpp/src/arrow/compute/kernels/hash.cc:267-268 | putting a new code in the empty slot its probe reached keeps every code reachable from its value's home |
| HashTable.Lookup | cpp/src/arrow/compute/kernels/hash.cc:251-262 | the probe loop stops either at the slot holding the value's code or at an empty slot reachable from its home, the value then being absent |
| HashTable.FirstFree | cpp/src/arrow/compute/kernels/hash.cc:344-350 | the rehash's inner loop finds an empty slot reachable from the value's home |
| HashTable.Rehash | cpp/src/arrow/compute/kernels/hash.cc:323-364 | every code of the old table goes into a new table of twice the size (the probe wrapping at the new size), which then holds the whole dictionary |
| HashTable.RehashWrapAsWritten | cpp/src/arrow/compute/kernels/hash.cc:345-350 | the rehash probe as written wraps at the old size: it returns to 0 where the new table's probe goes to the upper half, and steps past the new table's end |
| HashTable.RehashWrapLosesValue | cpp/src/arrow/compute/kernels/hash.cc:345-350 | a table of 2 slots grown to 4, both values at home slot 1: the as-written probe puts the second code in slot 0, and a lookup of its value passes slot 1 and stops at the empty slot 2, so it misses |
| HashSpec.Uniq | cpp/src/arrow/compute/kernels/hash.cc:262-279 | the dictionary only grows: the dictionary before observing stays its prefix, so earlier codes keep their values |
| HashSpec.UniqMembers | cpp/src/arrow/compute/kernels/hash.cc:239-305 | the dictionary holds exactly the starting values and the input's non-null values |
| HashSpec.UniqDistinct | cpp/src/arrow/compute/kernels/hash.cc:239-305 | the dictionary stays free of duplicates |
| HashSpec.UniqConcat | cpp/src/arrow/compute/kernels/hash.cc:700-703 | feeding chunks one after another gives the dictionary of their concatenation |
| HashSpec.EncodeDecodes | cpp/src/arrow/compute/kernels/hash.cc:553-557 | dictionary encoding loses nothing: a null gets no code, and every code points at its element's value in the final dictionary |
| HashSpec.UniqIsIntern | cpp/src/arrow/compute/kernels/hash.cc:250-279 | the kernels' dictionary is the memo table's: Uniq interns the non-null values code by code, as InternAll does |
| HashSpec.EncodeConcat | cpp/src/arrow/compute/kernels/hash.cc:700-703 | the codes of `a + b` are those of `a` followed by those of `b` against the dictionary `a` left |
| HashSpec.UniqueExample | cpp/src/arrow/compute/compute-test.cc:717 | the unique values of [2, null, 2, 1] are [2, 1] |
| HashSpec.ChunkOutputsEncode | cpp/src/arrow/compute/kernels/hash.cc:700-703 | encoding chunk by chunk gives the codes of encoding the whole column at once |
| HashSpec.ChunkOutputsDecode | cpp/src/arrow/compute/kernels/hash.cc:736-742 | every chunk's codes point, in the final dictionary, at that chunk's values |
| HashKernel.NullsObserved | cpp/src/arrow/compute/kernels/hash.cc:174-184 | all-null input leaves the dictionary alone and gets a null code per element |
| HashKernel.Observer.ObserveNull | cpp/src/arrow/compute/kernels/hash.cc:553 | unique records nothing; dictionary-encode appends a null |
| HashKernel.Observer.ObserveSlot | cpp/src/arrow/compute/kernels/hash.cc:555-557 | ObserveFound/ObserveNotFound: dictionary-encode appends the code |
| HashKernel.Observer.Flush | cpp/src/arrow/compute/kernels/hash.cc:561-566 | dictionary-encode hands over its codes as one output and starts afresh; unique outputs nothing |
| HashKernel.Grow | cpp/src/arrow/compute/kernels/hash.cc:211-217 | HashDictionary::Resize: a buffer of the new capacity that keeps the values |
| HashKernel.PrimitiveHashKernel.constructor | cpp/src/arrow/compute/kernels/hash.cc:229-232 | an uninitialised kernel with an empty dictionary |
| HashKernel.PrimitiveHashKernel.Init | cpp/src/arrow/compute/kernels/hash.cc:234-237 | an empty dictionary of capacity 1024 and a table of 1024 empty slots |
| HashKernel.PrimitiveHashKernel.DoubleTableSize | cpp/src/arrow/compute/kernels/hash.cc:323-364 | for a table below 2^31 slots (the `int` counter of the rehash loop stays in range): the table size doubles, the dictionary is unchanged, and the table holds it again |
| HashKernel.PrimitiveHashKernel.Insert | cpp/src/arrow/compute/kernels/hash.cc:250-279 | HASH_INNER_LOOP: a value found is observed with its code. A new value is refused with "Encountered new dictionary value" unless expansion is allowed. Otherwise it gets the next code, and the table doubles once the load passes 0.7. It is refused as Unchecked only when the dictionary it would complete holds RehashBound (1,503,238,554) values, which would make a table of 2^31 slots double |
| HashKernel.PrimitiveHashKernel.Append | cpp/src/arrow/compute/kernels/hash.cc:239-305 | the dictionary becomes Uniq of the elements, and the action's output grows by Observed. A failure names the refused new value, with the elements before it observed; when expansion is allowed it happens only if Uniq of the elements holds RehashBound values or more |
| HashKernel.PrimitiveHashKernel.GetDictionary | cpp/src/arrow/compute/kernels/hash.cc:307-315 | the dictionary values in code order once Init has run; before it, an Unchecked error for the dictionary buffer that was never allocated |
| HashKernel.NullHashKernel.Append | cpp/src/arrow/compute/kernels/hash.cc:174-184 | every element observed as a null |
| HashKernel.NullHashKernel.GetDictionary | cpp/src/arrow/compute/kernels/hash.cc:186-191 | the empty dictionary |
| HashInvoke.KernelForCovers | cpp/src/arrow/compute/kernels/hash.cc:617-645 | a kernel exists exactly for the null type and the ten integer and floating-point types |
| HashInvoke.GetHashKernel | cpp/src/arrow/compute/kernels/hash.cc:611-650 | fails exactly for a type without a kernel, with "<function> not implemented for <type>"; otherwise returns a fresh kernel of the action with an empty dictionary |
| HashInvoke.HashKernelImpl.Append | cpp/src/arrow/compute/kernels/hash.cc:588-596 | the kernel's pass over the input: the dictionary becomes Uniq of it. A HashException becomes its status, and a pass that may expand fails only once the dictionary would hold RehashBound values |
| HashInvoke.HashKernelImpl.Call | cpp/src/arrow/compute/kernels/hash.cc:582-586 | Append then Flush: the dictionary grows by the input, and the outputs are the input's codes (dictionary-encode) or nothing (unique). A failure is the refusal, and for an expanding kernel only at RehashBound values |
| HashInvoke.HashKernelImpl.GetDictionary | cpp/src/arrow/compute/kernels/hash.cc:600-602 | the kernel's dictionary, or for a primitive kernel never called the Unchecked error of the buffer never allocated |
| HashInvoke.InvokeHash | cpp/src/arrow/compute/kernels/hash.cc:696-711 | Call on the array or on each chunk in turn, then the dictionary: Uniq of all elements, with ChunkOutputs as outputs. A fresh primitive kernel given no piece fails with the never-allocated dictionary buffer; any other failure is the refusal, for an expanding kernel only once Uniq of all elements holds RehashBound values |
| HashInvoke.CallChunks | cpp/src/arrow/compute/kernels/hash.cc:700-703 | the chunk loop keeps the dictionary and the outputs equal to those of the chunks done; it fails only with the refusal, for an expanding kernel only once Uniq of all chunks holds RehashBound values |
| HashInvoke.UniqueDatumValues | cpp/src/arrow/compute/kernels/hash.cc:715-724 | UniqueDatum fails exactly for a primitive kernel given no piece; otherwise it is a list of distinct values holding exactly the non-null elements |
| HashInvoke.Unique | cpp/src/arrow/compute/kernels/hash.cc:715-724 | NotImplemented for a type without a kernel; otherwise UniqueDatum (the distinct non-null values in first-seen order, or the never-allocated buffer for a primitive type with no piece), or Unchecked once the unique values number RehashBound or more; with fewer than RehashBound elements it is UniqueDatum |
| HashInvoke.EncodeDatumDecodes | cpp/src/arrow/compute/kernels/hash.cc:726-758 | every code of the result points at its element's value in the dictionary, nulls stay null, and a chunked array's codes are those of encoding all its elements at once |
| HashInvoke.Assemble | cpp/src/arrow/compute/kernels/hash.cc:745-755 | the first output for an array, all outputs for a chunked array: EncodeDatum |
| HashInvoke.DictionaryEncode | cpp/src/arrow/compute/kernels/hash.cc:726-758 | NotImplemented for a type without a kernel; otherwise EncodeDatum (the codes of every element and the one dictionary they index), or Unchecked once the unique values number RehashBound or more; with fewer than RehashBound elements it is EncodeDatum |
| IpcDictionary.DictionaryMemo.constructor | cpp/src/arrow/ipc/dictionary.h:48 | a memo with no fields, ids or dictionaries |
| IpcDictionary.DictionaryMemo.GetField | cpp/src/arrow/ipc/dictionary.h:52-54 | the field of an id, or KeyError exactly when the id has none |
| IpcDictionary.DictionaryMemo.GetDictionary | cpp/src/arrow/ipc/dictionary.h:56-58 | the current dictionary of an id, or KeyError exactly when the id has none |
| IpcDictionary.DictionaryMemo.GetId | cpp/src/arrow/ipc/dictionary.h:63-65 | the id of a field, or KeyError exactly when none was assigned |
| IpcDictionary.DictionaryMemo.Size | cpp/src/arrow/ipc/dictionary.h:82-83 | the number of dictionaries stored, 0 exactly when there are none |
| IpcDictionary.DictionaryMemo.GetOrAssignId | cpp/src/arrow/ipc/dictionary.h:60-61 | a field seen before keeps its id; otherwise it gets the new id. Either way GetId then finds it, and the dictionaries are unchanged |
| IpcDictionary.DictionaryMemo.AddField | cpp/src/arrow/ipc/dictionary.h:73-74 | KeyError exactly when the id already has a field; otherwise the field is recorded under the id. No other id's field changes, and the dictionaries are unchanged |
| IpcDictionary.DictionaryMemo.AddDictionary | cpp/src/arrow/ipc/dictionary.h:76-78 | KeyError exactly when the id already has a dictionary; otherwise the dictionary is stored and size() grows by one. No other id changes |
| IpcDictionary.HasDictionaryIdIsLookup | cpp/src/arrow/ipc/dictionary.h:70-71 | HasDictionaryId is true exactly when GetDictionary finds a dictionary |

## Left out

- The underlying helpers are modelled abstractly:
  - The bit reader, the RLE encoder/decoder and the memo tables are not among the modelled source files. They are modelled by their observable behaviour (modules BitStream, Rle, Memo).
  - The RLE encoder is modelled as writing repeated runs only. That is a valid stream, but not the source's choice between repeated and bit-packed runs.
  - `EstimatedDataEncodedSize` and `FlushValues` depend on the RLE encoder's buffer-size bounds and are not modelled. `WriteIndices` takes any buffer length and reports a full buffer exactly when the encoding does not fit.
- Values are modelled by their bytes:
  - Parquet values are modelled as byte strings; a primitive value is its sizeof(T) bytes in memory.
  - Float and double equality (NaN, -0.0) is byte equality in the model, not C++ `==`. This affects the hash kernels' and the memo table's notion of "same value".
  - The hash function (`HashUtil::Hash`) is a parameter of the kernels.
- The hash table's arithmetic is simplified:
  - The table mask `hash & mod_bitmask_` is modelled as the hash modulo the power-of-two size.
  - The 0.7 load factor is modelled exactly, as `10 * size > 7 * table_size`.
- The hash kernels' surroundings are left out:
  - The binary-type hash kernel (`HashTableKernel` for binary types, hash.cc:370-511) is not modelled. No type in the kernel switches selects it.
  - The mutex in `HashKernelImpl::Append` and the memory pool are left out: the model is single-threaded and allocation does not fail.
  - `Reserve` and `Int32Builder` are left out; the indices builder is a sequence of codes and nulls.
  - An array's `offset` is not modelled; arrays start at element 0.
  - `InvokeHash` hashes a plain array through the same loop as a one-chunk chunked array. The two are proved to give the same result.
  - The construction of `DictionaryArray` objects, the dictionary type, and `MakeArray` in `DictionaryEncode` and `InvokeHash` are left out. The result is the codes and the dictionary values.
- Source crashes and undefined behaviour are reported as `Unchecked` errors instead of modelling memory corruption:
  - HashInvoke.Unique and HashInvoke.DictionaryEncode return Unchecked when the dictionary would hold RehashBound (1,503,238,554) values or more. A table of 2^31 slots must then double, and the rehash loop at hash.cc:332 counts its slots with an `int`, which overflows. The `hash_slot_t` overflow at MaxInt32 codes lies beyond that point.
  - HashKernel.PrimitiveHashKernel.AddNew reports that case before storing the value. The source stores it first and then runs into the overflow in DoubleTableSize.
  - HashInvoke.Unique, HashInvoke.InvokeHash and HashInvoke.HashKernelImpl.GetDictionary return Unchecked for a primitive type given no piece: an empty chunked array, or a Datum that is neither an array nor a chunked array. The kernel's Init then never ran, and the source dereferences the null dictionary buffer (hash.cc:309-310).
  - HashInvoke.DictionaryEncode returns Unchecked for an empty chunked array, or a Datum that is neither an array nor a chunked array. For a primitive type the error is the never-allocated dictionary buffer, which the source reaches first. For the null type it is the read of `indices_outputs[0]`, out of bounds.
  - DictDecoding.DictionaryDecoder.Decode reports a code at or past the dictionary size as Unchecked and changes nothing. The source reads out of bounds.
  - DeltaLength.DeltaLengthByteArrayDecoder.Decode reports a negative length, or one past the payload, as Unchecked. The source hands out slices beyond the page.
  - DeltaByteArray.DeltaByteArrayDecoder.Decode reports a prefix length that is negative or longer than the previous value as Unchecked. The source copies from outside that value.
  - DeltaBitPack.ParseHeader reports a negative mini-block count, and a count of 0, as Unchecked. The source allocates a buffer of negative size, or divides the block size by zero.
  - DeltaBitPack.ReadDelta reports a bit width above 64 as Unchecked. GetValue into an `int64_t` is not defined for it.
  - DeltaLength.DecodeLengths reports a negative value count as Unchecked. The `std::vector` constructor throws there.
  - DeltaLength.DeltaLengthByteArrayDecoder.SetData and DeltaByteArray.DeltaByteArrayDecoder.SetData report as Unchecked a non-empty page shorter than the 4-byte size, or a section size that runs past the page. The source reads past the page.
- DeltaBitPack.DeltaBitPackDecoder.constructor starts with an empty bit-width list. In the source, `delta_bit_widths_` is null until the first InitBlock. So the first GetInternal call of a new decoder reads `delta_bit_widths_->data()` through a null pointer (encoding-internal.h:439); the model reads from the empty list instead, which the first value never consults.
- DeltaBitPack.DeltaBitPackDecoder.InitBlock does not state where the reader stands after a read that runs out of data; BitReader is not part of this model. It assumes that a failed read leaves its target field as it was. It also does not state the unread bytes of the new widths buffer, which the source leaves uninitialised, or any field after an Unchecked error.
- NextMiniBlock states the width of the next mini-block as the current block's list gives it. The source reads it through the pointer GetInternal takes before its loop, which after an InitBlock in the same call addresses the freed list of the previous block (see Findings). That reading is modelled by DeltaBitPack.DecodeNAsWritten.
- DeltaBitPack.DeltaBitPackDecoder.GetInternal decodes as DecodeN: it reads each width from the current block, which is the corrected reading of the Findings row for encoding-internal.h:439-447.
- DeltaBitPack.DeltaBitPackDecoder.GetInternal models the values of an `Int32Type` column. `last_value_` and `min_delta_` are `int32_t` in the source, so the INT64 instantiation computes in 32 bits too.
- DictDecoding.DictionaryDecoder.DecodeSpaced leaves the null positions of the buffer as they were and does not use `null_count`. Both are assumptions about `RleDecoder::GetBatchWithDictSpaced`, which is not part of this model.
- DictEncoding.DictEncoder.Put: `dict_encoded_size_` is an `int` in the source, and the model's count is unbounded. Its wrap-around past 2^31 - 1 bytes of dictionary is not modelled.
- DictEncoding.DictEncoder.WriteDict requires every FIXED_LEN_BYTE_ARRAY entry to be `type_length_` bytes long. The source only checks this with a debug DCHECK; a release build copies `type_length_` bytes per entry regardless, and that behaviour is not modelled.
- DictEncoding.DictEncoder.WriteIndices leaves `buffer[1..]` untouched when the codes do not fit. The real `RleEncoder` writes as it goes, so this is an assumption about the encoder, which is not part of this model.
- DeltaByteArray.DeltaByteArrayDecoder.Decode keeps each decoded value in a fresh array. The leak of the malloc'ed buffers is not modelled.
- The IPC dictionary memo is modelled from its declaration only:
  - `HasDictionary(field)` is not modelled. Its declaration does not say whether it looks the field up by identity or by type.
  - IpcDictionary.DictionaryMemo.GetOrAssignId takes the id to assign as a parameter, one no field holds yet. The memo's own numbering scheme is not in its declaration.
  - IpcDictionary.DictionaryMemo.GetOrAssignId does not state what becomes of the id-to-field map. The declaration does not say whether a newly assigned id is also recorded there.
  - IpcDictionary.DictionaryMemo.AddField does not state what becomes of the field-to-id map. The declaration does not say whether the added field is also recorded there, so a later GetId of that field is not promised either way.
  - IpcDictionary.DictionaryMemo.AddField reads "already present" as the id already having a field.
  - `size()` is modelled as the number of dictionaries; the `static_cast<int>` narrowing is not.
  - `id_to_dictionary()` returns the map itself, which is the field `idToDictionary`.

## Findings

| source | as written | input that shows it | evidently intended | confidence | as-written member | corrected member |
|---|---|---|---|---|---|---|
| cpp/src/arrow/compute/kernels/hash.cc:345-350 | the rehash probe in `DoubleTableSize` wraps with `if (j == hash_table_size_) j = 0;` while `hash_table_size_` is still the old size | an old table of 1024 slots and a value whose home in the new table is slot 1023, with slot 1023 taken: the probe goes to slot 0 instead of slot 1024, which a later lookup probes next; from slot 2047 it steps to 2048, past the new table | wrap at the new size, as the lookup does | not executed | HashTable.RehashWrapAsWritten | HashTable.Rehash |
| cpp/src/parquet/encoding-internal.h:398-403 | `DeltaBitPackDecoder::SetData` resets only the two countdowns. The bit widths and `mini_block_idx_` of the previous page stay, so a reused decoder can read the new page's first value as a delta of the old mini-block list | a first page stopped in the first of two zero-width mini-blocks, last value 7, min delta 0; a second page whose header has first value 1: the first value read is 7 (the old last value plus the old min delta), and the new page's header is never read | every new page starts a block, so its first value is its header's first value | not executed | DeltaBitPack.SetDataAsWrittenMisreads | DeltaBitPack.SetDataReadsHeader |
| cpp/src/parquet/encoding-internal.h:439-447 | `GetInternal` takes `delta_bit_widths_->data()` once, before its loop. An `InitBlock` inside the loop allocates a new widths buffer and drops the old one, so a later move to the next mini-block in the same call reads its width from freed memory | a page whose block has block size 2, two mini-blocks of width 0, first value 5 and min delta 3, decoded 3 values in one call: the first value comes from the header, the second from the first mini-block, and the third reads the second mini-block's width through the stale pointer; with the current widths it is 11 | read the width from the current buffer: `delta_bit_widths_->data()[mini_block_idx_]` | not executed | DeltaBitPack.StaleWidthsMisread | DeltaBitPack.NextMiniBlock |
