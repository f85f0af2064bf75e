/** The bit-level reader the codecs decode with (BitUtil::BitReader,
    arrow/util/bit-stream-utils.h, which is not part of this model).  A reader is a
    byte buffer and a cursor counted in bits.  Bit-packed values are read least
    significant bit first; aligned reads first round the cursor up to a byte
    boundary; variable-length integers are ULEB128 and signed ones zigzag, as in the
    "Base 128 Varints" and "Signed Integers" sections of the Protocol Buffers
    encoding guide. */
module BitStream {
  import opened Common

  datatype BitReader = BitReader(data: seq<byte>, bitPos: nat) {
    predicate Valid() { bitPos <= 8 * |data| }
  }

  /** Bit `i` of a buffer, bit 0 being the least significant bit of byte 0. */
  function Bit(data: seq<byte>, i: nat): (b: nat)
    requires i < 8 * |data|
    ensures b < 2
  {
    ByteBit(data[i / 8], i % 8)
  }

  /** Bit `k` of `x`, bit 0 being the least significant. */
  function ByteBit(x: nat, k: nat): (b: nat)
    ensures b < 2
  {
    if k == 0 then x % 2 else ByteBit(x / 2, k - 1)
  }

  /** The `w` bits at position `pos` read as an unsigned number, first bit lowest. */
  function BitsAt(data: seq<byte>, pos: nat, w: nat): (v: nat)
    requires pos + w <= 8 * |data|
    ensures v < Pow2(w)
    decreases w
  {
    if w == 0 then 0 else Bit(data, pos) + 2 * BitsAt(data, pos + 1, w - 1)
  }

  /** GetValue(num_bits): the next `w` bits, or end of data. */
  function GetValue(r: BitReader, w: nat): (res: Result<(nat, BitReader)>)
    requires r.Valid()
    ensures res.Success? <==> r.bitPos + w <= 8 * |r.data|
    ensures res.Failure? ==> res.error == Eof
    ensures res.Success? ==> res.value.0 < Pow2(w) &&
                             res.value.1 == BitReader(r.data, r.bitPos + w)
  {
    if r.bitPos + w <= 8 * |r.data| then
      Success((BitsAt(r.data, r.bitPos, w), BitReader(r.data, r.bitPos + w)))
    else
      Failure(Eof)
  }

  /** The first whole byte at or after the cursor. */
  function BytePos(r: BitReader): nat
  {
    (r.bitPos + 7) / 8
  }

  /** Unsigned little-endian value of a byte string. */
  function LittleEndian(s: seq<byte>): (v: nat)
    ensures v < Pow2(8 * |s|)
  {
    if s == [] then 0
    else
      var rest := LittleEndian(s[1..]);
      assert Pow2(8 * |s|) == 256 * Pow2(8 * |s[1..]|) by {
        Pow2Add(8, 8 * |s[1..]|);
      }
      s[0] + 256 * rest
  }

  lemma {:induction false} Pow2Add(a: nat, b: nat)
    ensures Pow2(a + b) == Pow2(a) * Pow2(b)
    decreases a
  {
    if a > 0 {
      Pow2Add(a - 1, b);
    }
  }

  lemma AlignedBytePos(data: seq<byte>, n: nat)
    ensures BytePos(BitReader(data, 8 * n)) == n
  {
  }

  /** GetAligned(num_bytes): skip to the next byte boundary, then read `k` whole bytes
      as a little-endian number, or end of data. */
  function GetAligned(r: BitReader, k: nat): (res: Result<(nat, BitReader)>)
    requires r.Valid()
    ensures res.Success? <==> BytePos(r) + k <= |r.data|
    ensures res.Failure? ==> res.error == Eof
    ensures res.Success? ==>
              res.value.0 == LittleEndian(r.data[BytePos(r)..BytePos(r) + k]) &&
              res.value.1 == BitReader(r.data, 8 * (BytePos(r) + k)) &&
              res.value.1.Valid()
  {
    var b := BytePos(r);
    if b + k <= |r.data| then
      Success((LittleEndian(r.data[b..b + k]), BitReader(r.data, 8 * (b + k))))
    else
      Failure(Eof)
  }

  /** GetAligned<uint8_t>(1): one aligned byte. */
  function GetAlignedByte(r: BitReader): (res: Result<(byte, BitReader)>)
    requires r.Valid()
    ensures res.Success? <==> BytePos(r) < |r.data|
    ensures res.Failure? ==> res.error == Eof
    ensures res.Success? ==>
              res.value.0 == r.data[BytePos(r)] &&
              res.value.1 == BitReader(r.data, 8 * (BytePos(r) + 1)) &&
              res.value.1.Valid()
  {
    var b := BytePos(r);
    if b < |r.data| then Success((r.data[b], BitReader(r.data, 8 * (b + 1))))
    else Failure(Eof)
  }

  /** An unsigned LEB128 number starting at the next byte boundary: seven bits per
      byte, low group first, the top bit of each byte saying whether another follows. */
  function ReadUleb(r: BitReader): (res: Result<(nat, BitReader)>)
    requires r.Valid()
    ensures res.Failure? ==> res.error == Eof
    ensures res.Success? ==> res.value.1.Valid() && res.value.1.data == r.data
  {
    var u := UlebAt(r.data, BytePos(r));
    if u.None? then Failure(Eof)
    else Success((u.value.0, BitReader(r.data, 8 * u.value.1)))
  }

  /** The ULEB128 number whose first byte is `data[i]`, and the index just past it. */
  function UlebAt(data: seq<byte>, i: nat): (res: Option<(nat, nat)>)
    ensures res.Some? ==> i < res.value.1 <= |data|
    decreases |data| - i
  {
    if i >= |data| then None
    else if data[i] < 128 then Some((data[i] as nat, i + 1))
    else
      var rest := UlebAt(data, i + 1);
      if rest.None? then None
      else Some(((data[i] - 128) + 128 * rest.value.0, rest.value.1))
  }

  /** GetVlqInt(int32_t*): the ULEB128 number kept to its low 32 bits. */
  function GetVlqInt(r: BitReader): (res: Result<(int32, BitReader)>)
    requires r.Valid()
    ensures res.Success? ==> res.value.1.Valid() && res.value.1.data == r.data
    ensures res.Failure? ==> res.error == Eof
  {
    var (u, r1) :- ReadUleb(r);
    Success((Wrap32(u), r1))
  }

  /** Zigzag decoding of an unsigned 32-bit number: even numbers are the non-negative
      values, odd numbers the negative ones. */
  function ZigZagDecode(u: nat): (x: int32)
    requires u < TwoTo32
  {
    if u % 2 == 0 then u / 2 else -(u / 2) - 1
  }

  /** GetZigZagVlqInt(int32_t*). */
  function GetZigZagVlqInt(r: BitReader): (res: Result<(int32, BitReader)>)
    requires r.Valid()
    ensures res.Success? ==> res.value.1.Valid() && res.value.1.data == r.data
    ensures res.Failure? ==> res.error == Eof
  {
    var (u, r1) :- ReadUleb(r);
    Success((ZigZagDecode(u % TwoTo32), r1))
  }

  // ------------------------------------------------------------------
  // The writer side, the partner of the reads above.

  function UlebEncode(n: nat): (e: seq<byte>)
    ensures |e| >= 1
    decreases n
  {
    if n < 128 then [n] else [n % 128 + 128] + UlebEncode(n / 128)
  }

  function ZigZagEncode(x: int32): (u: nat)
    ensures u < TwoTo32
  {
    if x >= 0 then 2 * x else -2 * x - 1
  }

  /** Zigzag is a bijection between int32 and uint32. */
  lemma ZigZagRoundTrip(x: int32)
    ensures ZigZagDecode(ZigZagEncode(x)) == x
  {
  }

  lemma ZigZagRoundTripUnsigned(u: nat)
    requires u < TwoTo32
    ensures ZigZagEncode(ZigZagDecode(u)) == u
  {
  }

  /** `e` sits in the buffer at the reader's next byte boundary. */
  predicate BytesAhead(r: BitReader, e: seq<byte>)
  {
    BytePos(r) + |e| <= |r.data| && r.data[BytePos(r)..BytePos(r) + |e|] == e
  }

  /** After reading the bytes `e` found at the next byte boundary, the reader sits at
      the next byte boundary in front of what followed them. */
  lemma BytesAheadNext(r: BitReader, e: seq<byte>, rest: seq<byte>)
    requires r.Valid() && BytesAhead(r, e + rest)
    ensures BytesAhead(r, e)
    ensures var r1 := BitReader(r.data, 8 * (BytePos(r) + |e|));
            r1.Valid() && BytePos(r1) == BytePos(r) + |e| && BytesAhead(r1, rest)
  {
    var b := BytePos(r);
    AlignedBytePos(r.data, b + |e|);
    assert r.data[b..b + |e| + |rest|][..|e|] == r.data[b..b + |e|];
    assert r.data[b..b + |e| + |rest|][|e|..] == r.data[b + |e|..b + |e| + |rest|];
  }

  /** Reading back a written ULEB128 number gives the number and the index right
      after its bytes. */
  lemma {:induction false} UlebAtRoundTrip(data: seq<byte>, i: nat, n: nat)
    requires i + |UlebEncode(n)| <= |data| && data[i..i + |UlebEncode(n)|] == UlebEncode(n)
    ensures UlebAt(data, i) == Some((n, i + |UlebEncode(n)|))
    decreases n
  {
    var e := UlebEncode(n);
    assert data[i] == e[0];
    if n >= 128 {
      assert data[i + 1..i + 1 + |UlebEncode(n / 128)|] == e[1..];
      UlebAtRoundTrip(data, i + 1, n / 128);
    }
  }

  /** ... and leaves the cursor right after those bytes. */
  lemma UlebRoundTrip(r: BitReader, n: nat)
    requires r.Valid() && BytesAhead(r, UlebEncode(n))
    ensures ReadUleb(r) == Success((n, BitReader(r.data, 8 * (BytePos(r) + |UlebEncode(n)|))))
  {
    UlebAtRoundTrip(r.data, BytePos(r), n);
  }

  lemma VlqRoundTrip(r: BitReader, n: nat)
    requires r.Valid() && BytesAhead(r, UlebEncode(n)) && n <= MaxInt32
    ensures GetVlqInt(r) == Success((n, BitReader(r.data, 8 * (BytePos(r) + |UlebEncode(n)|))))
  {
    UlebRoundTrip(r, n);
  }

  lemma ZigZagVlqRoundTrip(r: BitReader, x: int32)
    requires r.Valid() && BytesAhead(r, UlebEncode(ZigZagEncode(x)))
    ensures GetZigZagVlqInt(r) ==
            Success((x, BitReader(r.data, 8 * (BytePos(r) + |UlebEncode(ZigZagEncode(x))|))))
  {
    var u := ZigZagEncode(x);
    UlebRoundTrip(r, u);
    assert u % TwoTo32 == u;
    ZigZagRoundTrip(x);
  }

  /** The reader moved to the byte boundary `n` bytes after its next one. */
  function Skip(r: BitReader, n: nat): (r1: BitReader)
    requires r.Valid() && BytePos(r) + n <= |r.data|
    ensures r1.Valid() && r1.data == r.data && BytePos(r1) == BytePos(r) + n
    ensures r1.bitPos == 8 * BytePos(r1)
  {
    AlignedBytePos(r.data, BytePos(r) + n);
    BitReader(r.data, 8 * (BytePos(r) + n))
  }

  /** A written 32-bit ULEB128 number, read back, in front of further bytes. */
  lemma VlqStep(r: BitReader, n: nat, rest: seq<byte>)
    requires r.Valid() && BytesAhead(r, UlebEncode(n) + rest) && n <= MaxInt32
    ensures BytePos(r) + |UlebEncode(n)| <= |r.data|
    ensures GetVlqInt(r) == Success((n, Skip(r, |UlebEncode(n)|)))
    ensures BytesAhead(Skip(r, |UlebEncode(n)|), rest)
  {
    BytesAheadNext(r, UlebEncode(n), rest);
    VlqRoundTrip(r, n);
  }

  /** A written zigzag number, read back, in front of further bytes. */
  lemma ZigZagStep(r: BitReader, x: int32, rest: seq<byte>)
    requires r.Valid() && BytesAhead(r, UlebEncode(ZigZagEncode(x)) + rest)
    ensures BytePos(r) + |UlebEncode(ZigZagEncode(x))| <= |r.data|
    ensures GetZigZagVlqInt(r) == Success((x, Skip(r, |UlebEncode(ZigZagEncode(x))|)))
    ensures BytesAhead(Skip(r, |UlebEncode(ZigZagEncode(x))|), rest)
  {
    BytesAheadNext(r, UlebEncode(ZigZagEncode(x)), rest);
    ZigZagVlqRoundTrip(r, x);
  }

  /** Skipping twice is skipping the sum. */
  lemma SkipTwice(r: BitReader, a: nat, b: nat)
    requires r.Valid() && BytePos(r) + a + b <= |r.data|
    ensures Skip(Skip(r, a), b) == Skip(r, a + b)
  {
  }

  /** Writing `k` bytes little-endian. */
  function LittleEndianBytes(v: nat, k: nat): (s: seq<byte>)
    requires v < Pow2(8 * k)
    ensures |s| == k
    decreases k
  {
    if k == 0 then []
    else
      assert Pow2(8 * k) == 256 * Pow2(8 * (k - 1)) by { Pow2Add(8, 8 * (k - 1)); }
      [v % 256] + LittleEndianBytes(v / 256, k - 1)
  }

  lemma {:induction false} LittleEndianRoundTrip(v: nat, k: nat)
    requires v < Pow2(8 * k)
    ensures LittleEndian(LittleEndianBytes(v, k)) == v
    decreases k
  {
    if k > 0 {
      assert Pow2(8 * k) == 256 * Pow2(8 * (k - 1)) by { Pow2Add(8, 8 * (k - 1)); }
      LittleEndianRoundTrip(v / 256, k - 1);
      assert LittleEndianBytes(v, k)[1..] == LittleEndianBytes(v / 256, k - 1);
    }
  }
}
