/** DeltaLengthByteArrayDecoder (parquet/encoding-internal.h): the decoder of the
    section "Delta-length byte array (DELTA_LENGTH_BYTE_ARRAY = 6)" of the Parquet
    format.  A page holds a 4-byte size of the lengths section, the lengths section
    (DELTA_BINARY_PACKED int32 lengths), then the value bytes back to back.  Decode
    hands out zero-copy slices of the page: each value points at the payload cursor,
    which then moves past it. */
module DeltaLength {
  import opened Common
  import opened BitStream
  import DeltaBitPack
  import opened DictDecoding

  /** `n` zeros: the part of a zero-initialised std::vector<int> no decode wrote. */
  function Zeros(n: nat): (s: seq<int32>)
    ensures |s| == n && forall i :: 0 <= i < n ==> s[i] == 0
  {
    seq(n, _ => 0)
  }

  /** The slices Decode makes of the payload that starts at `at` in `page` and has
      `room` bytes: one per length, each starting where the previous one ended, and
      the cursor after the last.  A negative length or one that runs past the
      payload is not checked by the source. */
  function Slices(page: array<byte>, lengths: seq<int>, at: nat, room: int): (res: Result<(seq<ByteArray>, nat)>)
    decreases |lengths|
  {
    if lengths == [] then Success(([], at))
    else
      var l := lengths[0];
      if l < 0 || l > room then Failure(Unchecked("value length past the payload"))
      else Prepend([ByteArray(l, Ptr(page, at))], Slices(page, lengths[1..], at + l, room - l))
  }

  /** Sum of a sequence of integers. */
  function Total(s: seq<int>): int
  {
    if s == [] then 0 else s[0] + Total(s[1..])
  }

  predicate AllNonNegative(s: seq<int>)
  {
    forall i :: 0 <= i < |s| ==> s[i] >= 0
  }

  /** Slicing succeeds exactly when no length is negative and the lengths fit the
      payload together; the slices then have the decoded lengths, each starts where
      the previous one ended (they neither overlap nor leave gaps) and the cursor ends
      up after all of them. */
  lemma {:induction false} SlicesTile(page: array<byte>, lengths: seq<int>, at: nat, room: int)
    requires room >= 0
    ensures Slices(page, lengths, at, room).Success? <==> AllNonNegative(lengths) && Total(lengths) <= room
    ensures Slices(page, lengths, at, room).Success? ==>
              var (out, end) := Slices(page, lengths, at, room).value;
              |out| == |lengths| && end == at + Total(lengths) &&
              (forall i :: 0 <= i < |out| ==> out[i].len == lengths[i] && out[i].ptr.buf == page) &&
              (|out| > 0 ==> out[0].ptr.offset == at) &&
              (forall i :: 0 < i < |out| ==> out[i].ptr.offset == out[i - 1].ptr.offset + out[i - 1].len)
    decreases |lengths|
  {
    if lengths != [] {
      var l := lengths[0];
      var tail := lengths[1..];
      assert AllNonNegative(lengths) <==> l >= 0 && AllNonNegative(tail) by {
        if l >= 0 && AllNonNegative(tail) {
          forall i | 0 <= i < |lengths| ensures lengths[i] >= 0 {
            if i > 0 { assert lengths[i] == tail[i - 1]; }
          }
        }
        if AllNonNegative(lengths) {
          forall i | 0 <= i < |tail| ensures tail[i] >= 0 {
            assert tail[i] == lengths[i + 1];
          }
        }
      }
      assert Total(lengths) == l + Total(tail);
      if 0 <= l <= room {
        SlicesTile(page, tail, at + l, room - l);
      } else {
        if l > room && AllNonNegative(tail) {
          TotalNonNegative(tail);
        }
      }
    }
  }

  lemma {:induction false} TotalNonNegative(s: seq<int>)
    requires AllNonNegative(s)
    ensures Total(s) >= 0
    decreases |s|
  {
    if s != [] {
      assert AllNonNegative(s[1..]) by {
        forall i | 0 <= i < |s[1..]| ensures s[1..][i] >= 0 {
          assert s[1..][i] == s[i + 1];
        }
      }
      TotalNonNegative(s[1..]);
    }
  }

  /** The bytes of `bytes` (a page's contents) that a slice of that page addresses. */
  function Addressed(bytes: seq<byte>, b: ByteArray): seq<byte>
  {
    var p := b.ptr.offset;
    if p + b.len <= |bytes| then bytes[p..p + b.len] else []
  }

  /** The bytes the slices address, one after the other. */
  function Joined(bytes: seq<byte>, out: seq<ByteArray>): seq<byte>
  {
    if out == [] then [] else Addressed(bytes, out[0]) + Joined(bytes, out[1..])
  }

  /** The values read back one after the other are exactly the payload bytes the
      cursor moved over: the slices tile the consumed part of the page. */
  lemma {:induction false} SlicesJoin(page: array<byte>, bytes: seq<byte>, lengths: seq<int>, at: nat, room: int)
    requires room >= 0 && at + room <= |bytes| && Slices(page, lengths, at, room).Success?
    ensures var (out, end) := Slices(page, lengths, at, room).value;
            at <= end <= |bytes| && Joined(bytes, out) == bytes[at..end]
    decreases |lengths|
  {
    if lengths != [] {
      var l := lengths[0];
      assert 0 <= l <= room;
      SlicesJoin(page, bytes, lengths[1..], at + l, room - l);
      var (rest, end) := Slices(page, lengths[1..], at + l, room - l).value;
      var out := [ByteArray(l, Ptr(page, at))] + rest;
      assert Slices(page, lengths, at, room).value == (out, end);
      assert out[1..] == rest;
      assert Joined(bytes, out) == bytes[at..at + l] + Joined(bytes, rest);
      assert bytes[at..end] == bytes[at..at + l] + bytes[at + l..end];
    }
  }

  /** The lengths Decode sees, and the length decoder's state after it: the values
      the length decoder delivers, then zeros where it delivers none.  A negative
      count makes the std::vector constructor throw. */
  function DecodeLengths(lens: DeltaBitPack.DeltaState, lensLeft: int, n: int)
    : (res: Result<(seq<int32>, DeltaBitPack.DeltaState)>)
    requires lens.Ok()
    ensures res.Success? ==> n >= 0 && |res.value.0| == n && res.value.1.Ok()
  {
    if n < 0 then Failure(Unchecked("negative value count"))
    else
      var m := Clamp(Min(n, lensLeft));
      var d := DeltaBitPack.DecodeN(lens, m);
      if d.Failure? then Failure(d.error) else Success((d.value.0 + Zeros(n - m), d.value.1))
  }

  /** The fields of the decoder that decoding moves: the length decoder's state
      and num_values_, the decoder's own num_values_, and the payload cursor. */
  datatype LengthState = LengthState(lengths: DeltaBitPack.DeltaState, lengthsLeft: int, left: int, offset: nat)

  class DeltaLengthByteArrayDecoder {
    /** num_values_: values left in the page. */
    var numValues: int
    /** The page: data_ is `page` advanced by `offset`. */
    var page: array<byte>
    var offset: nat
    /** len_: payload bytes left after the cursor. */
    var len: int
    /** len_decoder_: the lengths section's decoder. */
    const lenDecoder: DeltaBitPack.DeltaBitPackDecoder

    ghost predicate Valid()
      reads this, lenDecoder
    {
      lenDecoder.Valid() && 0 <= len && offset + len == page.Length
    }

    function State(): LengthState
      reads this, lenDecoder
    {
      LengthState(lenDecoder.State(), lenDecoder.numValues, numValues, offset)
    }

    constructor ()
      ensures Valid() && numValues == 0 && offset == 0 && len == 0 && fresh(lenDecoder)
    {
      numValues := 0;
      page := new byte[0];
      offset := 0;
      len := 0;
      lenDecoder := new DeltaBitPack.DeltaBitPackDecoder();
    }

    /** SetData(num_values, data, len) with data = page + start and len the bytes from
        there to the end of the page: an empty page only sets the count.  Otherwise
        the first four bytes give the size of the lengths section, which the length
        decoder gets; the payload cursor starts right after it. */
    method SetData(count: int, data: array<byte>, start: nat) returns (o: Outcome)
      requires Valid() && start <= data.Length
      modifies this, lenDecoder
      ensures Valid() && numValues == count
      ensures start == data.Length ==> o == Pass && unchanged(lenDecoder) &&
                                       page == old(page) && offset == old(offset) && len == old(len)
      ensures 0 < data.Length - start < 4 ==> o == Fail(Unchecked("page shorter than the lengths-section size"))
      ensures data.Length - start >= 4 ==>
                var total := ReadInt32LE(data[start..start + 4]);
                if total < 0 || start + 4 + total > data.Length then
                  o == Fail(Unchecked("lengths section past the page"))
                else
                  o == Pass && lenDecoder.numValues == count &&
                  lenDecoder.State() == DeltaBitPack.SetDataSpec(old(lenDecoder.State()), data[start + 4..start + 4 + total]) &&
                  page == data && offset == start + 4 + total && len == data.Length - offset
    {
      numValues := count;
      if start == data.Length {
        return Pass;
      }
      if data.Length - start < 4 {
        return Fail(Unchecked("page shorter than the lengths-section size"));
      }
      var total := ReadInt32LE(data[start..start + 4]);
      if total < 0 || start + 4 + total > data.Length {
        return Fail(Unchecked("lengths section past the page"));
      }
      lenDecoder.SetData(count, data[start + 4..start + 4 + total]);
      page := data;
      offset := start + 4 + total;
      len := data.Length - offset;
      o := Pass;
    }

    /** Decode(buffer, max_values): min(max_values, num_values_) values, each a slice
        of the payload as long as the next decoded length; the cursor moves past
        them and num_values_ drops by their count, which is returned.  The length
        decoder moves on by the lengths it delivered, so a further Decode goes on
        from there. */
    method Decode(buffer: array<ByteArray>, maxValues: int) returns (res: Result<int>)
      requires Valid() && Clamp(Min(maxValues, numValues)) <= buffer.Length
      modifies this, lenDecoder, buffer
      ensures Valid() && page == old(page)
      ensures var n := Min(maxValues, old(numValues));
              var ls := DecodeLengths(old(lenDecoder.State()), old(lenDecoder.numValues), n);
              if ls.Failure? then res == Failure(ls.error)
              else
                var sl := Slices(page, ls.value.0, old(offset), old(len));
                if sl.Failure? then res == Failure(sl.error)
                else
                  res == Success(n) && numValues == old(numValues) - n &&
                  buffer[..n] == sl.value.0 && buffer[n..] == old(buffer[n..]) &&
                  offset == sl.value.1 && len == old(len) - (offset - old(offset)) &&
                  lenDecoder.State() == ls.value.1 &&
                  lenDecoder.numValues == old(lenDecoder.numValues) - Min(n, old(lenDecoder.numValues))
    {
      var n := Min(maxValues, numValues);
      if n < 0 {
        return Failure(Unchecked("negative value count"));
      }
      var lengths := new int32[n](_ => 0);
      assert lengths[..] == Zeros(n);
      ghost var zeros := lengths[..];
      ghost var m := Clamp(Min(n, lenDecoder.numValues));
      var got := lenDecoder.GetInternal(lengths, n);
      if got.Failure? {
        return Failure(got.error);
      }
      ghost var ls := lengths[..];
      assert Success((ls, lenDecoder.State())) == DecodeLengths(old(lenDecoder.State()), old(lenDecoder.numValues), n) by {
        assert lengths[m..] == zeros[m..] == Zeros(n - m);
        assert ls == lengths[..m] + lengths[m..];
      }
      res := Slice(buffer, lengths, n);
      if res.Success? {
        numValues := numValues - n;
      }
    }

    /** Decode's loop: a slice per length into the front of `buffer`. */
    method Slice(buffer: array<ByteArray>, lengths: array<int32>, n: nat) returns (res: Result<int>)
      requires Valid() && n <= buffer.Length && n == lengths.Length
      modifies this, buffer
      ensures Valid() && page == old(page) && numValues == old(numValues)
      ensures var sl := Slices(page, lengths[..], old(offset), old(len));
              if sl.Failure? then res == Failure(sl.error)
              else
                res == Success(n) && buffer[..n] == sl.value.0 && buffer[n..] == old(buffer[n..]) &&
                offset == sl.value.1 && len == old(len) - (offset - old(offset))
    {
      ghost var spec := Slices(page, lengths[..], offset, len);
      var i := 0;
      PrependNone(spec);
      assert lengths[..][0..] == lengths[..];
      while i < n
        invariant 0 <= i <= n && Valid() && page == old(page) && numValues == old(numValues)
        invariant spec == Prepend(buffer[..i], Slices(page, lengths[..][i..], offset, len))
        invariant buffer[i..] == old(buffer[i..])
        invariant len == old(len) - (offset - old(offset))
      {
        var l := lengths[i];
        assert lengths[..][i..] == [l] + lengths[..][i + 1..];
        if l < 0 || l > len {
          return Failure(Unchecked("value length past the payload"));
        }
        ghost var prefix := buffer[..i];
        ghost var b0 := buffer[..];
        var slice := ByteArray(l, Ptr(page, offset));
        PrependTwice(prefix, [slice], Slices(page, lengths[..][i + 1..], offset + l, len - l));
        buffer[i] := slice;
        assert buffer[..i + 1] == prefix + [slice];
        assert buffer[i + 1..] == b0[i + 1..] == old(buffer[i + 1..]);
        offset := offset + l;
        len := len - l;
        i := i + 1;
      }
      assert lengths[..][n..] == [];
      assert buffer[..n] + [] == buffer[..n];
      res := Success(n);
    }
  }
}
