/** DeltaByteArrayDecoder (parquet/encoding-internal.h): the decoder of the section
    "Delta strings (DELTA_BYTE_ARRAY = 7)" of the Parquet format.  A page holds a
    4-byte size of the prefix-length section, that section (DELTA_BINARY_PACKED
    int32 prefix lengths), then the suffixes as a DELTA_LENGTH_BYTE_ARRAY page.
    Each value is the first `prefix length` bytes of the previous value followed by
    its suffix; the value before the first is empty. */
module DeltaByteArray {
  import opened Common
  import DeltaBitPack
  import opened DeltaLength
  import opened DictDecoding

  /** The previous value after the values `vs`: the last of them, or `prev` when
      there are none. */
  function LastOr(prev: seq<byte>, vs: seq<seq<byte>>): seq<byte>
  {
    if vs == [] then prev else vs[|vs| - 1]
  }

  /** The values Decode rebuilds from the prefix lengths and suffixes it reads, one
      after the other, starting from the previous value `prev`.  A prefix length
      that is negative or longer than the previous value makes the source copy
      from outside that value; it is not checked. */
  function Rebuild(prev: seq<byte>, ps: seq<int>, ss: seq<seq<byte>>): (res: Result<seq<seq<byte>>>)
    requires |ps| == |ss|
    ensures res.Success? ==> |res.value| == |ps|
    decreases |ps|
  {
    if ps == [] then Success([])
    else
      var k := |ps| - 1;
      var r := Rebuild(prev, ps[..k], ss[..k]);
      if r.Failure? then r
      else
        var last := LastOr(prev, r.value);
        var p := ps[k];
        if p < 0 || p > |last| then Failure(Unchecked("prefix longer than the previous value"))
        else Success(r.value + [last[..p] + ss[k]])
  }

  /** One more prefix length and suffix rebuild one more value from the last. */
  lemma RebuildSnoc(prev: seq<byte>, ps: seq<int>, ss: seq<seq<byte>>, p: int, suffix: seq<byte>)
    requires |ps| == |ss|
    ensures Rebuild(prev, ps + [p], ss + [suffix]) ==
              var r := Rebuild(prev, ps, ss);
              if r.Failure? then r
              else
                var last := LastOr(prev, r.value);
                if p < 0 || p > |last| then Failure(Unchecked("prefix longer than the previous value"))
                else Success(r.value + [last[..p] + suffix])
  {
    assert (ps + [p])[..|ps|] == ps && (ss + [suffix])[..|ss|] == ss;
  }

  /** Length of the longest common prefix of two values. */
  function CommonPrefix(a: seq<byte>, b: seq<byte>): (n: nat)
    ensures n <= |a| && n <= |b| && a[..n] == b[..n]
    ensures n < |a| && n < |b| ==> a[n] != b[n]
    decreases |a|
  {
    if a == [] || b == [] || a[0] != b[0] then 0
    else
      var m := CommonPrefix(a[1..], b[1..]);
      assert a[..m + 1] == [a[0]] + a[1..][..m];
      assert b[..m + 1] == [b[0]] + b[1..][..m];
      m + 1
  }

  /** The encoder side of the format: each value becomes the length of its common
      prefix with the previous value and the rest of it. */
  function PrefixEncode(prev: seq<byte>, values: seq<seq<byte>>): (res: (seq<int>, seq<seq<byte>>))
    ensures |res.0| == |values| && |res.1| == |values|
    decreases |values|
  {
    if values == [] then ([], [])
    else
      var k := |values| - 1;
      var (ps, ss) := PrefixEncode(prev, values[..k]);
      var p := CommonPrefix(LastOr(prev, values[..k]), values[k]);
      (ps + [p], ss + [values[k][p..]])
  }

  /** Decoding what the encoder wrote gives the values back. */
  lemma {:induction false} RebuildRoundTrip(prev: seq<byte>, values: seq<seq<byte>>)
    ensures var (ps, ss) := PrefixEncode(prev, values);
            Rebuild(prev, ps, ss) == Success(values)
    decreases |values|
  {
    if values != [] {
      var k := |values| - 1;
      var init := values[..k];
      RebuildRoundTrip(prev, init);
      var (ps, ss) := PrefixEncode(prev, init);
      var p := CommonPrefix(LastOr(prev, init), values[k]);
      assert PrefixEncode(prev, values) == (ps + [p], ss + [values[k][p..]]);
      EncodedStep(prev, init, values[k], ps, ss, p);
      InitLast(values);
    }
  }

  /** RebuildRoundTrip's step: a value that shares its first `p` bytes with the last
      one is rebuilt from `p` and the rest of it. */
  lemma EncodedStep(prev: seq<byte>, init: seq<seq<byte>>, v: seq<byte>, ps: seq<int>, ss: seq<seq<byte>>, p: nat)
    requires |ps| == |ss| && Rebuild(prev, ps, ss) == Success(init)
    requires p <= |LastOr(prev, init)| && p <= |v| && LastOr(prev, init)[..p] == v[..p]
    ensures Rebuild(prev, ps + [p], ss + [v[p..]]) == Success(init + [v])
  {
    RebuildSnoc(prev, ps, ss, p, v[p..]);
    assert LastOr(prev, init)[..p] + v[p..] == v;
  }

  /** Every rebuilt value is a prefix of the value before it, as long as its prefix
      length, followed by its suffix; so its length is the prefix length plus the
      suffix's. */
  lemma {:induction false} RebuildShape(prev: seq<byte>, ps: seq<int>, ss: seq<seq<byte>>)
    requires |ps| == |ss| && Rebuild(prev, ps, ss).Success?
    ensures var vs := Rebuild(prev, ps, ss).value;
            forall j :: 0 <= j < |vs| ==>
              0 <= ps[j] <= |LastOr(prev, vs[..j])| &&
              vs[j] == LastOr(prev, vs[..j])[..ps[j]] + ss[j] && |vs[j]| == ps[j] + |ss[j]|
    decreases |ps|
  {
    if ps != [] {
      var k := |ps| - 1;
      RebuildShape(prev, ps[..k], ss[..k]);
      var r := Rebuild(prev, ps[..k], ss[..k]).value;
      var vs := Rebuild(prev, ps, ss).value;
      assert vs == r + [vs[k]];
      forall j | 0 <= j < |vs|
        ensures 0 <= ps[j] <= |LastOr(prev, vs[..j])| &&
                vs[j] == LastOr(prev, vs[..j])[..ps[j]] + ss[j] && |vs[j]| == ps[j] + |ss[j]|
      {
        assert vs[..j] == r[..j];
        if j < k {
          assert vs[j] == r[j] && ps[j] == ps[..k][j] && ss[j] == ss[..k][j];
        } else {
          assert vs[..j] == r;
        }
      }
    }
  }

  /** The value before the first one is empty, so the first prefix length of a page
      must be zero. */
  lemma FirstPrefixIsZero(ps: seq<int>, ss: seq<seq<byte>>)
    requires |ps| == |ss| && |ps| > 0 && Rebuild([], ps, ss).Success?
    ensures ps[0] == 0
  {
    RebuildShape([], ps, ss);
    var vs := Rebuild([], ps, ss).value;
    assert vs[..0] == [];
  }

  /** Decoding in two batches, the second starting from the last value of the
      first, gives the values of one decode of both: why the decoder keeps the last
      value between calls. */
  lemma {:induction false} RebuildSplit(prev: seq<byte>, ps1: seq<int>, ss1: seq<seq<byte>>,
                                        ps2: seq<int>, ss2: seq<seq<byte>>)
    requires |ps1| == |ss1| && |ps2| == |ss2|
    ensures var r1 := Rebuild(prev, ps1, ss1);
            Rebuild(prev, ps1 + ps2, ss1 + ss2) ==
              if r1.Failure? then r1
              else
                var r2 := Rebuild(LastOr(prev, r1.value), ps2, ss2);
                if r2.Failure? then Failure(r2.error) else Success(r1.value + r2.value)
    decreases |ps2|
  {
    if ps2 == [] {
      assert ps1 + ps2 == ps1 && ss1 + ss2 == ss1;
      var r1 := Rebuild(prev, ps1, ss1);
      if r1.Success? {
        assert r1.value + [] == r1.value;
      }
    } else {
      var k := |ps2| - 1;
      var (ps, ss) := (ps2[..k], ss2[..k]);
      RebuildSplit(prev, ps1, ss1, ps, ss);
      InitLast(ps2);
      InitLast(ss2);
      ConcatAssoc(ps1, ps, [ps2[k]]);
      ConcatAssoc(ss1, ss, [ss2[k]]);
      RebuildSnoc(prev, ps1 + ps, ss1 + ss, ps2[k], ss2[k]);
      var r1 := Rebuild(prev, ps1, ss1);
      if r1.Success? {
        var r2 := Rebuild(LastOr(prev, r1.value), ps, ss);
        RebuildSnoc(LastOr(prev, r1.value), ps, ss, ps2[k], ss2[k]);
        if r2.Success? {
          assert LastOr(prev, r1.value + r2.value) == LastOr(LastOr(prev, r1.value), r2.value);
          var last := LastOr(LastOr(prev, r1.value), r2.value);
          if 0 <= ps2[k] <= |last| {
            var v := last[..ps2[k]] + ss2[k];
            ConcatAssoc(r1.value, r2.value, [v]);
          }
        }
      }
    }
  }

  // ------------------------------------------------------------------
  // What Decode reads: the two decoders' streams, one value at a time.

  /** The fields of the decoder that Decode moves besides the previous value:
      prefix_len_decoder_'s state and num_values_, and suffix_decoder_'s. */
  datatype Streams = Streams(prefixes: DeltaBitPack.DeltaState, prefixesLeft: int, suffixes: LengthState)
  {
    /** Both bit-pack decoders are well formed and the suffix cursor lies within
        the suffix decoder's page `bytes`. */
    predicate Ok(bytes: seq<byte>)
    {
      prefixes.Ok() && suffixes.lengths.Ok() && suffixes.offset <= |bytes|
    }
  }

  /** prefix_len_decoder_.Decode(&prefix_len, 1) into a zero: the next prefix
      length, or 0 once the decoder has no value left; then the decoder's state
      and num_values_. */
  function NextPrefix(s: DeltaBitPack.DeltaState, left: int): (res: Result<(int, DeltaBitPack.DeltaState, int)>)
    requires s.Ok()
    ensures res.Success? ==> res.value.1.Ok()
  {
    var m := Clamp(Min(1, left));
    var d := DeltaBitPack.DecodeN(s, m);
    if d.Failure? then Failure(d.error)
    else Success((if m == 1 then d.value.0[0] as int else 0, d.value.1, left - Min(1, left)))
  }

  /** suffix_decoder_.Decode(&suffix, 1) into {0, nullptr}, and the bytes of the
      page `bytes` the suffix addresses: the next suffix, or nothing once the
      decoder has no value left; then the decoder's state. */
  function NextSuffix(c: LengthState, bytes: seq<byte>): (res: Result<(seq<byte>, LengthState)>)
    requires c.lengths.Ok() && c.offset <= |bytes|
    ensures res.Success? ==> res.value.1.lengths.Ok() && res.value.1.offset <= |bytes|
  {
    var n := Min(1, c.left);
    var ls := DecodeLengths(c.lengths, c.lengthsLeft, n);
    if ls.Failure? then Failure(ls.error)
    else
      var c1 := LengthState(ls.value.1, c.lengthsLeft - Min(n, c.lengthsLeft), c.left - n, c.offset);
      if n == 0 then Success(([], c1))
      else
        var l := ls.value.0[0] as int;
        if l < 0 || l > |bytes| - c.offset then Failure(Unchecked("value length past the payload"))
        else Success((bytes[c.offset..c.offset + l], c1.(offset := c.offset + l)))
  }

  /** One turn of Decode's loop after the value `last`: read a prefix length, read
      a suffix, and make the value of the two. */
  function Step(src: Streams, bytes: seq<byte>, last: seq<byte>): (res: Result<(seq<byte>, Streams)>)
    requires src.Ok(bytes)
    ensures res.Success? ==> res.value.1.Ok(bytes)
  {
    var p := NextPrefix(src.prefixes, src.prefixesLeft);
    if p.Failure? then Failure(p.error) else
    var s := NextSuffix(src.suffixes, bytes);
    if s.Failure? then Failure(s.error) else
    var (len, prefixes, prefixesLeft) := p.value;
    if len < 0 || len > |last| then Failure(Unchecked("prefix longer than the previous value"))
    else Success((last[..len] + s.value.0, Streams(prefixes, prefixesLeft, s.value.1)))
  }

  /** `k` turns of Decode's loop from the previous value `prev`: the values made
      and the decoders' streams after them. */
  function DecodeRun(src: Streams, bytes: seq<byte>, prev: seq<byte>, k: nat): (res: Result<(seq<seq<byte>>, Streams)>)
    requires src.Ok(bytes)
    ensures res.Success? ==> |res.value.0| == k && res.value.1.Ok(bytes)
    decreases k
  {
    if k == 0 then Success(([], src))
    else
      var r := DecodeRun(src, bytes, prev, k - 1);
      if r.Failure? then r
      else
        var st := Step(r.value.1, bytes, LastOr(prev, r.value.0));
        if st.Failure? then Failure(st.error) else Success((r.value.0 + [st.value.0], st.value.1))
  }

  /** A run that fails at its `k`-th turn fails there however long it was asked
      to be. */
  lemma {:induction false} DecodeRunStops(src: Streams, bytes: seq<byte>, prev: seq<byte>, k: nat, n: nat)
    requires src.Ok(bytes) && k <= n && DecodeRun(src, bytes, prev, k).Failure?
    ensures DecodeRun(src, bytes, prev, n) == DecodeRun(src, bytes, prev, k)
    decreases n
  {
    if n > k {
      DecodeRunStops(src, bytes, prev, k, n - 1);
    }
  }

  /** The first `k` prefix lengths the prefix decoder hands out, with its state and
      num_values_ after them. */
  function PrefixRun(s: DeltaBitPack.DeltaState, left: int, k: nat): (res: Result<(seq<int>, DeltaBitPack.DeltaState, int)>)
    requires s.Ok()
    ensures res.Success? ==> |res.value.0| == k && res.value.1.Ok()
    decreases k
  {
    if k == 0 then Success(([], s, left))
    else
      var r := PrefixRun(s, left, k - 1);
      if r.Failure? then r
      else
        var p := NextPrefix(r.value.1, r.value.2);
        if p.Failure? then Failure(p.error) else Success((r.value.0 + [p.value.0], p.value.1, p.value.2))
  }

  /** The first `k` suffixes the suffix decoder hands out, with its state after
      them. */
  function SuffixRun(c: LengthState, bytes: seq<byte>, k: nat): (res: Result<(seq<seq<byte>>, LengthState)>)
    requires c.lengths.Ok() && c.offset <= |bytes|
    ensures res.Success? ==> |res.value.0| == k && res.value.1.lengths.Ok() && res.value.1.offset <= |bytes|
    decreases k
  {
    if k == 0 then Success(([], c))
    else
      var r := SuffixRun(c, bytes, k - 1);
      if r.Failure? then r
      else
        var s := NextSuffix(r.value.1, bytes);
        if s.Failure? then Failure(s.error) else Success((r.value.0 + [s.value.0], s.value.1))
  }

  /** Decode's loop makes exactly the values Rebuild makes of the prefix lengths
      and suffixes the two decoders hand out: it succeeds exactly when both streams
      deliver `k` items and every prefix length fits its previous value, and the
      decoders then stand where the two streams left them. */
  lemma {:induction false} DecodeRunRebuilds(src: Streams, bytes: seq<byte>, prev: seq<byte>, k: nat)
    requires src.Ok(bytes)
    ensures var pr, sr := PrefixRun(src.prefixes, src.prefixesLeft, k), SuffixRun(src.suffixes, bytes, k);
            DecodeRun(src, bytes, prev, k).Success? <==>
              pr.Success? && sr.Success? && Rebuild(prev, pr.value.0, sr.value.0).Success?
    ensures var pr, sr := PrefixRun(src.prefixes, src.prefixesLeft, k), SuffixRun(src.suffixes, bytes, k);
            var run := DecodeRun(src, bytes, prev, k);
            run.Success? ==>
              pr.Success? && sr.Success? && Rebuild(prev, pr.value.0, sr.value.0) == Success(run.value.0) &&
              run.value.1 == Streams(pr.value.1, pr.value.2, sr.value.1)
    decreases k
  {
    if k > 0 {
      DecodeRunRebuilds(src, bytes, prev, k - 1);
      var run0 := DecodeRun(src, bytes, prev, k - 1);
      var pr0, sr0 := PrefixRun(src.prefixes, src.prefixesLeft, k - 1), SuffixRun(src.suffixes, bytes, k - 1);
      if pr0.Failure? || sr0.Failure? {
        assert run0.Failure?;
      } else {
        var (ps, s1, left1) := pr0.value;
        var (ss, c1) := sr0.value;
        var p, x := NextPrefix(s1, left1), NextSuffix(c1, bytes);
        if p.Success? && x.Success? {
          RebuildSnoc(prev, ps, ss, p.value.0, x.value.0);
        }
        if run0.Success? {
          RunStep(run0.value.1, bytes, LastOr(prev, run0.value.0), s1, left1, c1);
        }
      }
    }
  }

  /** DecodeRunRebuilds' step: a turn of the loop from streams standing where the
      two runs left them takes the next item of each. */
  lemma RunStep(src: Streams, bytes: seq<byte>, last: seq<byte>, s: DeltaBitPack.DeltaState, left: int, c: LengthState)
    requires src.Ok(bytes) && src == Streams(s, left, c)
    ensures var st, p, x := Step(src, bytes, last), NextPrefix(s, left), NextSuffix(c, bytes);
            st.Success? <==> p.Success? && x.Success? && 0 <= p.value.0 <= |last|
    ensures var st, p, x := Step(src, bytes, last), NextPrefix(s, left), NextSuffix(c, bytes);
            st.Success? ==> st.value == (last[..p.value.0] + x.value.0, Streams(p.value.1, p.value.2, x.value.1))
  {
  }

  /** A value held in an array of its own: what the decoder's malloc'ed result
      holds. */
  ghost predicate Holds(b: ByteArray, v: seq<byte>)
    reads b.ptr.buf
  {
    b.len == |v| && b.ptr.offset == 0 && b.ptr.buf[..] == v
  }

  /** The malloc and the two memcpy calls: a fresh array holding the prefix and
      then the suffix. */
  method NewValue(prefix: seq<byte>, suffix: seq<byte>) returns (b: ByteArray)
    ensures fresh(b.ptr.buf) && Holds(b, prefix + suffix)
  {
    var result := new byte[|prefix| + |suffix|];
    CopyBytes(result, 0, prefix);
    CopyBytes(result, |prefix|, suffix);
    assert result[..] == prefix + suffix;
    b := ByteArray(|prefix| + |suffix|, Ptr(result, 0));
  }

  class DeltaByteArrayDecoder {
    /** num_values_: values left in the page. */
    var numValues: int
    /** prefix_len_decoder_ and suffix_decoder_. */
    const prefixLenDecoder: DeltaBitPack.DeltaBitPackDecoder
    const suffixDecoder: DeltaLengthByteArrayDecoder
    /** The bytes last_value_ addresses: the previously decoded value. */
    var lastValue: seq<byte>

    ghost predicate Valid()
      reads this, prefixLenDecoder, suffixDecoder, suffixDecoder.lenDecoder
      ensures Valid() ==> State().Ok(suffixDecoder.page[..])
    {
      prefixLenDecoder.Valid() && suffixDecoder.Valid() && prefixLenDecoder != suffixDecoder.lenDecoder
    }

    function State(): Streams
      reads this, prefixLenDecoder, suffixDecoder, suffixDecoder.lenDecoder
    {
      Streams(prefixLenDecoder.State(), prefixLenDecoder.numValues, suffixDecoder.State())
    }

    constructor ()
      ensures Valid() && lastValue == [] && fresh(prefixLenDecoder) && fresh(suffixDecoder) &&
              fresh(suffixDecoder.lenDecoder)
    {
      numValues := 0;
      prefixLenDecoder := new DeltaBitPack.DeltaBitPackDecoder();
      suffixDecoder := new DeltaLengthByteArrayDecoder();
      lastValue := [];
    }

    /** SetData(num_values, data, len): an empty page only sets the count.  The first
        four bytes give the size of the prefix-length section, which the prefix
        decoder gets; the suffix decoder gets the rest of the page, and an empty
        rest only sets its count.  The previous value is kept. */
    method SetData(count: int, data: array<byte>) returns (o: Outcome)
      requires Valid()
      modifies this, prefixLenDecoder, suffixDecoder, suffixDecoder.lenDecoder
      ensures Valid() && numValues == count && lastValue == old(lastValue)
      ensures data.Length == 0 ==> o == Pass && unchanged(prefixLenDecoder, suffixDecoder, suffixDecoder.lenDecoder)
      ensures 0 < data.Length < 4 ==> o == Fail(Unchecked("page shorter than the prefix-section size"))
      ensures data.Length >= 4 ==>
                var size := ReadInt32LE(data[..4]);
                if size < 0 || 4 + size > data.Length then
                  o == Fail(Unchecked("prefix-length section past the page"))
                else
                  prefixLenDecoder.numValues == count &&
                  prefixLenDecoder.State() == DeltaBitPack.SetDataSpec(old(prefixLenDecoder.State()), data[4..4 + size]) &&
                  suffixDecoder.numValues == count &&
                  (4 + size == data.Length ==>
                     o == Pass && suffixDecoder.page == old(suffixDecoder.page) &&
                     suffixDecoder.offset == old(suffixDecoder.offset) && suffixDecoder.len == old(suffixDecoder.len) &&
                     unchanged(suffixDecoder.lenDecoder)) &&
                  (0 < data.Length - 4 - size < 4 ==>
                     o == Fail(Unchecked("page shorter than the lengths-section size"))) &&
                  (data.Length - 4 - size >= 4 ==>
                     var total := ReadInt32LE(data[4 + size..8 + size]);
                     if total < 0 || 8 + size + total > data.Length then
                       o == Fail(Unchecked("lengths section past the page"))
                     else
                       o == Pass && suffixDecoder.page == data && suffixDecoder.offset == 8 + size + total &&
                       suffixDecoder.len == data.Length - suffixDecoder.offset &&
                       suffixDecoder.lenDecoder.numValues == count &&
                       suffixDecoder.lenDecoder.State() ==
                         DeltaBitPack.SetDataSpec(old(suffixDecoder.lenDecoder.State()), data[8 + size..8 + size + total]))
    {
      numValues := count;
      if data.Length == 0 {
        return Pass;
      }
      if data.Length < 4 {
        return Fail(Unchecked("page shorter than the prefix-section size"));
      }
      var size := ReadInt32LE(data[..4]);
      if size < 0 || 4 + size > data.Length {
        return Fail(Unchecked("prefix-length section past the page"));
      }
      prefixLenDecoder.SetData(count, data[4..4 + size]);
      o := suffixDecoder.SetData(count, data, 4 + size);
    }

    /** prefix_len_decoder_.Decode(&prefix_len, 1) into a zero: NextPrefix. */
    method ReadPrefixLength() returns (res: Result<int>)
      requires Valid()
      modifies prefixLenDecoder
      ensures Valid()
      ensures var p := NextPrefix(old(prefixLenDecoder.State()), old(prefixLenDecoder.numValues));
              if p.Failure? then res == Failure(p.error)
              else res == Success(p.value.0) && prefixLenDecoder.State() == p.value.1 &&
                   prefixLenDecoder.numValues == p.value.2
    {
      var one := new int32[1](_ => 0);
      var got := prefixLenDecoder.GetInternal(one, 1);
      if got.Failure? {
        return Failure(got.error);
      }
      res := Success(one[0] as int);
    }

    /** suffix_decoder_.Decode(&suffix, 1) into {0, nullptr}, then the bytes the
        suffix addresses: NextSuffix. */
    method ReadSuffix() returns (res: Result<seq<byte>>)
      requires Valid()
      modifies suffixDecoder, suffixDecoder.lenDecoder
      ensures Valid() && suffixDecoder.page == old(suffixDecoder.page)
      ensures var x := NextSuffix(old(suffixDecoder.State()), old(suffixDecoder.page[..]));
              if x.Failure? then res == Failure(x.error)
              else res == Success(x.value.0) && suffixDecoder.State() == x.value.1
    {
      var page := suffixDecoder.page;
      ghost var off, room := suffixDecoder.offset, suffixDecoder.len;
      ghost var lens, lensLeft := suffixDecoder.lenDecoder.State(), suffixDecoder.lenDecoder.numValues;
      ghost var n := Min(1, suffixDecoder.numValues);
      var one := new ByteArray[1](_ => ByteArray(0, Ptr(page, 0)));
      var got := suffixDecoder.Decode(one, 1);
      if got.Failure? {
        return Failure(got.error);
      }
      var s := one[0];
      ghost var ls := DecodeLengths(lens, lensLeft, n).value.0;
      assert suffixDecoder.lenDecoder.State() == DecodeLengths(lens, lensLeft, n).value.1;
      assert suffixDecoder.lenDecoder.numValues == lensLeft - Min(n, lensLeft);
      if n == 1 {
        SlicesTile(page, ls, off, room);
        assert Total(ls) == ls[0] + Total(ls[1..]);
        assert s == Slices(page, ls, off, room).value.0[0];
      } else {
        assert s == ByteArray(0, Ptr(page, 0));
      }
      res := Success(s.ptr.buf[s.ptr.offset..s.ptr.offset + s.len]);
    }

    /** One turn of Decode's loop: the next prefix length and suffix, and the value
        they make in an array of its own, which becomes the previous value. */
    method DecodeOne() returns (res: Result<ByteArray>)
      requires Valid()
      modifies this, prefixLenDecoder, suffixDecoder, suffixDecoder.lenDecoder
      ensures Valid() && numValues == old(numValues) && suffixDecoder.page == old(suffixDecoder.page)
      ensures var st := Step(old(State()), old(suffixDecoder.page[..]), old(lastValue));
              if st.Failure? then res == Failure(st.error)
              else res.Success? && State() == st.value.1 && lastValue == st.value.0 &&
                   fresh(res.value.ptr.buf) && Holds(res.value, lastValue)
    {
      var prefixLen :- ReadPrefixLength();
      var bytes :- ReadSuffix();
      if prefixLen < 0 || prefixLen > |lastValue| {
        return Failure(Unchecked("prefix longer than the previous value"));
      }
      var value := NewValue(lastValue[..prefixLen], bytes);
      lastValue := lastValue[..prefixLen] + bytes;
      res := Success(value);
    }

    /** Decode's loop body at `i` of `k`: DecodeOne, its value stored at buffer[i],
        after the `i` values `vs` a run from `src` made; the entries past `i` keep
        what they held at the start, `start`. */
    method DecodeAt(buffer: array<ByteArray>, i: nat, ghost k: nat, ghost src: Streams, ghost bytes: seq<byte>,
                    ghost prev: seq<byte>, ghost vs: seq<seq<byte>>, ghost start: seq<ByteArray>)
      returns (o: Outcome, ghost vs1: seq<seq<byte>>)
      requires Valid() && i < k <= buffer.Length && src.Ok(bytes) && suffixDecoder.page[..] == bytes
      requires DecodeRun(src, bytes, prev, i) == Success((vs, State())) && lastValue == LastOr(prev, vs)
      requires forall j :: 0 <= j < i ==> Holds(buffer[j], vs[j])
      requires |start| == buffer.Length && buffer[i..] == start[i..]
      modifies this, prefixLenDecoder, suffixDecoder, suffixDecoder.lenDecoder, buffer
      ensures Valid() && numValues == old(numValues) && suffixDecoder.page == old(suffixDecoder.page)
      ensures o.Fail? ==> DecodeRun(src, bytes, prev, k) == Failure(o.error)
      ensures o.Pass? ==>
                DecodeRun(src, bytes, prev, i + 1) == Success((vs1, State())) && lastValue == LastOr(prev, vs1) &&
                (forall j :: 0 <= j <= i ==> Holds(buffer[j], vs1[j])) && buffer[i + 1..] == start[i + 1..]
    {
      vs1 := vs;
      var value := DecodeOne();
      if value.Failure? {
        DecodeRunStops(src, bytes, prev, i + 1, k);
        return Fail(value.error), vs1;
      }
      ghost var b0 := buffer[..];
      buffer[i] := value.value;
      assert buffer[i + 1..] == b0[i + 1..] == start[i + 1..];
      vs1 := vs + [lastValue];
      o := Pass;
    }

    /** Decode(buffer, max_values): min(max_values, num_values_) turns of the loop
        (none when that is negative), each value in an array of its own, as
        DecodeRun states; the last value becomes the previous value and
        num_values_ drops by the count, which is returned.  DecodeRunRebuilds
        relates the values to the prefix lengths and suffixes read. */
    method Decode(buffer: array<ByteArray>, maxValues: int) returns (res: Result<int>)
      requires Valid() && Clamp(Min(maxValues, numValues)) <= buffer.Length
      modifies this, prefixLenDecoder, suffixDecoder, suffixDecoder.lenDecoder, buffer
      ensures Valid() && suffixDecoder.page == old(suffixDecoder.page)
      ensures var n := Min(maxValues, old(numValues));
              var run := DecodeRun(old(State()), old(suffixDecoder.page[..]), old(lastValue), Clamp(n));
              if run.Failure? then res == Failure(run.error)
              else
                res == Success(n) && numValues == old(numValues) - n && State() == run.value.1 &&
                lastValue == LastOr(old(lastValue), run.value.0) &&
                (forall j :: 0 <= j < Clamp(n) ==> Holds(buffer[j], run.value.0[j])) &&
                buffer[Clamp(n)..] == old(buffer[Clamp(n)..])
    {
      var n := Min(maxValues, numValues);
      var o := DecodeValues(buffer, Clamp(n), State(), suffixDecoder.page[..], lastValue);
      if o.Fail? {
        return Failure(o.error);
      }
      ghost var last := State();
      numValues := numValues - n;
      assert State() == last;
      res := Success(n);
    }

    /** Decode's loop: `k` values into the front of `buffer`, from the streams
        `src` over the suffix page `bytes` after the value `prev`. */
    method DecodeValues(buffer: array<ByteArray>, k: nat, ghost src: Streams, ghost bytes: seq<byte>,
                        ghost prev: seq<byte>) returns (o: Outcome)
      requires Valid() && k <= buffer.Length
      requires src == State() && bytes == suffixDecoder.page[..] && prev == lastValue
      modifies this, prefixLenDecoder, suffixDecoder, suffixDecoder.lenDecoder, buffer
      ensures Valid() && numValues == old(numValues) && suffixDecoder.page == old(suffixDecoder.page)
      ensures var run := DecodeRun(src, bytes, prev, k);
              if run.Failure? then o == Fail(run.error)
              else
                o == Pass && State() == run.value.1 && lastValue == LastOr(prev, run.value.0) &&
                (forall j :: 0 <= j < k ==> Holds(buffer[j], run.value.0[j])) && buffer[k..] == old(buffer[k..])
    {
      ghost var vs: seq<seq<byte>> := [];
      ghost var start := buffer[..];
      assert src.Ok(bytes);
      var i := 0;
      while i < k
        invariant src.Ok(bytes)
        invariant 0 <= i <= k && Valid() && numValues == old(numValues)
        invariant suffixDecoder.page == old(suffixDecoder.page) && suffixDecoder.page[..] == bytes
        invariant DecodeRun(src, bytes, prev, i) == Success((vs, State())) && lastValue == LastOr(prev, vs)
        invariant forall j :: 0 <= j < i ==> Holds(buffer[j], vs[j])
        invariant buffer[i..] == start[i..]
      {
        o, vs := DecodeAt(buffer, i, k, src, bytes, prev, vs, start);
        if o.Fail? {
          assert DecodeRun(src, bytes, prev, k) == Failure(o.error);
          return;
        }
        i := i + 1;
      }
      assert buffer[k..] == start[k..] == old(buffer[k..]);
      assert DecodeRun(src, bytes, prev, k) == Success((vs, State()));
      o := Pass;
    }
  }
}
