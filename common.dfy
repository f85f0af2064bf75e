/** Shared vocabulary of the codecs: bytes, 32-bit integers with two's-complement
    wrap-around, powers of two, little-endian integers and the error outcomes. */
module Common {

  /** One unsigned byte (uint8_t). */
  type byte = x: int | 0 <= x < 256

  const TwoTo32: int := 0x1_0000_0000
  const TwoTo64: int := 0x1_0000_0000_0000_0000
  const MinInt32: int := -0x8000_0000
  const MaxInt32: int := 0x7fff_ffff

  /** A value of C++ type int32_t. */
  type int32 = x: int | MinInt32 <= x <= MaxInt32

  datatype Option<+T> = None | Some(value: T)

  /** Failures raised by the codecs and kernels.  `Unchecked` marks an input on which the C++
      code reads or writes out of bounds or divides by zero without a check:
      the model stops there instead of guessing what the program would do. */
  datatype Error =
    | Eof                          // ParquetException::EofException
    | NotImplemented(msg: string)  // ParquetException::NYI
    | Invalid(msg: string)         // a thrown ParquetException with a message
    | Unchecked(what: string)
    | KeyError                     // Status::KeyError of the IPC dictionary memo

  datatype Result<+T> = Success(value: T) | Failure(error: Error) {
    predicate IsFailure() { Failure? }
    function PropagateFailure<U>(): Result<U>
      requires Failure?
    {
      Failure(error)
    }
    function Extract(): T
      requires Success?
    {
      value
    }
  }

  /** No value, just success or an error (a C++ `void` that may throw). */
  datatype Outcome = Pass | Fail(error: Error) {
    predicate IsFailure() { Fail? }
    function PropagateFailure<U>(): Result<U>
      requires Fail?
    {
      Failure(error)
    }
  }

  function Pow2(n: nat): (r: nat)
    ensures r >= 1
  {
    if n == 0 then 1 else 2 * Pow2(n - 1)
  }

  /** The int32_t that holds the low 32 bits of `x` (static_cast<int32_t>). */
  function Wrap32(x: int): (r: int32)
    ensures (r - x) % TwoTo32 == 0
    ensures MinInt32 <= x <= MaxInt32 ==> r == x
  {
    var m := x % TwoTo32;
    if m <= MaxInt32 then m else m - TwoTo32
  }

  /** Casting twice adds nothing: the low 32 bits of a sum depend only on the low
      32 bits of its terms. */
  lemma Wrap32OfSum(a: int, b: int)
    ensures Wrap32(a + Wrap32(b)) == Wrap32(a + b)
  {
    var k := (Wrap32(b) - b) / TwoTo32;
    assert Wrap32(b) == b + k * TwoTo32;
    Wrap32Periodic(a + b, k);
  }

  lemma Wrap32Periodic(x: int, k: int)
    ensures Wrap32(x + k * TwoTo32) == Wrap32(x)
  {
    assert (x + k * TwoTo32) % TwoTo32 == x % TwoTo32;
  }

  /** C++ integer division, which truncates toward zero (Dafny's `/` is Euclidean):
      the quotient of the magnitudes, negated when the signs differ. */
  function TruncDiv(a: int, b: int): (q: int)
    requires b != 0
    ensures b > 0 ==> (if a >= 0 then 0 <= q <= a else a <= q <= 0)
  {
    var m: int := Quotient(if a < 0 then -a else a, if b < 0 then -b else b);
    if (a < 0) == (b < 0) then m else -m
  }

  /** How many times `b` fits in `a`, by repeated subtraction. */
  function Quotient(a: nat, b: nat): (q: nat)
    requires b > 0
    ensures q <= a
    decreases a
  {
    if a < b then 0 else 1 + Quotient(a - b, b)
  }

  lemma {:induction false} QuotientIsDiv(a: nat, b: nat)
    requires b > 0
    ensures Quotient(a, b) == a / b
    decreases a
  {
    if a >= b {
      QuotientIsDiv(a - b, b);
      DivStep(a - b, b);
    }
  }

  lemma DivStep(x: nat, b: nat)
    requires b > 0
    ensures (x + b) / b == x / b + 1
  {
    var q, r := x / b, x % b;
    var q', r' := (x + b) / b, (x + b) % b;
    assert x + b == (q + 1) * b + r;
    assert x + b == q' * b + r';
    var d := q' - (q + 1);
    assert d * b == r - r';
    UnitMultiple(d, b);
  }

  /** The only multiple of `b` strictly between `-b` and `b` is zero. */
  lemma UnitMultiple(d: int, b: int)
    requires b > 0 && -b < d * b < b
    ensures d == 0
  {
    if d > 0 {
      MulMono(d, b);
    } else if d < 0 {
      MulMono(-d, b);
    }
  }

  lemma MulMono(d: int, b: int)
    requires d >= 1 && b > 0
    ensures d * b >= b
  {
  }

  /** On non-negative operands the C++ and the Euclidean quotient agree; otherwise
      C++ rounds toward zero. */
  lemma TruncDivMatches(a: int, b: int)
    requires b != 0
    ensures a >= 0 && b > 0 ==> TruncDiv(a, b) == a / b
    ensures TruncDiv(-a, b) == -TruncDiv(a, b) && TruncDiv(a, -b) == -TruncDiv(a, b)
  {
    if a >= 0 && b > 0 {
      QuotientIsDiv(a, b);
    }
  }

  /** The value of a uint64_t assigned from a signed 64-bit `x` (conversion to
      unsigned is modulo 2^64). */
  function ToUint64(x: int): (r: nat)
    requires -TwoTo64 / 2 <= x < TwoTo64 / 2
    ensures r < TwoTo64
  {
    if x >= 0 then x else x + TwoTo64
  }

  /** `--v` on a uint64_t. */
  function DecUint64(v: nat): (r: nat)
    requires v < TwoTo64
    ensures r < TwoTo64
    ensures v > 0 ==> r + 1 == v
    ensures v == 0 ==> r == TwoTo64 - 1
  {
    if v == 0 then TwoTo64 - 1 else v - 1
  }

  /** Four bytes, least significant first, holding `n < 2^32`. */
  function LE32(n: nat): (r: seq<byte>)
    requires n < TwoTo32
    ensures |r| == 4
  {
    [n % 256, (n / 256) % 256, (n / 65536) % 256, n / 16777216]
  }

  /** The unsigned little-endian value of four bytes. */
  function ReadLE32(b: seq<byte>): (n: nat)
    requires |b| >= 4
    ensures n < TwoTo32
  {
    b[0] as int + 256 * (b[1] as int) + 65536 * (b[2] as int) + 16777216 * (b[3] as int)
  }

  /** `*reinterpret_cast<const int*>(data)`: four little-endian bytes read as int32_t. */
  function ReadInt32LE(b: seq<byte>): (n: int32)
    requires |b| >= 4
    ensures n >= 0 ==> n == ReadLE32(b)
  {
    Wrap32(ReadLE32(b))
  }

  lemma {:induction false} LE32RoundTrip(n: nat, rest: seq<byte>)
    requires n < TwoTo32
    ensures ReadLE32(LE32(n) + rest) == n
    ensures 0 <= n <= MaxInt32 ==> ReadInt32LE(LE32(n) + rest) == n
  {
    var b := LE32(n) + rest;
    var n0, n1, n2 := n % 256, n / 256, n / 65536;
    assert n == n0 + 256 * n1;
    assert n1 == n1 % 256 + 256 * n2 by {
      assert n2 == n1 / 256;
    }
    assert n2 == n2 % 256 + 256 * (n / 16777216) by {
      assert n / 16777216 == n2 / 256;
    }
  }

  /** memcpy(buffer + at, bytes, |bytes|). */
  method CopyBytes(buffer: array<byte>, at: nat, bytes: seq<byte>)
    requires at + |bytes| <= buffer.Length
    modifies buffer
    ensures buffer[..] == old(buffer[..at]) + bytes + old(buffer[at + |bytes|..])
  {
    var j := 0;
    while j < |bytes|
      invariant 0 <= j <= |bytes|
      invariant forall k :: 0 <= k < at ==> buffer[k] == old(buffer[k])
      invariant forall k :: at <= k < at + j ==> buffer[k] == bytes[k - at]
      invariant forall k :: at + j <= k < buffer.Length ==> buffer[k] == old(buffer[k])
    {
      buffer[at + j] := bytes[j];
      j := j + 1;
    }
    assert buffer[..] == old(buffer[..at]) + bytes + old(buffer[at + |bytes|..]);
  }

  /** What CopyBytes leaves before and after the copied bytes. */
  lemma CopiedAround(before: seq<byte>, after: seq<byte>, at: nat, bytes: seq<byte>)
    requires at + |bytes| <= |before|
    requires after == before[..at] + bytes + before[at + |bytes|..]
    ensures after[..at + |bytes|] == before[..at] + bytes
    ensures after[at + |bytes|..] == before[at + |bytes|..]
  {
  }

  /** Equal suffixes from `k` on are equal from any later `j` on. */
  lemma SuffixFrom<T>(a: seq<T>, b: seq<T>, k: nat, j: nat)
    requires k <= j <= |a| && k <= |b| && a[k..] == b[k..]
    ensures j <= |b| && a[j..] == b[j..]
  {
    assert a[j..] == a[k..][j - k..];
    assert b[j..] == b[k..][j - k..];
  }

  /** `n` clamped at zero: a loop `for (i = 0; i < n; i++)` runs max(n, 0) times. */
  function Clamp(n: int): nat
  {
    if n < 0 then 0 else n
  }

  /** std::min. */
  function Min(a: int, b: int): int
  {
    if a < b then a else b
  }

  /** A sequence is its prefix followed by its suffix. */
  lemma SplitAt<T>(s: seq<T>, k: nat)
    requires k <= |s|
    ensures s[..k] + s[k..] == s
  {
  }

  /** A non-empty sequence is its head followed by its tail. */
  lemma HeadTail<T>(s: seq<T>)
    requires s != []
    ensures [s[0]] + s[1..] == s
  {
  }

  /** Adjacent slices join. */
  lemma SliceJoin<T>(s: seq<T>, a: nat, b: nat, c: nat)
    requires a <= b <= c <= |s|
    ensures s[a..c] == s[a..b] + s[b..c]
  {
  }

  /** The two halves of a concatenation. */
  lemma ConcatHalves<T>(a: seq<T>, b: seq<T>)
    ensures (a + b)[..|a|] == a && (a + b)[|a|..] == b
  {
  }

  lemma ConcatAssoc<T>(a: seq<T>, b: seq<T>, c: seq<T>)
    ensures (a + b) + c == a + (b + c)
  {
  }

  /** A non-empty sequence is its front followed by its last element. */
  lemma InitLast<T>(s: seq<T>)
    requires s != []
    ensures s[..|s| - 1] + [s[|s| - 1]] == s
  {
  }

  /** A one-longer prefix is the prefix and one more element. */
  lemma PrefixSnoc<T>(s: seq<T>, i: nat)
    requires i < |s|
    ensures s[..i + 1] == s[..i] + [s[i]]
  {
  }

  /** A run of values read in front of the outcome of the reads that follow. */
  function Prepend<T, S>(p: seq<T>, r: Result<(seq<T>, S)>): (res: Result<(seq<T>, S)>)
    ensures res.Success? <==> r.Success?
  {
    if r.Failure? then r else Success((p + r.value.0, r.value.1))
  }

  lemma PrependTwice<T, S>(p: seq<T>, q: seq<T>, r: Result<(seq<T>, S)>)
    ensures Prepend(p, Prepend(q, r)) == Prepend(p + q, r)
  {
    if r.Success? {
      assert p + (q + r.value.0) == (p + q) + r.value.0;
    }
  }

  lemma PrependNone<T, S>(r: Result<(seq<T>, S)>)
    ensures Prepend([], r) == r
  {
    if r.Success? {
      assert [] + r.value.0 == r.value.0;
    }
  }

  function Sum(s: seq<nat>): nat
  {
    if s == [] then 0 else Sum(s[..|s| - 1]) + s[|s| - 1]
  }

  /** Concatenation of a sequence of byte strings. */
  function Concat(s: seq<seq<byte>>): seq<byte>
  {
    if s == [] then [] else Concat(s[..|s| - 1]) + s[|s| - 1]
  }
}
