/** The entry points of arrow/compute/kernels/hash.cc: the kernel wrapper
    (HashKernelImpl), the choice of kernel by type, and Unique and DictionaryEncode
    over an array or a chunked array. */
module HashInvoke {
  import opened Common
  import opened HashTable
  import opened HashSpec
  import opened Memo
  import opened HashKernel

  /** Type::type, the logical type ids. */
  datatype TypeId =
    | NA | Bool | UInt8 | Int8 | UInt16 | Int16 | UInt32 | Int32 | UInt64 | Int64
    | HalfFloat | Float | Double | String | Binary | FixedSizeBinary | Date32 | Date64
    | Timestamp | Time32 | Time64 | Decimal | List | Struct | Union | Dictionary

  /** A data type: its id and its ToString(). */
  datatype DataType = DataType(id: TypeId, name: string)

  /** Which HashTableKernel specialisation serves a type. */
  datatype KernelKind = NullKernel | PrimitiveKernel

  /** The cases of the switch in GetUniqueKernel and GetDictionaryEncodeKernel,
      which list the same types: the null type and the integer and floating-point
      types; booleans, temporal types and binary types have no kernel. */
  function KernelFor(id: TypeId): (k: Option<KernelKind>)
  {
    match id
    case NA => Some(NullKernel)
    case UInt8 | Int8 | UInt16 | Int16 | UInt32 | Int32 | UInt64 | Int64 | Float | Double => Some(PrimitiveKernel)
    case _ => None
  }

  /** The kernels cover exactly the null type and the ten numeric types. */
  lemma KernelForCovers(id: TypeId)
    ensures KernelFor(id) == Some(NullKernel) <==> id == NA
    ensures KernelFor(id) == Some(PrimitiveKernel) <==>
              id in {UInt8, Int8, UInt16, Int16, UInt32, Int32, UInt64, Int64, Float, Double}
    ensures KernelFor(id).None? <==>
              id in {Bool, HalfFloat, String, Binary, FixedSizeBinary, Date32, Date64, Timestamp, Time32, Time64,
                     Decimal, List, Struct, Union, Dictionary}
  {
  }

  /** The function name CHECK_IMPLEMENTED reports. */
  function FuncName(action: Action): string
  {
    match action
    case UniqueAction => "unique"
    case DictEncodeAction => "dictionary-encode"
  }

  /** The elements a kernel of kind `kind` sees in `arr`. */
  function Input(kind: KernelKind, arr: ArrayData): seq<Option<int>>
    requires kind == PrimitiveKernel ==> WellFormed(arr)
  {
    if kind == NullKernel then Nulls(arr.length) else Elements(arr)
  }

  /** The kernel behind a HashKernelImpl. */
  datatype Hasher = NullHasher(nulls: NullHashKernel) | PrimitiveHasher(prims: PrimitiveHashKernel)

  /** HashKernelImpl: a kernel and its action, behind one interface. */
  class HashKernelImpl {
    const hasher: Hasher
    const observer: Observer

    function Kind(): KernelKind
    {
      if hasher.NullHasher? then NullKernel else PrimitiveKernel
    }

    ghost function Kernel(): set<object>
    {
      match hasher
      case NullHasher(k) => {k}
      case PrimitiveHasher(k) => {k}
    }

    ghost function Arrays(): set<object>
      reads Kernel()
    {
      match hasher
      case NullHasher(_) => {}
      case PrimitiveHasher(k) => {k.slots as object, k.dictValues as object}
    }

    /** The kernel's arrays are the ones it had, or new ones. */
    twostate predicate ArraysKept()
      reads this, Kernel()
    {
      match hasher
      case NullHasher(_) => true
      case PrimitiveHasher(k) =>
        (k.slots == old(k.slots) || fresh(k.slots)) && (k.dictValues == old(k.dictValues) || fresh(k.dictValues))
    }

    ghost predicate Valid()
      reads this, Kernel(), Arrays()
    {
      match hasher
      case NullHasher(k) => k.observer == observer
      case PrimitiveHasher(k) => k.observer == observer && k.Valid()
    }

    /** The dictionary so far; always empty for the null type. */
    /** The dictionary's size is within its buffer, as Valid() implies. */
    ghost predicate Sized()
      reads this, Kernel()
    {
      match hasher
      case NullHasher(_) => true
      case PrimitiveHasher(k) => k.dictSize <= k.dictValues.Length
    }

    ghost function Dictionary(): seq<int>
      reads this, Kernel(), Arrays()
      requires Sized()
    {
      match hasher
      case NullHasher(_) => []
      case PrimitiveHasher(k) => k.Dict()
    }

    /** Whether the kernel's dictionary exists: a primitive kernel allocates it on
        its first Append. */
    ghost predicate Initialized()
      reads this, Kernel()
    {
      match hasher
      case NullHasher(_) => true
      case PrimitiveHasher(k) => k.initialized
    }

    /** Whether the kernel may add values to its dictionary. */
    function Expands(): bool
    {
      match hasher
      case NullHasher(_) => true
      case PrimitiveHasher(k) => k.allowExpand
    }

    constructor(hasher: Hasher, observer: Observer)
      requires match hasher
               case NullHasher(k) => k.observer == observer
               case PrimitiveHasher(k) => k.observer == observer && k.Valid() && k.Dict() == []
      ensures this.hasher == hasher && this.observer == observer && Valid() && Dictionary() == []
    {
      this.hasher := hasher;
      this.observer := observer;
    }

    /** Append: the kernel's pass over `input`, a HashException becoming its status. */
    method Append(input: ArrayData) returns (o: Outcome)
      requires Valid() && (Kind() == PrimitiveKernel ==> WellFormed(input))
      modifies Kernel(), Arrays(), observer
      ensures Valid() && ArraysKept() && Initialized()
      ensures o.Pass? ==> Dictionary() == Uniq(old(Dictionary()), Input(Kind(), input)) &&
                          observer.indices == old(observer.indices) + Observed(observer.action, old(Dictionary()), Input(Kind(), input))
      ensures o.Fail? ==> Refused(Expands(), o.error, old(Dictionary()), Input(Kind(), input))
    {
      match hasher
      case NullHasher(k) =>
        o := k.Append(input);
        NullsObserved([], input.length);
      case PrimitiveHasher(k) =>
        o := k.Append(input);
    }

    /** Flush: the action's outputs so far. */
    method Flush() returns (out: seq<seq<Option<int>>>)
      requires Valid()
      modifies observer
      ensures Valid() && Dictionary() == old(Dictionary())
      ensures observer.action == DictEncodeAction ==> out == [old(observer.indices)] && observer.indices == []
      ensures observer.action == UniqueAction ==> out == [] && observer.indices == old(observer.indices)
    {
      out := observer.Flush();
    }

    /** Flush after a successful Append of elements `xs` onto dictionary `d0`. */
    method FlushObserved(ghost d0: seq<int>, ghost xs: seq<Option<int>>) returns (out: seq<seq<Option<int>>>)
      requires Valid() && observer.indices == Observed(observer.action, d0, xs)
      modifies observer
      ensures Valid() && Dictionary() == old(Dictionary()) && observer.indices == []
      ensures out == (if observer.action == DictEncodeAction then [Observed(observer.action, d0, xs)] else [])
    {
      out := Flush();
    }

    /** Call: Append, then Flush. */
    method Call(input: ArrayData) returns (o: Outcome, out: seq<seq<Option<int>>>)
      requires Valid() && observer.indices == [] && (Kind() == PrimitiveKernel ==> WellFormed(input))
      modifies Kernel(), Arrays(), observer
      ensures Valid() && ArraysKept() && Initialized()
      ensures o.Pass? ==> Dictionary() == Uniq(old(Dictionary()), Input(Kind(), input)) && observer.indices == [] &&
                          out == (if observer.action == DictEncodeAction
                                  then [Observed(observer.action, old(Dictionary()), Input(Kind(), input))] else [])
      ensures o.Fail? ==> Refused(Expands(), o.error, old(Dictionary()), Input(Kind(), input))
    {
      out := [];
      o := Append(input);
      if o.Pass? {
        out := FlushObserved(old(Dictionary()), Input(Kind(), input));
      }
    }

    /** GetDictionary: the dictionary's values, once the dictionary exists. */
    method GetDictionary(ghost init: bool, ghost dict: seq<int>) returns (r: Result<seq<int>>)
      requires Sized() && init == Initialized() && dict == Dictionary()
      ensures r == if init then Success(dict) else Failure(Unchecked(NoDictionaryBuffer))
    {
      match hasher
      case NullHasher(k) =>
        r := k.GetDictionary();
      case PrimitiveHasher(k) =>
        r := k.GetDictionary();
    }
  }

  /** GetUniqueKernel and GetDictionaryEncodeKernel: a fresh kernel for the type,
      or NotImplemented naming the function and the type. */
  method GetHashKernel(action: Action, t: DataType, hash: int -> int) returns (r: Result<HashKernelImpl>)
    ensures r.Failure? <==> KernelFor(t.id).None?
    ensures r.Failure? ==> r.error == NotImplemented(FuncName(action) + " not implemented for " + t.name)
    ensures r.Success? ==> var f := r.value;
              fresh(f) && fresh(f.Kernel()) && fresh(f.Arrays()) && fresh(f.observer) &&
              f.Valid() && f.Kind() == KernelFor(t.id).value && f.Expands() && f.Dictionary() == [] &&
              (f.Initialized() <==> f.Kind() == NullKernel) &&
              f.observer.action == action && f.observer.indices == []
  {
    match KernelFor(t.id)
    case None =>
      r := Failure(NotImplemented(FuncName(action) + " not implemented for " + t.name));
    case Some(kind) =>
      var observer := new Observer(action);
      if kind == NullKernel {
        var k := new NullHashKernel(observer);
        var f := new HashKernelImpl(NullHasher(k), observer);
        r := Success(f);
      } else {
        var k := new PrimitiveHashKernel(observer, AllowExpand(action), hash);
        var f := new HashKernelImpl(PrimitiveHasher(k), observer);
        r := Success(f);
      }
  }

  /** A Datum as the hash functions take it. */
  datatype Datum = ArrayDatum(arr: ArrayData) | ChunkedDatum(chunks: seq<ArrayData>) | OtherDatum

  predicate DatumWellFormed(value: Datum)
  {
    match value
    case ArrayDatum(a) => WellFormed(a)
    case ChunkedDatum(cs) => forall i :: 0 <= i < |cs| ==> WellFormed(cs[i])
    case OtherDatum => true
  }

  /** The arrays a Datum hands to the kernel: itself, its chunks, or none. */
  function Pieces(value: Datum): seq<ArrayData>
  {
    match value
    case ArrayDatum(a) => [a]
    case ChunkedDatum(cs) => cs
    case OtherDatum => []
  }

  /** The elements a kernel of kind `kind` sees, piece by piece. */
  function Inputs(kind: KernelKind, pieces: seq<ArrayData>): (xs: seq<seq<Option<int>>>)
    requires kind == PrimitiveKernel ==> forall i :: 0 <= i < |pieces| ==> WellFormed(pieces[i])
    ensures |xs| == |pieces|
  {
    seq(|pieces|, i requires 0 <= i < |pieces| => Input(kind, pieces[i]))
  }

  /** InvokeHash: Call on the array, or on each chunk in turn, then the dictionary;
      a Datum of another kind is not hashed at all. An array is Called exactly as
      a chunked array of that one chunk would be, so both go through CallChunks.
      A kernel that never appended has no dictionary to hand over. */
  method InvokeHash(func: HashKernelImpl, value: Datum) returns (o: Outcome, outputs: seq<seq<Option<int>>>, dictionary: seq<int>)
    requires func.Valid() && func.observer.indices == [] && DatumWellFormed(value)
    modifies func.Kernel(), func.Arrays(), func.observer
    ensures !old(func.Initialized()) && Pieces(value) == [] ==> o == Fail(Unchecked(NoDictionaryBuffer))
    ensures o.Pass? ==> var xs := Inputs(func.Kind(), Pieces(value));
                        outputs == ChunkOutputs(func.observer.action, old(func.Dictionary()), xs) &&
                        dictionary == Uniq(old(func.Dictionary()), Flatten(xs))
    ensures o.Fail? ==> Refused(func.Expands(), o.error, old(func.Dictionary()), Flatten(Inputs(func.Kind(), Pieces(value)))) ||
                        (o.error == Unchecked(NoDictionaryBuffer) && !old(func.Initialized()) && Pieces(value) == [])
  {
    dictionary := [];
    var pieces := Pieces(value);
    assert func.Kind() == PrimitiveKernel ==> forall j :: 0 <= j < |pieces| ==> WellFormed(pieces[j]);
    ghost var d0, xs := func.Dictionary(), Inputs(func.Kind(), pieces);
    o, outputs := CallChunks(func, pieces, d0);
    if o.Fail? {
      return;
    }
    ghost var u, init := func.Dictionary(), func.Initialized();
    assert u == Uniq(d0, Flatten(xs)) && (init <==> old(func.Initialized()) || pieces != []);
    var d := func.GetDictionary(init, u);
    if d.Failure? {
      return Fail(d.error), outputs, dictionary;
    }
    dictionary := d.value;
  }

  /** InvokeHash's loop over the chunks of a chunked array. */
  method CallChunks(func: HashKernelImpl, chunks: seq<ArrayData>, ghost d0: seq<int>)
    returns (o: Outcome, outputs: seq<seq<Option<int>>>)
    requires func.Valid() && func.observer.indices == [] && func.Dictionary() == d0
    requires func.Kind() == PrimitiveKernel ==> forall j :: 0 <= j < |chunks| ==> WellFormed(chunks[j])
    modifies func.Kernel(), func.Arrays(), func.observer
    ensures func.Valid() && func.ArraysKept()
    ensures |chunks| == 0 ==> o.Pass? && func.Initialized() == old(func.Initialized())
    ensures |chunks| > 0 ==> func.Initialized()
    ensures o.Pass? ==> var xs := Inputs(func.Kind(), chunks);
                        outputs == ChunkOutputs(func.observer.action, d0, xs) && func.Dictionary() == Uniq(d0, Flatten(xs))
    ensures o.Fail? ==> Refused(func.Expands(), o.error, d0, Flatten(Inputs(func.Kind(), chunks)))
  {
    ghost var xs := Inputs(func.Kind(), chunks);
    outputs := [];
    o := Pass;
    if |chunks| == 0 {
      assert xs == [];
      return;
    }
    var i := 0;
    while o.Pass? && i < |chunks|
      invariant 0 <= i <= |chunks| && (i == 0 ==> o.Pass?)
      invariant func.Valid() && func.ArraysKept()
      invariant i > 0 ==> func.Initialized()
      invariant o.Pass? ==> func.observer.indices == [] && func.Dictionary() == Uniq(d0, Flatten(xs[..i])) &&
                            outputs == ChunkOutputs(func.observer.action, d0, xs[..i])
      invariant o.Fail? ==> Refused(func.Expands(), o.error, d0, Flatten(xs))
    {
      o, outputs := CallPiece(func, chunks[i], xs, i, d0, outputs);
      i := i + 1;
    }
    if o.Pass? {
      assert xs[..i] == xs;
    }
  }

  /** The loop's step: Call on chunk `i`, whose elements are `xs[i]`, the chunks
      before it done. */
  method CallPiece(func: HashKernelImpl, chunk: ArrayData, ghost xs: seq<seq<Option<int>>>, i: nat, ghost d0: seq<int>,
                   outputs: seq<seq<Option<int>>>) returns (o: Outcome, outputs1: seq<seq<Option<int>>>)
    requires i < |xs| && (func.Kind() == PrimitiveKernel ==> WellFormed(chunk)) && xs[i] == Input(func.Kind(), chunk)
    requires func.Valid() && func.observer.indices == []
    requires func.Dictionary() == Uniq(d0, Flatten(xs[..i])) && outputs == ChunkOutputs(func.observer.action, d0, xs[..i])
    modifies func.Kernel(), func.Arrays(), func.observer
    ensures func.Valid() && func.ArraysKept() && func.Initialized()
    ensures o.Pass? ==> func.observer.indices == [] && func.Dictionary() == Uniq(d0, Flatten(xs[..i + 1])) &&
                        outputs1 == ChunkOutputs(func.observer.action, d0, xs[..i + 1])
    ensures o.Fail? ==> Refused(func.Expands(), o.error, d0, Flatten(xs))
  {
    var out;
    o, out := func.Call(chunk);
    outputs1 := outputs + out;
    ChunkStep(func.observer.action, d0, xs, i);
    if o.Pass? {
      OneChunk(func.observer.action, Uniq(d0, Flatten(xs[..i])), xs[i]);
    } else {
      FlattenPrefix(xs, i + 1);
      UniqGrows(d0, Flatten(xs[..i + 1]), Flatten(xs));
    }
  }

  /** Feeding piece `i` after the ones before it. */
  lemma ChunkStep(action: Action, d0: seq<int>, xs: seq<seq<Option<int>>>, i: nat)
    requires i < |xs|
    ensures Flatten(xs[..i + 1]) == Flatten(xs[..i]) + xs[i]
    ensures Uniq(Uniq(d0, Flatten(xs[..i])), xs[i]) == Uniq(d0, Flatten(xs[..i + 1]))
    ensures ChunkOutputs(action, d0, xs[..i + 1]) ==
            ChunkOutputs(action, d0, xs[..i]) + ChunkOutputs(action, Uniq(d0, Flatten(xs[..i])), [xs[i]])
  {
    assert xs[..i + 1][..i] == xs[..i];
    assert [xs[i]][..0] == [];
    UniqConcat(d0, Flatten(xs[..i]), xs[i]);
  }

  /** What Unique computes for a kernel of kind `kind`, the codes staying within
      int32: the distinct non-null values of all the pieces, in order of first
      appearance.  A primitive kernel handed no piece (an empty chunked array, or a
      Datum that is neither kind) never allocated its dictionary, which
      GetDictionary then dereferences. */
  function UniqueDatum(kind: KernelKind, value: Datum): Result<seq<int>>
    requires kind == PrimitiveKernel ==> DatumWellFormed(value)
  {
    if kind == PrimitiveKernel && Pieces(value) == [] then Failure(Unchecked(NoDictionaryBuffer))
    else Success(Uniq([], Flatten(Inputs(kind, Pieces(value)))))
  }

  /** Unique's result is a set of distinct values: exactly the non-null values of
      the pieces; it fails only for a primitive kernel given no piece. */
  lemma UniqueDatumValues(kind: KernelKind, value: Datum)
    requires kind == PrimitiveKernel ==> DatumWellFormed(value)
    ensures UniqueDatum(kind, value).Failure? <==> kind == PrimitiveKernel && Pieces(value) == []
    ensures UniqueDatum(kind, value).Success? ==>
              var u := UniqueDatum(kind, value).value;
              Distinct(u) && forall x :: x in u <==> Some(x) in Flatten(Inputs(kind, Pieces(value)))
  {
    if !(kind == PrimitiveKernel && Pieces(value) == []) {
      var xs := Flatten(Inputs(kind, Pieces(value)));
      UniqMembers([], xs);
      UniqDistinct([], xs);
    }
  }

  /** Unique: the distinct non-null values of the array or of all the chunks, in
      order of first appearance, as UniqueDatum states, unless the dictionary
      would hold RehashBound values or more, past what a table of MaxTableSize
      slots carries; the null type yields an empty dictionary.  Input of fewer
      than RehashBound elements always gets UniqueDatum. */
  method Unique(t: DataType, hash: int -> int, value: Datum) returns (r: Result<seq<int>>)
    requires DatumWellFormed(value)
    ensures KernelFor(t.id).None? ==> r == Failure(NotImplemented(FuncName(UniqueAction) + " not implemented for " + t.name))
    ensures KernelFor(t.id).Some? ==>
              var xs := Flatten(Inputs(KernelFor(t.id).value, Pieces(value)));
              r == UniqueDatum(KernelFor(t.id).value, value) ||
              (r == Failure(Unchecked(IndexPastInt32)) && RehashBound <= |Uniq([], xs)|)
    ensures KernelFor(t.id).Some? && |Flatten(Inputs(KernelFor(t.id).value, Pieces(value)))| < RehashBound ==>
              r == UniqueDatum(KernelFor(t.id).value, value)
  {
    var kernel := GetHashKernel(UniqueAction, t, hash);
    if kernel.Failure? {
      return Failure(kernel.error);
    }
    var func := kernel.value;
    UniqBound([], Flatten(Inputs(func.Kind(), Pieces(value))));
    var o, outputs, dictionary := InvokeHash(func, value);
    if o.Fail? {
      return Failure(o.error);
    }
    r := Success(dictionary);
  }

  /** What DictionaryEncode yields: for an array, its codes with the dictionary;
      for a chunked array, the codes of each chunk sharing one dictionary. */
  datatype Encoded =
    | EncodedArray(indices: seq<Option<int>>, dictionary: seq<int>)
    | EncodedChunked(chunks: seq<seq<Option<int>>>, dictionary: seq<int>)

  /** What DictionaryEncode computes for a kernel of kind `kind`, the dictionary
      codes staying within int32: an array's codes and dictionary, or every chunk's
      codes against the one dictionary of all chunks. With no chunk encoded (an
      empty chunked array, or a Datum that is neither kind) a primitive kernel has
      no dictionary to hand over, and for the null type there is no first output
      to read, which is out of bounds in the source. */
  function EncodeDatum(kind: KernelKind, value: Datum): Result<Encoded>
    requires kind == PrimitiveKernel ==> DatumWellFormed(value)
  {
    match value
    case ArrayDatum(a) =>
      var x := Input(kind, a);
      Success(EncodedArray(Encode([], x), Uniq([], x)))
    case ChunkedDatum(cs) =>
      if cs == [] then Failure(NothingEncoded(kind))
      else
        var xs := Inputs(kind, cs);
        Success(EncodedChunked(ChunkOutputs(DictEncodeAction, [], xs), Uniq([], Flatten(xs))))
    case OtherDatum => Failure(NothingEncoded(kind))
  }

  /** The error of a DictionaryEncode given no piece: GetDictionary fails first for
      a primitive kernel. */
  function NothingEncoded(kind: KernelKind): Error
  {
    if kind == PrimitiveKernel then Unchecked(NoDictionaryBuffer) else Unchecked("no indices output to read")
  }

  /** Dictionary encoding a Datum loses nothing: every code points at its
      element's value in the dictionary, nulls stay null, and a chunked array's
      codes are those of encoding all its elements at once. */
  lemma EncodeDatumDecodes(kind: KernelKind, value: Datum)
    requires kind == PrimitiveKernel ==> DatumWellFormed(value)
    ensures match EncodeDatum(kind, value)
            case Success(EncodedArray(indices, dict)) =>
              value.ArrayDatum? && Decodes(indices, Input(kind, value.arr), dict) && Distinct(dict)
            case Success(EncodedChunked(chunks, dict)) =>
              value.ChunkedDatum? && |chunks| == |value.chunks| &&
              (forall k :: 0 <= k < |chunks| ==> Decodes(chunks[k], Input(kind, value.chunks[k]), dict)) &&
              Flatten(chunks) == Encode([], Flatten(Inputs(kind, value.chunks))) && Distinct(dict)
            case Failure(e) => e == NothingEncoded(kind) && Pieces(value) == []
  {
    match value
    case ArrayDatum(a) =>
      EncodeDecodes([], Input(kind, a));
      UniqDistinct([], Input(kind, a));
    case ChunkedDatum(cs) =>
      if cs != [] {
        var xs := Inputs(kind, cs);
        ChunkOutputsDecode([], xs);
        ChunkOutputsEncode([], xs);
        UniqDistinct([], Flatten(xs));
      }
    case OtherDatum =>
  }

  /** DictionaryEncode's result from InvokeHash's outputs and dictionary: the first
      output for an array, all of them for a chunked array; with no output there is
      nothing to read. It is EncodeDatum. */
  method Assemble(kind: KernelKind, value: Datum, outputs: seq<seq<Option<int>>>, dictionary: seq<int>)
    returns (r: Result<Encoded>)
    requires DatumWellFormed(value) && (kind == PrimitiveKernel ==> Pieces(value) != [])
    requires var xs := Inputs(kind, Pieces(value));
             outputs == ChunkOutputs(DictEncodeAction, [], xs) && dictionary == Uniq([], Flatten(xs))
    ensures r == EncodeDatum(kind, value)
  {
    if value.ArrayDatum? {
      var x := Input(kind, value.arr);
      assert Inputs(kind, [value.arr]) == [x];
      OneChunk(DictEncodeAction, [], x);
    }
    if |outputs| == 0 {
      return Failure(Unchecked("no indices output to read"));
    }
    if value.ArrayDatum? {
      r := Success(EncodedArray(outputs[0], dictionary));
    } else {
      r := Success(EncodedChunked(outputs, dictionary));
    }
  }

  /** DictionaryEncode: the codes of every element and the dictionary they index,
      as EncodeDatum states, unless the dictionary would hold RehashBound values
      or more.  Input of fewer than RehashBound elements always gets EncodeDatum. */
  method DictionaryEncode(t: DataType, hash: int -> int, value: Datum) returns (r: Result<Encoded>)
    requires DatumWellFormed(value)
    ensures KernelFor(t.id).None? ==> r == Failure(NotImplemented(FuncName(DictEncodeAction) + " not implemented for " + t.name))
    ensures KernelFor(t.id).Some? ==>
              var xs := Flatten(Inputs(KernelFor(t.id).value, Pieces(value)));
              r == EncodeDatum(KernelFor(t.id).value, value) ||
              (r == Failure(Unchecked(IndexPastInt32)) && RehashBound <= |Uniq([], xs)|)
    ensures KernelFor(t.id).Some? && |Flatten(Inputs(KernelFor(t.id).value, Pieces(value)))| < RehashBound ==>
              r == EncodeDatum(KernelFor(t.id).value, value)
  {
    var kernel := GetHashKernel(DictEncodeAction, t, hash);
    if kernel.Failure? {
      return Failure(kernel.error);
    }
    var func := kernel.value;
    UniqBound([], Flatten(Inputs(func.Kind(), Pieces(value))));
    var o, outputs, dictionary := InvokeHash(func, value);
    if o.Fail? {
      return Failure(o.error);
    }
    r := Assemble(func.Kind(), value, outputs, dictionary);
  }
}
