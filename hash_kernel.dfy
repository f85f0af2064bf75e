/** The hash kernels of arrow/compute/kernels/hash.cc: a kernel observes the
    elements of one array after another, growing a dictionary of the distinct
    values, and its action (unique or dictionary-encode) records what it observed;
    Unique and DictionaryEncode run a kernel over an array or the chunks of a
    chunked array. */
module HashKernel {
  import opened Common
  import opened HashTable
  import opened HashSpec
  import opened Memo

  /** The part of an ArrayData the kernels read: `length` elements, the values
      (one per element, whatever is stored under a null) and the validity bitmap,
      consulted only when null_count is not 0. */
  datatype ArrayData = ArrayData(length: nat, values: seq<int>, validity: seq<bool>, nullCount: int)

  predicate WellFormed(arr: ArrayData)
  {
    |arr.values| == arr.length && (arr.nullCount != 0 ==> |arr.validity| == arr.length)
  }

  predicate IsNull(arr: ArrayData, i: nat)
    requires WellFormed(arr) && i < arr.length
  {
    arr.nullCount != 0 && !arr.validity[i]
  }

  /** The elements of a primitive array, None for a null. */
  function Elements(arr: ArrayData): seq<Option<int>>
    requires WellFormed(arr)
  {
    seq(arr.length, i requires 0 <= i < arr.length => if IsNull(arr, i) then None else Some(arr.values[i]))
  }

  /** The elements of an array of the null type: all null. */
  function Nulls(n: nat): seq<Option<int>>
  {
    seq(n, _ => None)
  }

  /** All-null input leaves the dictionary alone and gets a null code per element. */
  lemma {:induction false} NullsObserved(dict: seq<int>, n: nat)
    ensures Uniq(dict, Nulls(n)) == dict
    ensures Encode(dict, Nulls(n)) == Nulls(n)
  {
    if n > 0 {
      NullsObserved(dict, n - 1);
      assert Nulls(n)[..n - 1] == Nulls(n - 1);
    }
  }

  /** Observing element `i` after the ones before it. */
  lemma ObserveNext(action: Action, d0: seq<int>, xs: seq<Option<int>>, i: nat)
    requires i < |xs|
    ensures Uniq(d0, xs[..i + 1]) == Uniq(Uniq(d0, xs[..i]), [xs[i]])
    ensures Observed(action, d0, xs[..i + 1]) == Observed(action, d0, xs[..i]) + Observed(action, Uniq(d0, xs[..i]), [xs[i]])
  {
    assert xs[..i + 1] == xs[..i] + [xs[i]];
    ObservedConcat(action, d0, xs[..i], [xs[i]]);
    UniqConcat(d0, xs[..i], [xs[i]]);
  }

  /** A null leaves the dictionary alone, whatever it holds. */
  lemma NullStep(action: Action, dict: seq<int>)
    ensures Uniq(dict, [None]) == dict && Observed(action, dict, [None]) == Observed(action, [], [None])
  {
    NullsObserved(dict, 1);
    NullsObserved([], 1);
    assert Nulls(1) == [None];
  }

  /** What GetDictionary of a primitive kernel that never appended runs into. */
  const NoDictionaryBuffer := "dictionary buffer never allocated"

  /** What a kernel runs into when a new value takes the table past the int32
      range: a code past MaxInt32 (hash_slot_t), or the rehash of a table of
      2^31 slots, whose `int` counter would pass MaxInt32. */
  const IndexPastInt32 := "hash table index past the int32 range"

  /** The largest table that can still be rehashed: DoubleTableSize counts the
      old slots with an `int`. */
  const MaxTableSize: nat := 0x8000_0000

  /** The least dictionary size whose load passes 0.7 in a table of
      MaxTableSize slots: 10 * 1503238554 > 7 * 2^31 >= 10 * 1503238553. */
  const RehashBound: nat := 1_503_238_554

  /** Why a pass stops at a value the dictionary lacks: the action refuses new
      values (HashException), or adding it would overflow an int32 index. */
  function Refusal(allowExpand: bool): Error
  {
    if allowExpand then Unchecked(IndexPastInt32) else Invalid("Encountered new dictionary value")
  }

  /** A pass over the elements `xs`, from the dictionary `d0`, stopped with error
      `e` at a value it could not add: the refusal, and when new values are
      allowed, a dictionary of these elements that holds RehashBound values or
      more, beyond what a table of MaxTableSize slots can carry. */
  predicate Refused(allowExpand: bool, e: Error, d0: seq<int>, xs: seq<Option<int>>)
  {
    e == Refusal(allowExpand) && (allowExpand ==> RehashBound <= |Uniq(d0, xs)|)
  }

  /** Both actions may add values to the dictionary (allow_expand). */
  function AllowExpand(action: Action): bool
  {
    true
  }

  /** The action half of a kernel: UniqueImpl records nothing, DictEncodeImpl
      appends one code or null per element to its indices builder. */
  class Observer {
    const action: Action
    var indices: seq<Option<int>>

    constructor(action: Action)
      ensures this.action == action && indices == []
    {
      this.action := action;
      indices := [];
    }

    method ObserveNull()
      modifies this
      ensures indices == old(indices) + Observed(action, [], [None])
    {
      if action == DictEncodeAction {
        indices := indices + [None];
      }
    }

    /** ObserveFound and ObserveNotFound, which do the same. */
    method ObserveSlot(slot: int32)
      modifies this
      ensures indices == old(indices) + (if action == DictEncodeAction then [Some(slot as int)] else [])
    {
      if action == DictEncodeAction {
        indices := indices + [Some(slot as int)];
      }
    }

    /** Flush: dictionary-encode hands over the indices built so far as one output
        and starts afresh; unique outputs nothing. */
    method Flush() returns (out: seq<seq<Option<int>>>)
      modifies this
      ensures action == DictEncodeAction ==> out == [old(indices)] && indices == []
      ensures action == UniqueAction ==> out == [] && indices == old(indices)
    {
      if action == DictEncodeAction {
        out := [indices];
        indices := [];
      } else {
        out := [];
      }
    }
  }

  /** `n` values of `a` in a new array of `len`: HashDictionary::Resize. */
  method Grow(a: array<int>, n: nat, len: nat) returns (b: array<int>)
    requires n <= a.Length && n <= len
    ensures fresh(b) && b.Length == len && b[..n] == a[..n]
  {
    b := new int[len];
    var i := 0;
    while i < n
      invariant 0 <= i <= n && b[..i] == a[..i]
    {
      b[i] := a[i];
      i := i + 1;
    }
  }

  /** HashTableKernel for a primitive type: the slot table, the dictionary values
      (HashDictionary, capacity the table size) and the action's observer. */
  class PrimitiveHashKernel {
    const observer: Observer
    const allowExpand: bool
    /** HashUtil::Hash over the value's bytes. */
    const hash: int -> int
    var initialized: bool
    var slots: array<int32>
    var tableSize: nat
    var modBitmask: int
    var dictValues: array<int>
    var dictSize: nat
    ghost var pos: map<int, nat>

    ghost function Dict(): seq<int>
      reads this, dictValues
      requires dictSize <= dictValues.Length
    {
      dictValues[..dictSize]
    }

    /** The table holds the dictionary, whose values are distinct, in a power-of-two
        table the size of the dictionary's capacity. */
    ghost predicate Sound()
      reads this, slots, dictValues
    {
      dictSize <= dictValues.Length &&
      (!initialized ==> dictSize == 0) &&
      (initialized ==>
         tableSize == slots.Length == dictValues.Length && InitialTableSize <= tableSize &&
         PowerOfTwo(tableSize) && modBitmask == tableSize - 1 &&
         Table(slots[..], Dict(), hash, pos) && Distinct(Dict()))
    }

    /** Sound, and the load is at most kMaxHashTableLoad = 0.7. */
    ghost predicate Valid()
      reads this, slots, dictValues
    {
      Sound() && (initialized ==> 10 * dictSize <= 7 * tableSize)
    }

    constructor(observer: Observer, allowExpand: bool, hash: int -> int)
      ensures this.observer == observer && this.allowExpand == allowExpand && this.hash == hash
      ensures Valid() && !initialized && Dict() == [] && fresh(slots) && fresh(dictValues)
    {
      this.observer := observer;
      this.allowExpand := allowExpand;
      this.hash := hash;
      initialized := false;
      slots := new int32[0];
      tableSize := 0;
      modBitmask := 0;
      dictValues := new int[0];
      dictSize := 0;
      pos := map[];
    }

    /** Init: an empty dictionary of capacity kInitialHashTableSize and a table of
        that many empty slots. */
    method Init()
      requires Valid() && !initialized
      modifies this
      ensures Valid() && initialized && Dict() == [] && tableSize == InitialTableSize
      ensures fresh(slots) && fresh(dictValues)
    {
      dictValues := new int[InitialTableSize];
      dictSize := 0;
      slots := NewHashTable(InitialTableSize);
      tableSize := InitialTableSize;
      modBitmask := InitialTableSize - 1;
      initialized := true;
      pos := map[];
      EmptyTable(slots[..], hash);
      InitialSizeIsPowerOfTwo();
    }

    /** DoubleTableSize: every code moves to a table twice the size (the probe
        wrapping at the new size) and the dictionary's capacity follows. */
    method DoubleTableSize()
      requires Sound() && initialized && dictSize < tableSize && 10 * dictSize <= 14 * tableSize
      requires tableSize < MaxTableSize
      modifies this
      ensures Valid() && initialized && tableSize == 2 * old(tableSize) && Dict() == old(Dict())
      ensures fresh(slots) && fresh(dictValues)
    {
      var newSize := tableSize * 2;
      var newSlots, newPos := Rehash(slots, dictValues, dictSize, hash, pos, newSize);
      DoubledIsPowerOfTwo(tableSize);
      slots := newSlots;
      pos := newPos;
      tableSize := newSize;
      modBitmask := newSize - 1;
      dictValues := Grow(dictValues, dictSize, newSize);
    }

    /** A new value gets the next code, in the empty slot `j` its probe stopped at. */
    method Store(v: int, j: nat) returns (slot: int32)
      requires Valid() && initialized && v !in Dict() && dictSize < MaxInt32
      requires j < slots.Length && slots[j] == SlotEmpty && Reachable(slots[..], Home(hash(v), slots.Length), j)
      modifies this, slots, dictValues
      ensures Sound() && initialized && slot as int == old(dictSize) && Dict() == old(Dict()) + [v]
      ensures slots == old(slots) && dictValues == old(dictValues) && tableSize == old(tableSize)
      ensures dictSize == old(dictSize) + 1 && dictSize < tableSize
    {
      ghost var d0 := Dict();
      slot := dictSize as int32;
      Place(slots[..], d0, d0 + [v], hash, pos, slot, j);
      slots[j] := slot;
      dictValues[dictSize] := v;
      dictSize := dictSize + 1;
      pos := pos[slot as int := j];
      assert Dict() == d0 + [v];
    }

    /** HASH_INNER_LOOP for a non-null value: a value found is observed with its
        code; a new one is refused (HashException) unless the action allows
        expansion, and otherwise gets the next code, the table doubling once the
        load passes 0.7. */
    method Insert(v: int) returns (o: Outcome)
      requires Valid() && initialized
      modifies this, slots, dictValues, observer
      ensures Valid() && initialized
      ensures (slots == old(slots) || fresh(slots)) && (dictValues == old(dictValues) || fresh(dictValues))
      ensures o.Pass? ==> Dict() == Uniq(old(Dict()), [Some(v)]) &&
                          observer.indices == old(observer.indices) + Observed(observer.action, old(Dict()), [Some(v)])
      ensures o.Fail? ==> Dict() == old(Dict()) && observer.indices == old(observer.indices) && v !in Dict() &&
                          o.error == Refusal(allowExpand) && (allowExpand ==> RehashBound <= |Dict()| + 1)
    {
      ghost var d0 := Dict();
      var j, found := HashTable.Lookup(slots, dictValues, dictSize, hash, pos, v);
      if found {
        Found(v, j);
        o := Pass;
      } else {
        assert [Some(v)][..0] == [] && Uniq(d0, [Some(v)]) == d0 + [v];
        o := AddNew(v, j);
        if o.Pass? {
          IndexOfDistinct(Dict(), |Dict()| - 1);
        }
      }
    }

    /** A value found at slot `j` is observed with its code. */
    method Found(v: int, j: nat)
      requires Valid() && initialized && j < slots.Length && 0 <= slots[j] as int < dictSize && dictValues[slots[j]] == v
      modifies observer
      ensures Uniq(Dict(), [Some(v)]) == Dict()
      ensures observer.indices == old(observer.indices) + Observed(observer.action, Dict(), [Some(v)])
    {
      var slot := slots[j];
      IndexOfDistinct(Dict(), slot as int);
      observer.ObserveSlot(slot);
    }

    /** A value absent from the dictionary, its probe having stopped at the empty
        slot `j`: refused unless the action allows expansion, else added with the
        next code and observed, the table doubling once the load passes 0.7. */
    method AddNew(v: int, j: nat) returns (o: Outcome)
      requires Valid() && initialized && v !in Dict()
      requires j < slots.Length && slots[j] == SlotEmpty && Reachable(slots[..], Home(hash(v), slots.Length), j)
      modifies this, slots, dictValues, observer
      ensures Valid() && initialized
      ensures (slots == old(slots) || fresh(slots)) && (dictValues == old(dictValues) || fresh(dictValues))
      ensures o.Pass? ==> Dict() == old(Dict()) + [v] &&
                          observer.indices == old(observer.indices) +
                            (if observer.action == DictEncodeAction then [Some(|old(Dict())|)] else [])
      ensures o.Fail? ==> Dict() == old(Dict()) && observer.indices == old(observer.indices) &&
                          o.error == Refusal(allowExpand) && (allowExpand ==> RehashBound <= |Dict()| + 1)
    {
      if !allowExpand {
        return Fail(Invalid("Encountered new dictionary value"));
      }
      if dictSize >= MaxInt32 {
        return Fail(Unchecked(IndexPastInt32));
      }
      if tableSize >= MaxTableSize && 10 * (dictSize + 1) > 7 * tableSize {
        // the value would be stored, and the rehash's int counter overflow
        return Fail(Unchecked(IndexPastInt32));
      }
      var slot := Store(v, j);
      observer.ObserveSlot(slot);
      if 10 * dictSize > 7 * tableSize {
        DoubleTableSize();
      }
      o := Pass;
    }

    /** Append: every element in turn, a null to ObserveNull, a value to the inner
        loop; a failure stops the pass with the elements before it observed. */
    method Append(arr: ArrayData) returns (o: Outcome)
      requires Valid() && WellFormed(arr)
      modifies this, slots, dictValues, observer
      ensures Valid() && initialized
      ensures (slots == old(slots) || fresh(slots)) && (dictValues == old(dictValues) || fresh(dictValues))
      ensures o.Fail? ==> Refused(allowExpand, o.error, old(Dict()), Elements(arr))
      ensures o.Pass? ==> Dict() == Uniq(old(Dict()), Elements(arr)) &&
                          observer.indices == old(observer.indices) + Observed(observer.action, old(Dict()), Elements(arr))
      ensures o.Fail? ==> exists k :: 0 <= k < arr.length && Elements(arr)[k].Some? &&
                            Elements(arr)[k].value !in Dict() &&
                            Dict() == Uniq(old(Dict()), Elements(arr)[..k]) &&
                            observer.indices == old(observer.indices) + Observed(observer.action, old(Dict()), Elements(arr)[..k])
    {
      ghost var d0, ix0 := Dict(), observer.indices;
      if !initialized {
        Init();
      }
      var i := 0;
      while i < arr.length
        invariant 0 <= i <= arr.length
        invariant Valid() && initialized
        invariant (slots == old(slots) || fresh(slots)) && (dictValues == old(dictValues) || fresh(dictValues))
        invariant Dict() == Uniq(d0, Elements(arr)[..i])
        invariant observer.indices == ix0 + Observed(observer.action, d0, Elements(arr)[..i])
      {
        o := AppendAt(arr, i, d0, ix0);
        if o.Fail? {
          assert Elements(arr)[..i + 1][..i] == Elements(arr)[..i];
          UniqGrows(d0, Elements(arr)[..i + 1], Elements(arr));
          return;
        }
        i := i + 1;
      }
      assert Elements(arr)[..i] == Elements(arr);
      o := Pass;
    }

    /** Append's step: element `i`, the elements before it observed. */
    method AppendAt(arr: ArrayData, i: nat, ghost d0: seq<int>, ghost ix0: seq<Option<int>>) returns (o: Outcome)
      requires Valid() && initialized && WellFormed(arr) && i < arr.length
      requires Dict() == Uniq(d0, Elements(arr)[..i]) && observer.indices == ix0 + Observed(observer.action, d0, Elements(arr)[..i])
      modifies this, slots, dictValues, observer
      ensures Valid() && initialized
      ensures (slots == old(slots) || fresh(slots)) && (dictValues == old(dictValues) || fresh(dictValues))
      ensures o.Pass? ==> Dict() == Uniq(d0, Elements(arr)[..i + 1]) &&
                          observer.indices == ix0 + Observed(observer.action, d0, Elements(arr)[..i + 1])
      ensures o.Fail? ==> Elements(arr)[i].Some? && Elements(arr)[i].value !in Dict() &&
                          Dict() == old(Dict()) && observer.indices == old(observer.indices)
      ensures o.Fail? ==> o.error == Refusal(allowExpand) && (allowExpand ==> RehashBound <= |Dict()| + 1)
    {
      ObserveNext(observer.action, d0, Elements(arr), i);
      if IsNull(arr, i) {
        assert Elements(arr)[i] == None;
        observer.ObserveNull();
        NullStep(observer.action, Dict());
        o := Pass;
      } else {
        assert Elements(arr)[i] == Some(arr.values[i]);
        o := Insert(arr.values[i]);
      }
    }

    /** GetDictionary: the dictionary's values in code order.  Before the first
        Append the dictionary's buffer was never allocated, and the source
        dereferences its null pointer. */
    method GetDictionary() returns (r: Result<seq<int>>)
      requires dictSize <= dictValues.Length
      ensures initialized ==> r == Success(Dict())
      ensures !initialized ==> r == Failure(Unchecked(NoDictionaryBuffer))
    {
      if !initialized {
        return Failure(Unchecked(NoDictionaryBuffer));
      }
      r := Success(dictValues[..dictSize]);
    }
  }

  /** HashTableKernel for the null type: no table, every element observed as null,
      and an empty dictionary. */
  class NullHashKernel {
    const observer: Observer

    constructor(observer: Observer)
      ensures this.observer == observer
    {
      this.observer := observer;
    }

    method Append(arr: ArrayData) returns (o: Outcome)
      modifies observer
      ensures o == Pass && observer.indices == old(observer.indices) + Observed(observer.action, [], Nulls(arr.length))
    {
      ghost var ix0 := observer.indices;
      var i := 0;
      while i < arr.length
        invariant 0 <= i <= arr.length
        invariant observer.indices == ix0 + Observed(observer.action, [], Nulls(i))
      {
        NullsObserved([], i);
        NullsObserved([], 1);
        assert Nulls(i + 1) == Nulls(i) + Nulls(1);
        ObservedConcat(observer.action, [], Nulls(i), Nulls(1));
        observer.ObserveNull();
        i := i + 1;
      }
      o := Pass;
    }

    method GetDictionary() returns (r: Result<seq<int>>)
      ensures r == Success([])
    {
      r := Success([]);
    }
  }
}
