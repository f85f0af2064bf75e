/** The IPC dictionary memo: it assigns ids to dictionary-encoded fields and keeps,
    per id, the field and the current dictionary of an IPC stream.  Only its
    declared contract is modelled: fields are compared by identity (the memo keys
    them by address), ids are int64 values, and a dictionary is any value. */
module IpcDictionary {
  import opened Common

  const MinInt64: int := -0x8000_0000_0000_0000
  const MaxInt64: int := 0x7fff_ffff_ffff_ffff

  /** A value of C++ type int64_t: a dictionary id. */
  type int64 = x: int | MinInt64 <= x <= MaxInt64

  /** The value stored under `k`, or KeyError when there is none. */
  function Find<K, V>(m: map<K, V>, k: K): (r: Result<V>)
    ensures r.Success? <==> k in m
    ensures r.Success? ==> r.value == m[k]
    ensures r.Failure? ==> r.error == KeyError
  {
    if k in m then Success(m[k]) else Failure(KeyError)
  }

  /** DictionaryMemo over fields of type F (equality is identity) and dictionary
      arrays of type A. */
  class DictionaryMemo<F(==), A> {
    /** field_to_id_: the id assigned to each field seen so far. */
    var fieldToId: map<F, int64>
    /** id_to_dictionary_: the current dictionary of each id. */
    var idToDictionary: map<int64, A>
    /** id_to_field_: the field recorded for each id. */
    var idToField: map<int64, F>

    /** An empty memo. */
    constructor()
      ensures fieldToId == map[] && idToDictionary == map[] && idToField == map[]
    {
      fieldToId := map[];
      idToDictionary := map[];
      idToField := map[];
    }

    /** GetField: the field of `id`, or KeyError if `id` has none. */
    function GetField(id: int64): (r: Result<F>)
      reads this
      ensures r.Success? <==> id in idToField
      ensures r.Success? ==> r.value == idToField[id]
      ensures r.Failure? ==> r.error == KeyError
    {
      Find(idToField, id)
    }

    /** GetDictionary: the current dictionary of `id`, or KeyError if `id` has none. */
    function GetDictionary(id: int64): (r: Result<A>)
      reads this
      ensures r.Success? <==> id in idToDictionary
      ensures r.Success? ==> r.value == idToDictionary[id]
      ensures r.Failure? ==> r.error == KeyError
    {
      Find(idToDictionary, id)
    }

    /** GetId: the id assigned to `field`, or KeyError if none was. */
    function GetId(field: F): (r: Result<int64>)
      reads this
      ensures r.Success? <==> field in fieldToId
      ensures r.Success? ==> r.value == fieldToId[field]
      ensures r.Failure? ==> r.error == KeyError
    {
      Find(fieldToId, field)
    }

    /** HasDictionaryId: whether a dictionary is stored under `id`. */
    predicate HasDictionaryId(id: int64)
      reads this
    {
      id in idToDictionary
    }

    /** size(): the number of dictionaries stored. */
    function Size(): (n: nat)
      reads this
      ensures n == 0 <==> idToDictionary == map[]
    {
      |idToDictionary.Keys|
    }

    /** GetOrAssignId: the id of a field seen before; otherwise `newId`, the id the
        memo computes, which no field holds yet, is assigned to it. */
    method GetOrAssignId(field: F, newId: int64) returns (id: int64)
      requires field !in fieldToId ==> newId !in fieldToId.Values
      modifies this
      ensures old(GetId(field)).Success? ==> id == old(fieldToId[field]) && fieldToId == old(fieldToId)
      ensures old(GetId(field)).Failure? ==> id == newId && fieldToId == old(fieldToId)[field := newId]
      ensures GetId(field) == Success(id)
      ensures idToDictionary == old(idToDictionary)
    {
      if field in fieldToId {
        id := fieldToId[field];
      } else {
        id := newId;
        fieldToId := fieldToId[field := newId];
      }
    }

    /** AddField: records `field` under `id`, or KeyError if `id` already has a field;
        no other id changes. */
    method AddField(id: int64, field: F) returns (o: Outcome)
      modifies this
      ensures o.Fail? <==> old(GetField(id)).Success?
      ensures o.Fail? ==> o.error == KeyError && idToField == old(idToField)
      ensures o.Pass? ==> idToField == old(idToField)[id := field] && GetField(id) == Success(field)
      ensures forall other :: other != id ==> GetField(other) == old(GetField(other))
      ensures idToDictionary == old(idToDictionary)
    {
      if id in idToField {
        return Fail(KeyError);
      }
      idToField := idToField[id := field];
      o := Pass;
    }

    /** AddDictionary: stores `dictionary` under `id`, or KeyError if `id` already
        has one; on success size() grows by one. */
    method AddDictionary(id: int64, dictionary: A) returns (o: Outcome)
      modifies this
      ensures o.Fail? <==> old(HasDictionaryId(id))
      ensures o.Fail? ==> o.error == KeyError && idToDictionary == old(idToDictionary)
      ensures o.Pass? ==> idToDictionary == old(idToDictionary)[id := dictionary] &&
                          GetDictionary(id) == Success(dictionary) && Size() == old(Size()) + 1
      ensures forall other :: other != id ==> GetDictionary(other) == old(GetDictionary(other))
      ensures fieldToId == old(fieldToId) && idToField == old(idToField)
    {
      if id in idToDictionary {
        return Fail(KeyError);
      }
      AddedKey(idToDictionary, id, dictionary);
      idToDictionary := idToDictionary[id := dictionary];
      o := Pass;
    }
  }

  /** A key added to a map that lacks it makes one more key. */
  lemma AddedKey<K, V>(m: map<K, V>, k: K, v: V)
    requires k !in m
    ensures |m[k := v].Keys| == |m.Keys| + 1
  {
    assert m[k := v].Keys == m.Keys + {k};
  }

  /** HasDictionaryId is true exactly when GetDictionary finds a dictionary. */
  lemma HasDictionaryIdIsLookup<F, A>(memo: DictionaryMemo<F, A>, id: int64)
    ensures memo.HasDictionaryId(id) <==> memo.GetDictionary(id).Success?
  {
  }
}
