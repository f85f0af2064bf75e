/** The memo table that interns values into dense codes
    (ScalarMemoTable / BinaryMemoTable, arrow/util/hashing.h, which is not part of
    this model).  Abstractly a memo table is the sequence of its distinct values in
    insertion order: the code of a value is its position.  The hash kernel's open
    addressing table (module HashTable) is proved to evolve exactly like this. */
module Memo {

  ghost predicate Distinct<T>(s: seq<T>)
  {
    forall i, j :: 0 <= i < j < |s| ==> s[i] != s[j]
  }

  /** Position of the first occurrence of `v`. */
  function IndexOf<T(==)>(s: seq<T>, v: T): (i: nat)
    requires v in s
    ensures i < |s| && s[i] == v
    ensures forall k :: 0 <= k < i ==> s[k] != v
  {
    if s[0] == v then 0 else 1 + IndexOf(s[1..], v)
  }

  lemma IndexOfDistinct<T>(s: seq<T>, k: nat)
    requires Distinct(s) && k < |s|
    ensures IndexOf(s, s[k]) == k
  {
  }

  /** GetOrInsert: the code of a value already present, else the next code,
      with the value appended. */
  function GetOrInsert<T(==)>(memo: seq<T>, v: T): (r: (seq<T>, nat))
    ensures r.1 < |r.0| && r.0[r.1] == v
    ensures memo <= r.0
    ensures v in memo ==> r.0 == memo
    ensures v !in memo ==> r.0 == memo + [v] && r.1 == |memo|
  {
    if v in memo then (memo, IndexOf(memo, v)) else (memo + [v], |memo|)
  }

  /** Interning a whole stream of values: the final table and the code of each value. */
  function InternAll<T(==)>(memo: seq<T>, vs: seq<T>): (r: (seq<T>, seq<nat>))
    ensures |r.1| == |vs|
    ensures memo <= r.0
    ensures forall i :: 0 <= i < |vs| ==> r.1[i] < |r.0| && r.0[r.1[i]] == vs[i]
    decreases |vs|
  {
    if vs == [] then (memo, [])
    else
      var prev := InternAll(memo, vs[..|vs| - 1]);
      var step := GetOrInsert(prev.0, vs[|vs| - 1]);
      (step.0, prev.1 + [step.1])
  }

  /** Interning one more value is one more GetOrInsert. */
  lemma InternAllSnoc<T>(memo: seq<T>, vs: seq<T>, v: T)
    ensures InternAll(memo, vs + [v]) ==
            (GetOrInsert(InternAll(memo, vs).0, v).0,
             InternAll(memo, vs).1 + [GetOrInsert(InternAll(memo, vs).0, v).1])
  {
    assert (vs + [v])[..|vs + [v]| - 1] == vs;
  }

  /** The memo table only ever holds distinct values. */
  lemma {:induction false} InternAllDistinct<T>(memo: seq<T>, vs: seq<T>)
    requires Distinct(memo)
    ensures Distinct(InternAll(memo, vs).0)
    decreases |vs|
  {
    if vs != [] {
      InternAllDistinct(memo, vs[..|vs| - 1]);
    }
  }

  /** The table holds exactly the values seen, and nothing else. */
  lemma {:induction false} InternAllContents<T>(memo: seq<T>, vs: seq<T>)
    ensures forall x :: x in InternAll(memo, vs).0 <==> x in memo || x in vs
    decreases |vs|
  {
    if vs != [] {
      var pre := vs[..|vs| - 1];
      InternAllContents(memo, pre);
      assert vs == pre + [vs[|vs| - 1]];
    }
  }

  /** Codes are dense: every code the stream added is the code of some value of it,
      and a stream can add at most one code per value. */
  lemma {:induction false} InternAllDense<T>(memo: seq<T>, vs: seq<T>)
    ensures |InternAll(memo, vs).0| <= |memo| + |vs|
    ensures forall k :: |memo| <= k < |InternAll(memo, vs).0| ==> k in InternAll(memo, vs).1
    decreases |vs|
  {
    if vs != [] {
      var pre := vs[..|vs| - 1];
      InternAllDense(memo, pre);
      var r, p := InternAll(memo, vs), InternAll(memo, pre);
      assert r.1 == p.1 + [r.1[|vs| - 1]];
    }
  }

  /** A value already in the table keeps the code it had: codes are stable. */
  lemma {:induction false} InternAllStable<T>(memo: seq<T>, vs: seq<T>, i: nat)
    requires Distinct(memo) && i < |vs| && vs[i] in memo
    ensures InternAll(memo, vs).1[i] == IndexOf(memo, vs[i])
  {
    var r := InternAll(memo, vs);
    InternAllDistinct(memo, vs);
    var k := IndexOf(memo, vs[i]);
    assert r.0[k] == vs[i] && r.0[r.1[i]] == vs[i];
  }

  /** Interning two streams one after the other is interning their concatenation:
      chunks fed to one table share its codes. */
  lemma {:induction false} InternAllAppend<T>(memo: seq<T>, xs: seq<T>, ys: seq<T>)
    ensures InternAll(memo, xs + ys) ==
            (InternAll(InternAll(memo, xs).0, ys).0,
             InternAll(memo, xs).1 + InternAll(InternAll(memo, xs).0, ys).1)
    decreases |ys|
  {
    if ys == [] {
      assert xs + ys == xs;
      var m1 := InternAll(memo, xs);
      assert InternAll(m1.0, ys) == (m1.0, []);
      assert m1.1 + [] == m1.1;
    } else {
      var ys' := ys[..|ys| - 1];
      InternAllAppend(memo, xs, ys');
      assert (xs + ys)[..|xs + ys| - 1] == xs + ys';
      assert (xs + ys)[|xs + ys| - 1] == ys[|ys| - 1];
      var m1 := InternAll(memo, xs);
      var left := InternAll(m1.0, ys');
      var step := GetOrInsert(left.0, ys[|ys| - 1]);
      assert InternAll(m1.0, ys) == (step.0, left.1 + [step.1]);
      assert InternAll(memo, xs + ys) == (step.0, (m1.1 + left.1) + [step.1]);
      assert (m1.1 + left.1) + [step.1] == m1.1 + (left.1 + [step.1]);
    }
  }

  /** Position of the first occurrence of `v` in a stream. */
  function FirstIndex<T(==)>(s: seq<T>, v: T): (i: nat)
    requires v in s
    ensures i < |s| && s[i] == v && v !in s[..i]
  {
    var i := IndexOf(s, v);
    assert forall k :: 0 <= k < i ==> s[..i][k] == s[k];
    i
  }

  /** New entries are appended in the order in which the stream first shows them. */
  lemma {:induction false} InternAllFirstSeenOrder<T>(memo: seq<T>, vs: seq<T>)
    requires Distinct(memo)
    ensures forall a, b :: |memo| <= a < b < |InternAll(memo, vs).0| ==>
              InternAll(memo, vs).0[a] in vs && InternAll(memo, vs).0[b] in vs &&
              FirstIndex(vs, InternAll(memo, vs).0[a]) < FirstIndex(vs, InternAll(memo, vs).0[b])
    decreases |vs|
  {
    if vs != [] {
      var n := |vs| - 1;
      var pre := vs[..n];
      var p, r := InternAll(memo, pre), InternAll(memo, vs);
      InternAllFirstSeenOrder(memo, pre);
      InternAllContents(memo, pre);
      InternAllDistinct(memo, pre);
      forall a, b | |memo| <= a < b < |r.0|
        ensures r.0[a] in vs && r.0[b] in vs && FirstIndex(vs, r.0[a]) < FirstIndex(vs, r.0[b])
      {
        assert r.0[a] == p.0[a];
        NewEntryFromStream(memo, pre, a);
        FirstIndexPrefix(vs, n, r.0[a]);
        if b < |p.0| {
          assert r.0[b] == p.0[b];
          NewEntryFromStream(memo, pre, b);
          FirstIndexPrefix(vs, n, r.0[b]);
        } else {
          assert r.0[b] == vs[n] && vs[n] !in p.0;
          assert vs[n] !in pre;
          assert vs[..n] == pre;
          assert FirstIndex(vs, vs[n]) == n;
        }
      }
    } else {
      assert InternAll(memo, vs).0 == memo;
    }
  }

  lemma NewEntryFromStream<T>(memo: seq<T>, vs: seq<T>, a: nat)
    requires Distinct(memo) && |memo| <= a < |InternAll(memo, vs).0|
    ensures InternAll(memo, vs).0[a] !in memo && InternAll(memo, vs).0[a] in vs
  {
    var p := InternAll(memo, vs);
    InternAllContents(memo, vs);
    InternAllDistinct(memo, vs);
    assert forall k :: 0 <= k < |memo| ==> memo[k] == p.0[k] != p.0[a];
    assert p.0[a] in p.0;
  }

  lemma FirstIndexPrefix<T>(vs: seq<T>, n: nat, v: T)
    requires n <= |vs| && v in vs[..n]
    ensures FirstIndex(vs, v) == FirstIndex(vs[..n], v) < n
  {
    var i, j := FirstIndex(vs, v), FirstIndex(vs[..n], v);
    assert vs[..n][..j] == vs[..j];
  }

  /** Expanding codes through the table: the inverse of interning. */
  function Lookup<T>(memo: seq<T>, codes: seq<nat>): (vs: seq<T>)
    requires forall i :: 0 <= i < |codes| ==> codes[i] < |memo|
    ensures |vs| == |codes|
    ensures forall i :: 0 <= i < |codes| ==> vs[i] == memo[codes[i]]
  {
    seq(|codes|, i requires 0 <= i < |codes| => memo[codes[i]])
  }

  /** Looking the codes up in the final table gives back the stream. */
  lemma InternAllRoundTrip<T>(memo: seq<T>, vs: seq<T>)
    ensures Lookup(InternAll(memo, vs).0, InternAll(memo, vs).1) == vs
  {
  }
}
