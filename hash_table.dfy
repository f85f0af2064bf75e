/** The open-addressing table behind the hash kernels (arrow/compute/kernels/hash.cc):
    a power-of-two array of int32 slots, each empty (kHashSlotEmpty = INT32_MAX) or
    holding a code, the index of a value in a dense dictionary.  A value is looked
    up by linear probing with wrap-around from its home slot, the hash masked by
    size - 1. */
module HashTable {
  import opened Common
  import opened Memo

  /** kInitialHashTableSize = 1 << 10. */
  const InitialTableSize: nat := 1024
  /** kHashSlotEmpty. */
  const SlotEmpty: int32 := MaxInt32

  /** A table size the mask can stand in for the remainder with. */
  ghost predicate PowerOfTwo(n: nat)
  {
    exists k: nat :: n == Pow2(k)
  }

  lemma InitialSizeIsPowerOfTwo()
    ensures PowerOfTwo(InitialTableSize)
  {
    assert InitialTableSize == Pow2(10);
  }

  lemma DoubledIsPowerOfTwo(n: nat)
    requires PowerOfTwo(n)
    ensures PowerOfTwo(2 * n)
  {
    var k: nat :| n == Pow2(k);
    assert 2 * n == Pow2(k + 1);
  }

  /** The home slot of a hash: HashValue(v) & mod_bitmask_, which for a power-of-two
      size n is the hash modulo n. */
  function Home(h: int, n: nat): (p: nat)
    requires n > 0
    ensures p < n
  {
    h % n
  }

  /** The slot `k` steps after `home`, wrapping to 0 at the end of the table. */
  function Probe(home: nat, k: nat, n: nat): (p: nat)
    requires home < n && k < n
    ensures p < n
  {
    if home + k < n then home + k else home + k - n
  }

  /** The number of steps from `home` to `p`. */
  function Dist(home: nat, p: nat, n: nat): (d: nat)
    requires home < n && p < n
    ensures d < n && Probe(home, d, n) == p
  {
    if p >= home then p - home else p + n - home
  }

  /** `++j; if (j == size) j = 0;` */
  function NextSlot(j: nat, n: nat): (next: nat)
    requires j < n
    ensures next < n
  {
    if j + 1 == n then 0 else j + 1
  }

  lemma ProbeStep(home: nat, k: nat, n: nat)
    requires home < n && k + 1 < n
    ensures Probe(home, k + 1, n) == NextSlot(Probe(home, k, n), n)
  {
  }

  /** No empty slot lies on the probe path from `home` to `p`. */
  ghost predicate Reachable(s: seq<int32>, home: nat, p: nat)
    requires home < |s| && p < |s|
  {
    forall k :: 0 <= k < Dist(home, p, |s|) ==> s[Probe(home, k, |s|)] != SlotEmpty
  }

  /** Code `c` of value dict[c] sits in slot `p`, reachable from the value's home. */
  ghost predicate Sits(s: seq<int32>, dict: seq<int>, hash: int -> int, c: int, p: nat)
  {
    0 <= c < |dict| && p < |s| && s[p] as int == c && Reachable(s, Home(hash(dict[c]), |s|), p)
  }

  /** The slots `s` hold the codes in `pos`, code c at slot pos[c]; every non-empty
      slot holds one of these codes, so each of them sits in exactly one slot. */
  ghost predicate TableOn(s: seq<int32>, dict: seq<int>, hash: int -> int, pos: map<int, nat>)
  {
    |s| > 0 && |dict| <= MaxInt32 &&
    (forall c :: c in pos ==> Sits(s, dict, hash, c, pos[c])) &&
    (forall p :: 0 <= p < |s| && s[p] != SlotEmpty ==> s[p] as int in pos && pos[s[p] as int] == p)
  }

  /** The slots hold every code of the dictionary. */
  ghost predicate Table(s: seq<int32>, dict: seq<int>, hash: int -> int, pos: map<int, nat>)
  {
    TableOn(s, dict, hash, pos) && forall c :: 0 <= c < |dict| ==> c in pos
  }

  /** Every code the table holds sits in exactly one slot. */
  lemma ExactlyOnce(s: seq<int32>, dict: seq<int>, hash: int -> int, pos: map<int, nat>, p: nat, q: nat)
    requires TableOn(s, dict, hash, pos) && p < |s| && q < |s| && s[p] != SlotEmpty && s[p] == s[q]
    ensures p == q
  {
  }

  lemma {:induction false} FullRange(a: set<nat>, n: nat)
    requires forall x :: 0 <= x < n ==> x in a
    ensures |a| >= n
  {
    if n > 0 {
      FullRange(a - {n - 1}, n - 1);
    }
  }

  lemma {:induction false} BoundedCard(a: set<int>, n: nat)
    requires forall x :: x in a ==> 0 <= x < n
    ensures |a| <= n
  {
    if n == 0 {
      assert forall x :: x !in a;
    } else {
      BoundedCard(a - {n - 1}, n - 1);
    }
  }

  /** A table of a dictionary smaller than the table has an empty slot: what makes
      every probe loop stop. */
  lemma FreeSlot(s: seq<int32>, dict: seq<int>, hash: int -> int, pos: map<int, nat>)
    requires TableOn(s, dict, hash, pos) && |dict| < |s|
    ensures exists e :: 0 <= e < |s| && s[e] == SlotEmpty
  {
    BoundedCard(pos.Keys, |dict|);
    if forall e :: 0 <= e < |s| ==> s[e] != SlotEmpty {
      forall x | 0 <= x < |s| ensures x in pos.Values {
        assert pos[s[x] as int] == x;
      }
      FullRange(pos.Values, |s|);
    }
  }

  /** A probe that stops at an empty slot, having passed only slots whose values
      differ from `v`, proves `v` is not in the dictionary. */
  lemma Miss(s: seq<int32>, dict: seq<int>, hash: int -> int, pos: map<int, nat>, v: int, steps: nat)
    requires Table(s, dict, hash, pos)
    requires steps < |s| && s[Probe(Home(hash(v), |s|), steps, |s|)] == SlotEmpty
    requires forall k :: 0 <= k < steps ==>
               var q := s[Probe(Home(hash(v), |s|), k, |s|)]; q != SlotEmpty && 0 <= q < |dict| && dict[q] != v
    ensures forall c :: 0 <= c < |dict| ==> dict[c] != v
  {
    var n, home := |s|, Home(hash(v), |s|);
    forall c | 0 <= c < |dict| ensures dict[c] != v {
      var p := pos[c];
      assert Sits(s, dict, hash, c, p);
      var homeC := Home(hash(dict[c]), n);
      var d := Dist(homeC, p, n);
      assert Probe(homeC, d, n) == p;
      if steps < d {
        assert s[Probe(homeC, steps, n)] != SlotEmpty;
      }
    }
  }

  /** Filling an empty slot other than `p` keeps code `c` where it sits, also for a
      dictionary extending `dict`. */
  lemma StillSits(s: seq<int32>, dict: seq<int>, dict1: seq<int>, hash: int -> int, c: int, p: nat, j: nat, x: int32)
    requires Sits(s, dict, hash, c, p) && j < |s| && s[j] == SlotEmpty
    requires |dict| <= |dict1| <= MaxInt32 && dict1[..|dict|] == dict
    ensures Sits(s[j := x], dict1, hash, c, p)
  {
    var home := Home(hash(dict[c]), |s|);
    assert dict1[c] == dict[c];
    forall k | 0 <= k < Dist(home, p, |s|) ensures s[j := x][Probe(home, k, |s|)] != SlotEmpty {
      assert s[Probe(home, k, |s|)] != SlotEmpty;
    }
  }

  /** Putting code `c` of dict1[c] into an empty slot reachable from the value's home
      keeps the table, for a dictionary `dict1` extending `dict`. */
  lemma Place(s: seq<int32>, dict: seq<int>, dict1: seq<int>, hash: int -> int, pos: map<int, nat>, c: int32, j: nat)
    requires TableOn(s, dict, hash, pos) && |dict| <= |dict1| <= MaxInt32 && dict1[..|dict|] == dict
    requires 0 <= c < |dict1| && c as int !in pos
    requires j < |s| && s[j] == SlotEmpty && Reachable(s, Home(hash(dict1[c]), |s|), j)
    ensures TableOn(s[j := c], dict1, hash, pos[c as int := j])
  {
    var s1, pos1 := s[j := c], pos[c as int := j];
    forall x | x in pos1 ensures Sits(s1, dict1, hash, x, pos1[x]) {
      if x == c as int {
        var home := Home(hash(dict1[c]), |s|);
        forall k | 0 <= k < Dist(home, j, |s|) ensures s1[Probe(home, k, |s|)] != SlotEmpty {
          assert s[Probe(home, k, |s|)] != SlotEmpty;
        }
      } else {
        StillSits(s, dict, dict1, hash, x, pos[x], j, c);
      }
    }
    forall p | 0 <= p < |s1| && s1[p] != SlotEmpty ensures s1[p] as int in pos1 && pos1[s1[p] as int] == p {
      if p != j {
        assert s[p] as int in pos;
      }
    }
  }

  /** Looking `v` up: the probe loop of HASH_INNER_LOOP.  It stops at the slot
      holding v's code, or at the empty slot where v's code would go, v then being
      absent. */
  method Lookup(slots: array<int32>, values: array<int>, size: nat, hash: int -> int, ghost pos: map<int, nat>, v: int)
      returns (j: nat, found: bool)
    requires size <= values.Length && size < slots.Length
    requires Table(slots[..], values[..size], hash, pos)
    ensures j < slots.Length
    ensures found ==> 0 <= slots[j] as int < size && values[slots[j]] == v
    ensures !found ==> slots[j] == SlotEmpty && Reachable(slots[..], Home(hash(v), slots.Length), j) &&
                       forall c :: 0 <= c < size ==> values[c] != v
  {
    ghost var s := slots[..];
    ghost var dict := values[..size];
    ghost var n := slots.Length;
    FreeSlot(s, dict, hash, pos);
    ghost var e :| 0 <= e < n && s[e] == SlotEmpty;
    var home := Home(hash(v), slots.Length);
    j := home;
    ghost var steps := 0;
    var slot := slots[j];
    while slot != SlotEmpty && values[slot] != v
      invariant steps <= Dist(home, e, n) && j == Probe(home, steps, n) && slot == s[j]
      invariant forall k :: 0 <= k < steps ==>
                  var q := s[Probe(home, k, n)]; q != SlotEmpty && 0 <= q < size && dict[q] != v
      decreases Dist(home, e, n) - steps
    {
      assert s[j] as int in pos && Sits(s, dict, hash, slot as int, j);
      ProbeStep(home, steps, n);
      j := j + 1;
      if j == slots.Length {
        j := 0;
      }
      steps := steps + 1;
      slot := slots[j];
    }
    found := slot != SlotEmpty;
    if found {
      assert s[j] as int in pos && Sits(s, dict, hash, slot as int, j);
    } else {
      Miss(s, dict, hash, pos, v, steps);
      forall c | 0 <= c < size ensures values[c] != v {
        assert dict[c] != v;
      }
    }
  }

  /** NewHashTable(size): `size` empty slots. */
  method NewHashTable(size: nat) returns (slots: array<int32>)
    ensures fresh(slots) && slots.Length == size
    ensures forall p :: 0 <= p < size ==> slots[p] == SlotEmpty
  {
    slots := new int32[size](_ => SlotEmpty);
  }

  /** An empty table holds the empty dictionary. */
  lemma EmptyTable(s: seq<int32>, hash: int -> int)
    requires |s| > 0 && forall p :: 0 <= p < |s| ==> s[p] == SlotEmpty
    ensures Table(s, [], hash, map[])
  {
  }

  /** The codes the old slots before `i` hold. */
  ghost function CodesBefore(s: seq<int32>, i: nat): set<int>
    requires i <= |s|
  {
    set p | 0 <= p < i && s[p] != SlotEmpty :: s[p] as int
  }

  /** The inner loop of the rehash: the first empty slot from v's home. */
  method FirstFree(slots: array<int32>, hash: int -> int, ghost pos: map<int, nat>, ghost dict: seq<int>, v: int)
      returns (j: nat)
    requires TableOn(slots[..], dict, hash, pos) && |dict| < slots.Length
    ensures j < slots.Length && slots[j] == SlotEmpty && Reachable(slots[..], Home(hash(v), slots.Length), j)
  {
    ghost var s := slots[..];
    ghost var n := slots.Length;
    FreeSlot(s, dict, hash, pos);
    ghost var e :| 0 <= e < n && s[e] == SlotEmpty;
    var home := Home(hash(v), slots.Length);
    j := home;
    ghost var steps := 0;
    while slots[j] != SlotEmpty
      invariant steps <= Dist(home, e, n) && j == Probe(home, steps, n)
      invariant forall k :: 0 <= k < steps ==> s[Probe(home, k, n)] != SlotEmpty
      decreases Dist(home, e, n) - steps
    {
      ProbeStep(home, steps, n);
      j := j + 1;
      if j == slots.Length {
        j := 0;
      }
      steps := steps + 1;
    }
  }

  /** The rehash probe step as DoubleTableSize writes it: the table size it wraps
      at is still the old one while the new table of twice the slots is filled. */
  function RehashNextAsWritten(j: nat, oldSize: nat): (next: nat)
  {
    if j + 1 == oldSize then 0 else j + 1
  }

  /** Wrapping at the old size is not the probe of the new table: from the last
      slot of the old range it jumps back to 0, skipping the upper half that a
      lookup probes next, and from the last slot of the new table it steps past
      the end of the new table. */
  lemma RehashWrapAsWritten(oldSize: nat)
    requires oldSize > 0
    ensures RehashNextAsWritten(oldSize - 1, oldSize) == 0
    ensures NextSlot(oldSize - 1, 2 * oldSize) == oldSize
    ensures RehashNextAsWritten(2 * oldSize - 1, oldSize) == 2 * oldSize
  {
  }

  /** A later lookup then misses.  A table of 2 slots grows to 4; both values of
      the dictionary [10, 20] have home slot 1.  Code 0 takes slot 1, and the
      as-written probe puts code 1 in slot 0.  A lookup of 20 passes slot 1, whose
      value differs, and stops at the empty slot 2, so it reports 20 absent: code 1
      does not sit where the table invariant wants it. */
  lemma RehashWrapLosesValue()
    ensures var s: seq<int32>, dict, hash := [1, 0, SlotEmpty, SlotEmpty], [10, 20], (x: int) => 1;
            RehashNextAsWritten(Home(hash(20), 4), 2) == 0 && s[0] == 1 &&
            s[Home(hash(20), 4)] == 0 && dict[0] != 20 && s[NextSlot(Home(hash(20), 4), 4)] == SlotEmpty &&
            !Sits(s, dict, hash, 1, 0)
  {
    var s: seq<int32> := [1, 0, SlotEmpty, SlotEmpty];
    assert s[Probe(1, 1, 4)] == SlotEmpty;
  }

  /** The rehash loop of DoubleTableSize, with the probe wrapping at the new size:
      every code of the old table goes once into a new table of `newSize` slots,
      which then holds the whole dictionary again. */
  method Rehash(slots: array<int32>, values: array<int>, size: nat, hash: int -> int, ghost pos: map<int, nat>,
                newSize: nat)
      returns (newSlots: array<int32>, ghost newPos: map<int, nat>)
    requires size <= values.Length && size < slots.Length && newSize == 2 * slots.Length
    requires Table(slots[..], values[..size], hash, pos)
    ensures fresh(newSlots) && newSlots.Length == newSize
    ensures Table(newSlots[..], values[..size], hash, newPos)
  {
    ghost var s := slots[..];
    ghost var dict := values[..size];
    newSlots := NewHashTable(newSize);
    newPos := map[];
    var i := 0;
    while i < slots.Length
      invariant 0 <= i <= slots.Length && newSlots.Length == newSize
      invariant TableOn(newSlots[..], dict, hash, newPos) && newPos.Keys == CodesBefore(s, i)
    {
      newPos := RehashSlot(slots, values, size, hash, pos, newSlots, newPos, i);
      i := i + 1;
    }
    forall c | 0 <= c < size ensures c in newPos {
      assert Sits(s, dict, hash, c, pos[c]);
      assert c in CodesBefore(s, slots.Length);
    }
  }

  /** One step of the rehash: old slot `i` moves to the new table. */
  method RehashSlot(slots: array<int32>, values: array<int>, size: nat, hash: int -> int, ghost pos: map<int, nat>,
                    newSlots: array<int32>, ghost newPos: map<int, nat>, i: nat)
      returns (ghost newPos1: map<int, nat>)
    requires size <= values.Length && size < slots.Length && i < slots.Length && newSlots.Length > slots.Length
    requires newSlots != slots && Table(slots[..], values[..size], hash, pos)
    requires TableOn(newSlots[..], values[..size], hash, newPos) && newPos.Keys == CodesBefore(slots[..], i)
    modifies newSlots
    ensures TableOn(newSlots[..], values[..size], hash, newPos1) && newPos1.Keys == CodesBefore(slots[..], i + 1)
  {
    ghost var s := slots[..];
    ghost var dict := values[..size];
    var index := slots[i];
    if index == SlotEmpty {
      newPos1 := newPos;
      assert CodesBefore(s, i + 1) == CodesBefore(s, i);
      return;
    }
    assert index as int in pos && Sits(s, dict, hash, index as int, i);
    forall p | 0 <= p < i && s[p] != SlotEmpty ensures s[p] != index {
    }
    assert index as int !in newPos;
    var value := values[index];
    var j := FirstFree(newSlots, hash, newPos, dict, value);
    Place(newSlots[..], dict, dict, hash, newPos, index, j);
    newSlots[j] := index;
    newPos1 := newPos[index as int := j];
    assert CodesBefore(s, i + 1) == CodesBefore(s, i) + {index as int};
  }
}
