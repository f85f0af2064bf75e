/** What the hash kernels compute, stated without the table: the dictionary of
    distinct non-null values in order of first appearance, and the code of each
    input element in that dictionary. */
module HashSpec {
  import opened Common
  import opened HashTable
  import opened Memo

  /** The two hash actions: unique (UniqueImpl) and dictionary-encode (DictEncodeImpl). */
  datatype Action = UniqueAction | DictEncodeAction

  /** The dictionary after observing `xs` (None for a null), starting from `dict`:
      every non-null value not yet present is appended. */
  function Uniq(dict: seq<int>, xs: seq<Option<int>>): (u: seq<int>)
    ensures |dict| <= |u| && u[..|dict|] == dict
    decreases |xs|
  {
    if xs == [] then dict
    else
      var d := Uniq(dict, xs[..|xs| - 1]);
      match xs[|xs| - 1]
      case None => d
      case Some(x) => if x in d then d else d + [x]
  }

  /** The non-null values of `xs`, in order. */
  function NonNull(xs: seq<Option<int>>): (vs: seq<int>)
    ensures |vs| <= |xs|
    decreases |xs|
  {
    if xs == [] then []
    else
      var init := NonNull(xs[..|xs| - 1]);
      match xs[|xs| - 1]
      case None => init
      case Some(x) => init + [x]
  }

  /** The kernels' dictionary is the memo table of their non-null values: Uniq
      interns them as the dictionary memo does, code by code. */
  lemma {:induction false} UniqIsIntern(dict: seq<int>, xs: seq<Option<int>>)
    ensures Uniq(dict, xs) == InternAll(dict, NonNull(xs)).0
    decreases |xs|
  {
    if xs != [] {
      var init := xs[..|xs| - 1];
      UniqIsIntern(dict, init);
      match xs[|xs| - 1]
      case None =>
      case Some(x) =>
        InternAllSnoc(dict, NonNull(init), x);
    }
  }

  /** The dictionary holds exactly the starting values and the input's non-null values. */
  lemma {:induction false} UniqMembers(dict: seq<int>, xs: seq<Option<int>>)
    ensures forall x :: x in Uniq(dict, xs) <==> x in dict || Some(x) in xs
    decreases |xs|
  {
    if xs != [] {
      var init := xs[..|xs| - 1];
      UniqMembers(dict, init);
      assert xs == init + [xs[|xs| - 1]];
    }
  }

  /** Starting from distinct values, the dictionary stays free of duplicates. */
  lemma {:induction false} UniqDistinct(dict: seq<int>, xs: seq<Option<int>>)
    requires Distinct(dict)
    ensures Distinct(Uniq(dict, xs))
    decreases |xs|
  {
    if xs != [] {
      UniqDistinct(dict, xs[..|xs| - 1]);
    }
  }

  /** Observing `a` and then `b` gives the dictionary of observing `a + b`: chunks of
      a column can be fed one after another. */
  lemma {:induction false} UniqConcat(dict: seq<int>, a: seq<Option<int>>, b: seq<Option<int>>)
    ensures Uniq(Uniq(dict, a), b) == Uniq(dict, a + b)
    decreases |b|
  {
    if b == [] {
      assert a + b == a;
    } else {
      var init := b[..|b| - 1];
      UniqConcat(dict, a, init);
      assert (a + b)[..|a + b| - 1] == a + init;
    }
  }

  /** Observing more elements never shrinks the dictionary. */
  lemma UniqGrows(dict: seq<int>, a: seq<Option<int>>, b: seq<Option<int>>)
    requires a <= b
    ensures |Uniq(dict, a)| <= |Uniq(dict, b)|
  {
    assert b == a + b[|a|..];
    UniqConcat(dict, a, b[|a|..]);
  }

  /** Each element adds at most one value to the dictionary. */
  lemma {:induction false} UniqBound(dict: seq<int>, xs: seq<Option<int>>)
    ensures |Uniq(dict, xs)| <= |dict| + |xs|
    decreases |xs|
  {
    if xs != [] {
      UniqBound(dict, xs[..|xs| - 1]);
    }
  }

  /** Each step of the dictionary keeps the earlier dictionary as a prefix. */
  lemma UniqStep(dict: seq<int>, xs: seq<Option<int>>)
    requires xs != []
    ensures var u0, u := Uniq(dict, xs[..|xs| - 1]), Uniq(dict, xs); |u0| <= |u| && u[..|u0|] == u0
  {
  }

  /** The code of one element: its position in the dictionary that contains it. */
  function Code(u: seq<int>, e: Option<int>): (c: Option<int>)
    requires e.Some? ==> e.value in u
    ensures c.Some? <==> e.Some?
    ensures c.Some? ==> 0 <= c.value < |u| && u[c.value] == e.value
  {
    match e
    case None => None
    case Some(x) => Some(IndexOf(u, x))
  }

  /** The codes of `xs`, each looked up in the dictionary as it stands after its
      element is observed. */
  function Encode(dict: seq<int>, xs: seq<Option<int>>): (codes: seq<Option<int>>)
    ensures |codes| == |xs|
    decreases |xs|
  {
    if xs == [] then []
    else Encode(dict, xs[..|xs| - 1]) + [Code(Uniq(dict, xs), xs[|xs| - 1])]
  }

  /** Each code of `codes` is null exactly where `xs` is, and otherwise the position
      of the element's value in `u`. */
  ghost predicate Decodes(codes: seq<Option<int>>, xs: seq<Option<int>>, u: seq<int>)
  {
    |codes| == |xs| &&
    forall i :: 0 <= i < |xs| ==>
      (codes[i].Some? <==> xs[i].Some?) && (xs[i].Some? ==> 0 <= codes[i].value < |u| && u[codes[i].value] == xs[i].value)
  }

  /** Codes into a dictionary stay valid in any dictionary extending it. */
  lemma DecodesGrow(codes: seq<Option<int>>, xs: seq<Option<int>>, u: seq<int>, u1: seq<int>)
    requires Decodes(codes, xs, u) && |u| <= |u1| && u1[..|u|] == u
    ensures Decodes(codes, xs, u1)
  {
    forall i | 0 <= i < |xs| && xs[i].Some? ensures u1[codes[i].value] == xs[i].value {
      assert u1[..|u|][codes[i].value] == u[codes[i].value];
    }
  }

  /** Dictionary encoding loses nothing: a null gets no code, and every value's
      code points at that value in the final dictionary. */
  lemma {:induction false} EncodeDecodes(dict: seq<int>, xs: seq<Option<int>>)
    ensures Decodes(Encode(dict, xs), xs, Uniq(dict, xs))
    decreases |xs|
  {
    if xs != [] {
      var init := xs[..|xs| - 1];
      EncodeDecodes(dict, init);
      UniqStep(dict, xs);
      DecodesGrow(Encode(dict, init), init, Uniq(dict, init), Uniq(dict, xs));
      var codes, u := Encode(dict, xs), Uniq(dict, xs);
      forall i | 0 <= i < |xs| - 1
        ensures (codes[i].Some? <==> xs[i].Some?) &&
                (xs[i].Some? ==> 0 <= codes[i].value < |u| && u[codes[i].value] == xs[i].value)
      {
        assert codes[i] == Encode(dict, init)[i] && xs[i] == init[i];
      }
    }
  }

  /** The codes of `a + b` are those of `a` followed by those of `b` against the
      dictionary `a` left behind. */
  lemma {:induction false} EncodeConcat(dict: seq<int>, a: seq<Option<int>>, b: seq<Option<int>>)
    ensures Encode(dict, a + b) == Encode(dict, a) + Encode(Uniq(dict, a), b)
    decreases |b|
  {
    if b == [] {
      assert a + b == a;
    } else {
      var init := b[..|b| - 1];
      EncodeConcat(dict, a, init);
      assert (a + b)[..|a + b| - 1] == a + init;
      UniqConcat(dict, a, b);
    }
  }

  /** The unique values of [2, null, 2, 1] are [2, 1]. */
  lemma UniqueExample()
    ensures Uniq([], [Some(2), None, Some(2), Some(1)]) == [2, 1]
  {
    assert [Some(2), None, Some(2), Some(1)][..3] == [Some(2), None, Some(2)];
    assert [Some(2), None, Some(2)][..2] == [Some(2), None];
    assert [Some(2), None][..1] == [Some(2)];
  }

  /** What an action appends to its output for the elements `xs`: nothing for
      unique, their codes for dictionary-encode. */
  function Observed(action: Action, dict: seq<int>, xs: seq<Option<int>>): (out: seq<Option<int>>)
    ensures action == DictEncodeAction ==> |out| == |xs|
    ensures action == UniqueAction ==> out == []
  {
    if action == DictEncodeAction then Encode(dict, xs) else []
  }

  /** An action's output for `a + b` is its output for `a` followed by its output
      for `b` against the dictionary `a` left behind. */
  lemma ObservedConcat(action: Action, dict: seq<int>, a: seq<Option<int>>, b: seq<Option<int>>)
    ensures Observed(action, dict, a + b) == Observed(action, dict, a) + Observed(action, Uniq(dict, a), b)
  {
    EncodeConcat(dict, a, b);
  }

  /** The elements of a sequence of chunks, one after another. */
  function Flatten(chunks: seq<seq<Option<int>>>): (all: seq<Option<int>>)
    ensures chunks == [] ==> all == []
  {
    if chunks == [] then [] else Flatten(chunks[..|chunks| - 1]) + chunks[|chunks| - 1]
  }

  /** The elements of the first `j` chunks come first among the elements of all. */
  lemma {:induction false} FlattenPrefix(chunks: seq<seq<Option<int>>>, j: nat)
    requires j <= |chunks|
    ensures Flatten(chunks[..j]) <= Flatten(chunks)
    decreases |chunks|
  {
    if j < |chunks| {
      var init := chunks[..|chunks| - 1];
      FlattenPrefix(init, j);
      assert init[..j] == chunks[..j];
    } else {
      assert chunks[..j] == chunks;
    }
  }

  /** The outputs flushed after each chunk: one array of codes per chunk for
      dictionary-encode, nothing for unique. */
  function ChunkOutputs(action: Action, dict: seq<int>, chunks: seq<seq<Option<int>>>): (outs: seq<seq<Option<int>>>)
    ensures action == DictEncodeAction ==> |outs| == |chunks|
    ensures action == UniqueAction ==> outs == []
  {
    if chunks == [] then []
    else
      var init := chunks[..|chunks| - 1];
      ChunkOutputs(action, dict, init) +
      (if action == DictEncodeAction then [Encode(Uniq(dict, Flatten(init)), chunks[|chunks| - 1])] else [])
  }

  /** Encoding a chunked column chunk by chunk gives the codes of encoding the whole
      column at once: codes stay stable across chunks. */
  lemma {:induction false} ChunkOutputsEncode(dict: seq<int>, chunks: seq<seq<Option<int>>>)
    ensures Flatten(ChunkOutputs(DictEncodeAction, dict, chunks)) == Encode(dict, Flatten(chunks))
    decreases |chunks|
  {
    if chunks != [] {
      var init := chunks[..|chunks| - 1];
      var outs := ChunkOutputs(DictEncodeAction, dict, chunks);
      ChunkOutputsEncode(dict, init);
      assert outs[..|outs| - 1] == ChunkOutputs(DictEncodeAction, dict, init);
      EncodeConcat(dict, Flatten(init), chunks[|chunks| - 1]);
    }
  }

  /** Every code of every chunk's output points, in the final dictionary, at the
      chunk's value: the dictionary only grows, so earlier codes stay valid. */
  lemma {:induction false} ChunkOutputsDecode(dict: seq<int>, chunks: seq<seq<Option<int>>>)
    ensures var outs := ChunkOutputs(DictEncodeAction, dict, chunks);
            forall k :: 0 <= k < |chunks| ==> Decodes(outs[k], chunks[k], Uniq(dict, Flatten(chunks)))
    decreases |chunks|
  {
    if chunks != [] {
      var init, last := chunks[..|chunks| - 1], chunks[|chunks| - 1];
      ChunkOutputsDecode(dict, init);
      var u0 := Uniq(dict, Flatten(init));
      UniqConcat(dict, Flatten(init), last);
      EncodeDecodes(u0, last);
      var outs := ChunkOutputs(DictEncodeAction, dict, chunks);
      var u := Uniq(dict, Flatten(chunks));
      forall k | 0 <= k < |chunks| ensures Decodes(outs[k], chunks[k], u) {
        if k < |chunks| - 1 {
          assert outs[k] == ChunkOutputs(DictEncodeAction, dict, init)[k] && chunks[k] == init[k];
          DecodesGrow(outs[k], chunks[k], u0, u);
        }
      }
    }
  }

  /** A single chunk: its elements, and one output for dictionary-encode. */
  lemma OneChunk(action: Action, dict: seq<int>, x: seq<Option<int>>)
    ensures Flatten([x]) == x
    ensures ChunkOutputs(action, dict, [x]) == (if action == DictEncodeAction then [Observed(action, dict, x)] else [])
  {
    assert [x][..0] == [];
  }
}
