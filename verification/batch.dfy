/**
  What the two `map` implementations share: every non-null tuple of a batch
  is classified into at most one entry, and the entries are inserted into
  the store in input order. A classifier is any function from a value to
  the entry it files, if any.
 */
module Batch {
  import opened Optional
  import opened Bucketeer

  /** The entries of one tuple: none for a null or an unfiled value, else the one it is filed as. */
  function EntryOf<X, V>(classify: X -> Option<Entry<V>>, x: Option<X>): (es: seq<Entry<V>>)
    ensures |es| <= 1
    ensures x.None? ==> es == []
    ensures |es| == 1 <==> x.Some? && classify(x.value).Some?
  {
    match x
    case None => []
    case Some(v) =>
      match classify(v)
      case Some(e) => [e]
      case None => []
  }

  /** The entries a batch gives, in input order. */
  function Gather<X, V>(classify: X -> Option<Entry<V>>, inputs: seq<Option<X>>): seq<Entry<V>>
  {
    if |inputs| == 0 then []
    else Gather(classify, inputs[..|inputs| - 1]) + EntryOf(classify, inputs[|inputs| - 1])
  }

  /** The non-null values of a batch, in input order. */
  function Present<X>(inputs: seq<Option<X>>): seq<X>
  {
    if |inputs| == 0 then []
    else
      Present(inputs[..|inputs| - 1]) +
        match inputs[|inputs| - 1]
        case Some(x) => [x]
        case None => []
  }

  /** The entries of two batches in a row are those of the first followed by those of the second. */
  lemma {:induction false} GatherAppend<X, V>(classify: X -> Option<Entry<V>>, a: seq<Option<X>>, b: seq<Option<X>>)
    ensures Gather(classify, a + b) == Gather(classify, a) + Gather(classify, b)
    decreases |b|
  {
    if |b| == 0 {
      assert a + b == a;
    } else {
      var b' := b[..|b| - 1];
      var last := b[|b| - 1];
      GatherAppend(classify, a, b');
      assert (a + b)[..|a + b| - 1] == a + b';
      assert (a + b)[|a + b| - 1] == last;
      ConcatAssociative(Gather(classify, a), Gather(classify, b'), EntryOf(classify, last));
    }
  }

  /** Processing a stream as two batches leaves the same store as processing it as one. */
  lemma GatherBatches<X, V>(classify: X -> Option<Entry<V>>, s: Store<V>, a: seq<Option<X>>, b: seq<Option<X>>)
    requires Ordered(s)
    ensures Reduce(Reduce(s, Gather(classify, a)), Gather(classify, b)) == Reduce(s, Gather(classify, a + b))
  {
    GatherAppend(classify, a, b);
    ReduceAppend(s, Gather(classify, a), Gather(classify, b));
  }

  /** Taking one more tuple of a batch merges that tuple's entries. */
  lemma GatherStep<X, V>(classify: X -> Option<Entry<V>>, s: Store<V>, inputs: seq<Option<X>>, i: nat)
    requires Ordered(s) && i < |inputs|
    ensures Reduce(s, Gather(classify, inputs[..i + 1])) ==
            Reduce(Reduce(s, Gather(classify, inputs[..i])), EntryOf(classify, inputs[i]))
  {
    assert inputs[..i + 1][..i] == inputs[..i];
    ReduceAppend(s, Gather(classify, inputs[..i]), EntryOf(classify, inputs[i]));
  }

  /** Merging a tuple's entries inserts its entry if it has one, and changes nothing otherwise. */
  lemma ReduceEntryOf<X, V>(classify: X -> Option<Entry<V>>, r: Store<V>, x: Option<X>)
    requires Ordered(r)
    ensures Reduce(r, EntryOf(classify, x)) ==
            if x.Some? && classify(x.value).Some?
            then Insert(r, classify(x.value).value.key, classify(x.value).value.value)
            else r
  {
    var es := EntryOf(classify, x);
    if |es| == 1 {
      ReduceSnoc(r, [], es[0]);
      assert [] + [es[0]] == es;
    }
  }

  /**
    A batch gives at most one entry per value present and none for a null;
    a classifier that files every value gives exactly one per value
    present, in input order.
   */
  lemma {:induction false} GatherOnePerValue<X, V>(classify: X -> Option<Entry<V>>, inputs: seq<Option<X>>)
    ensures |Gather(classify, inputs)| <= |Present(inputs)|
    ensures (forall x :: classify(x).Some?) ==>
              && |Gather(classify, inputs)| == |Present(inputs)|
              && forall i | 0 <= i < |Present(inputs)| :: Some(Gather(classify, inputs)[i]) == classify(Present(inputs)[i])
    decreases |inputs|
  {
    if |inputs| > 0 {
      GatherOnePerValue(classify, inputs[..|inputs| - 1]);
    }
  }
}
