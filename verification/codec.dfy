/**
  The flattened form in which a store crosses from one partition to another
  (`encode` and `decode`). The host's encoder and decoder are modelled as a
  sequence of tokens; their byte layout belongs to the host.
 */
module Codec {
  import opened Optional
  import opened StringOrder
  import opened Bucketeer

  datatype Token<V> = IntTok(n: int) | StrTok(s: string) | ValTok(v: V)

  /** The distinct keys of a store. */
  ghost function KeySet<V>(s: Store<V>): set<string>
  {
    set i | 0 <= i < |s| :: s[i].key
  }

  function ValueTokens<V>(vs: seq<V>): (t: seq<Token<V>>)
    ensures |t| == |vs|
    ensures forall i | 0 <= i < |vs| :: t[i] == ValTok(vs[i])
  {
    if |vs| == 0 then [] else [ValTok(vs[0])] + ValueTokens(vs[1..])
  }

  /** Per bucket: the key, the number of values under it, then those values. */
  function EncodeBuckets<V>(g: seq<Bucket<V>>): (t: seq<Token<V>>)
    ensures |t| == 2 * |g| + |Flatten(g)|
  {
    if |g| == 0 then []
    else [StrTok(g[0].key), IntTok(|g[0].values|)] + ValueTokens(g[0].values) + EncodeBuckets(g[1..])
  }

  /**
    `encode`: the number of distinct keys, then every key in ascending order
    with its multiplicity and its values in stored order. Besides the count,
    each key costs two tokens and each stored value one.
   */
  function Encode<V>(s: Store<V>): (t: seq<Token<V>>)
    requires Ordered(s)
    ensures |t| == 1 + 2 * |KeySet(s)| + |s|
    ensures t[0] == IntTok(|KeySet(s)|)
  {
    var g := Finish(s);
    EncodedLength(s);
    [IntTok(|g|)] + EncodeBuckets(g)
  }

  /**
    The layout of an encoding around the `i`-th key in ascending order: the
    key count, the groups of the smaller keys, then the key, its
    multiplicity (the number of values stored under it) and those values
    in stored order, then the groups of the larger keys.
   */
  lemma EncodeLayout<V>(s: Store<V>, i: nat)
    requires Ordered(s) && i < |Finish(s)|
    ensures var g := Finish(s);
            var k := g[i].key;
            var vs := Values(s, k);
            && vs != []
            && Encode(s) == [IntTok(|KeySet(s)|)] +
                 (EncodeBuckets(g[..i]) + ([StrTok(k), IntTok(|vs|)] + ValueTokens(vs) + EncodeBuckets(g[i + 1..])))
  {
    var g := Finish(s);
    var k := g[i].key;
    var vs := Values(s, k);
    assert g[i].values == vs && vs != [];
    var post := [g[i]] + g[i + 1..];
    assert EncodeBuckets(g) == EncodeBuckets(g[..i]) + EncodeBuckets(post) by {
      SplitAround(g, i);
      EncodeBucketsAppend(g[..i], post);
    }
    assert EncodeBuckets(post) == [StrTok(k), IntTok(|vs|)] + ValueTokens(vs) + EncodeBuckets(g[i + 1..]) by {
      assert post[0] == g[i] && post[1..] == g[i + 1..];
    }
    assert |g| == |KeySet(s)| by {
      EncodedLength(s);
    }
  }

  lemma SplitAround<T>(x: seq<T>, i: nat)
    requires i < |x|
    ensures x == x[..i] + ([x[i]] + x[i + 1..])
  {
    assert x[..i + 1] == x[..i] + [x[i]];
    assert x == x[..i + 1] + x[i + 1..];
    ConcatAssociative(x[..i], [x[i]], x[i + 1..]);
  }

  /** Encoding a concatenation of groupings is concatenating their encodings. */
  lemma {:induction false} EncodeBucketsAppend<V>(a: seq<Bucket<V>>, b: seq<Bucket<V>>)
    ensures EncodeBuckets(a + b) == EncodeBuckets(a) + EncodeBuckets(b)
    decreases |a|
  {
    if |a| == 0 {
      assert a + b == b;
    } else {
      var ab := a + b;
      assert ab[0] == a[0] && ab[1..] == a[1..] + b;
      EncodeBucketsAppend(a[1..], b);
      var first := [StrTok(a[0].key), IntTok(|a[0].values|)] + ValueTokens(a[0].values);
      assert EncodeBuckets(ab) == first + (EncodeBuckets(a[1..]) + EncodeBuckets(b));
      ConcatAssociative(first, EncodeBuckets(a[1..]), EncodeBuckets(b));
    }
  }

  lemma EncodedLength<V>(s: Store<V>)
    requires Ordered(s)
    ensures |Finish(s)| == |KeySet(s)|
    ensures |EncodeBuckets(Finish(s))| == 2 * |Finish(s)| + |s|
  {
    var g := Finish(s);
    FlattenFinish(s);
    FinishKeySet(s);
    DistinctKeysCount(g);
  }

  /** The keys of the emitted buckets are the keys of the store. */
  lemma FinishKeySet<V>(s: Store<V>)
    requires Ordered(s)
    ensures (set i | 0 <= i < |Finish(s)| :: Finish(s)[i].key) == KeySet(s)
  {
    var g := Finish(s);
    var keys := set i | 0 <= i < |g| :: g[i].key;
    forall k
      ensures k in keys <==> k in KeySet(s)
    {
      if k in KeySet(s) {
        var i :| 0 <= i < |s| && s[i].key == k;
        assert HasKey(s, k);
      }
      if k in keys {
        assert exists i | 0 <= i < |g| :: g[i].key == k;
        assert HasKey(s, k);
      }
    }
  }

  /** Buckets with strictly ascending keys have as many distinct keys as buckets. */
  lemma {:induction false} DistinctKeysCount<V>(g: seq<Bucket<V>>)
    requires forall i, j | 0 <= i < j < |g| :: Less(g[i].key, g[j].key)
    ensures |set i | 0 <= i < |g| :: g[i].key| == |g|
    decreases |g|
  {
    if |g| > 0 {
      var rest := g[1..];
      DistinctKeysCount(rest);
      var all := set i | 0 <= i < |g| :: g[i].key;
      var tail := set i | 0 <= i < |rest| :: rest[i].key;
      assert all == {g[0].key} + tail by {
        forall k | k in all
          ensures k in {g[0].key} + tail
        {
          var i :| 0 <= i < |g| && g[i].key == k;
          if i > 0 {
            assert rest[i - 1].key == k;
          }
        }
      }
      assert g[0].key !in tail by {
        LessIrreflexive(g[0].key);
        forall i | 0 <= i < |rest|
          ensures rest[i].key != g[0].key
        {
          assert Less(g[0].key, g[i + 1].key);
        }
      }
    }
  }

  /** Decode `count` values for key `k`, inserting each as it is read. */
  function DecodeValues<V>(s: Store<V>, k: string, t: seq<Token<V>>, count: int): (r: Option<(Store<V>, seq<Token<V>>)>)
    requires Ordered(s)
    ensures r.Some? ==> Ordered(r.value.0)
    ensures r.Some? ==> forall k' :: Values(s, k') <= Values(r.value.0, k')
    decreases if count > 0 then count else 0
  {
    if count <= 0 then Some((s, t))
    else if |t| == 0 || !t[0].ValTok? then None
    else
      var r := DecodeValues(Insert(s, k, t[0].v), k, t[1..], count - 1);
      PrefixStep(s, Insert(s, k, t[0].v), r);
      r
  }

  /** Decode `count` key groups. */
  function DecodeBuckets<V>(s: Store<V>, t: seq<Token<V>>, count: int): (r: Option<(Store<V>, seq<Token<V>>)>)
    requires Ordered(s)
    ensures r.Some? ==> Ordered(r.value.0)
    ensures r.Some? ==> forall k' :: Values(s, k') <= Values(r.value.0, k')
    decreases if count > 0 then count else 0
  {
    if count <= 0 then Some((s, t))
    else if |t| < 2 || !t[0].StrTok? || !t[1].IntTok? then None
    else
      match DecodeValues(s, t[0].s, t[2..], t[1].n)
      case None => None
      case Some((s', rest)) =>
        var r := DecodeBuckets(s', rest, count - 1);
        PrefixStep(s, s', r);
        r
  }

  lemma PrefixStep<V>(s: Store<V>, s': Store<V>, r: Option<(Store<V>, seq<Token<V>>)>)
    requires forall k' :: Values(s, k') <= Values(s', k')
    requires r.Some? ==> forall k' :: Values(s', k') <= Values(r.value.0, k')
    ensures r.Some? ==> forall k' :: Values(s, k') <= Values(r.value.0, k')
  {
    if r.Some? {
      forall k'
        ensures Values(s, k') <= Values(r.value.0, k')
      {
        var a, b, c := Values(s, k'), Values(s', k'), Values(r.value.0, k');
        assert a == b[..|a|] && b == c[..|b|];
        assert a == c[..|a|];
      }
    }
  }

  /**
    `decode` into the store `s`: read the number of keys, then for each the
    key, its multiplicity and that many values, inserting every pair as it
    is read. Decoding only ever adds values after those already present.
    `None` stands for a stream that ends early or holds a token of the
    wrong kind.
   */
  function Decode<V>(s: Store<V>, t: seq<Token<V>>): (r: Option<Store<V>>)
    requires Ordered(s)
    ensures r.Some? ==> Ordered(r.value)
    ensures r.Some? ==> forall k :: Values(s, k) <= Values(r.value, k)
  {
    if |t| == 0 || !t[0].IntTok? then None
    else
      match DecodeBuckets(s, t[1..], t[0].n)
      case None => None
      case Some((s', _)) => Some(s')
  }

  lemma {:induction false} DecodeValueTokens<V>(s: Store<V>, k: string, vs: seq<V>, rest: seq<Token<V>>)
    requires Ordered(s)
    ensures DecodeValues(s, k, ValueTokens(vs) + rest, |vs|) == Some((Reduce(s, Entries(k, vs)), rest))
    decreases |vs|
  {
    if |vs| > 0 {
      var t := ValueTokens(vs) + rest;
      assert t[0] == ValTok(vs[0]);
      assert t[1..] == ValueTokens(vs[1..]) + rest;
      DecodeValueTokens(Insert(s, k, vs[0]), k, vs[1..], rest);
      assert Entries(k, vs)[1..] == Entries(k, vs[1..]);
    } else {
      assert ValueTokens(vs) + rest == rest;
    }
  }

  lemma {:induction false} DecodeEncodedBuckets<V>(s: Store<V>, g: seq<Bucket<V>>, rest: seq<Token<V>>)
    requires Ordered(s)
    ensures DecodeBuckets(s, EncodeBuckets(g) + rest, |g|) == Some((Reduce(s, Flatten(g)), rest))
    decreases |g|
  {
    if |g| == 0 {
      assert EncodeBuckets(g) + rest == rest;
      assert Reduce(s, Flatten(g)) == s;
    } else {
      var s' := Reduce(s, Entries(g[0].key, g[0].values));
      DecodeEncodedBuckets(s', g[1..], rest);
      DecodeEncodedStep(s, g, rest);
    }
  }

  /** The induction step: the first bucket, then the rest as the hypothesis has it. */
  lemma DecodeEncodedStep<V>(s: Store<V>, g: seq<Bucket<V>>, rest: seq<Token<V>>)
    requires Ordered(s) && |g| > 0
    requires DecodeBuckets(Reduce(s, Entries(g[0].key, g[0].values)), EncodeBuckets(g[1..]) + rest, |g[1..]|)
          == Some((Reduce(Reduce(s, Entries(g[0].key, g[0].values)), Flatten(g[1..])), rest))
    ensures DecodeBuckets(s, EncodeBuckets(g) + rest, |g|) == Some((Reduce(s, Flatten(g)), rest))
  {
    var s' := Reduce(s, Entries(g[0].key, g[0].values));
    var later := EncodeBuckets(g[1..]) + rest;
    assert DecodeBuckets(s, EncodeBuckets(g) + rest, |g|) == DecodeBuckets(s', later, |g| - 1) by {
      DecodeFirstBucket(s, g, rest);
    }
    assert |g[1..]| == |g| - 1;
    assert Reduce(s', Flatten(g[1..])) == Reduce(s, Flatten(g)) by {
      ReduceFlattenUnfold(s, g);
    }
  }

  /** Decoding the first encoded bucket merges its entries and leaves the rest of the stream. */
  lemma DecodeFirstBucket<V>(s: Store<V>, g: seq<Bucket<V>>, rest: seq<Token<V>>)
    requires Ordered(s) && |g| > 0
    ensures DecodeBuckets(s, EncodeBuckets(g) + rest, |g|)
         == DecodeBuckets(Reduce(s, Entries(g[0].key, g[0].values)), EncodeBuckets(g[1..]) + rest, |g| - 1)
  {
    var k, vs := g[0].key, g[0].values;
    var after := EncodeBuckets(g[1..]) + rest;
    EncodeBucketsUnfold(g, rest);
    DecodeValueTokens(s, k, vs, after);
    DecodeBucketsStep(s, EncodeBuckets(g) + rest, |g|, Reduce(s, Entries(k, vs)), after);
  }

  /** The tokens of the first bucket, then those of the rest. */
  lemma EncodeBucketsUnfold<V>(g: seq<Bucket<V>>, rest: seq<Token<V>>)
    requires |g| > 0
    ensures |EncodeBuckets(g) + rest| >= 2
    ensures (EncodeBuckets(g) + rest)[0] == StrTok(g[0].key)
    ensures (EncodeBuckets(g) + rest)[1] == IntTok(|g[0].values|)
    ensures (EncodeBuckets(g) + rest)[2..] == ValueTokens(g[0].values) + (EncodeBuckets(g[1..]) + rest)
  {
    var head := [StrTok(g[0].key), IntTok(|g[0].values|)];
    var vt, later := ValueTokens(g[0].values), EncodeBuckets(g[1..]);
    assert EncodeBuckets(g) == head + vt + later;
    ConcatAssociative(head + vt, later, rest);
    ConcatAssociative(head, vt, later + rest);
    var tail := vt + (later + rest);
    assert (head + tail)[2..] == tail;
  }

  /** Merging a grouping is merging its first bucket, then the rest. */
  lemma ReduceFlattenUnfold<V>(s: Store<V>, g: seq<Bucket<V>>)
    requires Ordered(s) && |g| > 0
    ensures Reduce(s, Flatten(g)) == Reduce(Reduce(s, Entries(g[0].key, g[0].values)), Flatten(g[1..]))
  {
    assert Flatten(g) == Entries(g[0].key, g[0].values) + Flatten(g[1..]);
    ReduceAppend(s, Entries(g[0].key, g[0].values), Flatten(g[1..]));
  }

  /** One key decoded: the rest of the stream is decoded into the grown store. */
  lemma DecodeBucketsStep<V>(s: Store<V>, t: seq<Token<V>>, count: int, s': Store<V>, after: seq<Token<V>>)
    requires Ordered(s) && count > 0 && |t| >= 2 && t[0].StrTok? && t[1].IntTok?
    requires DecodeValues(s, t[0].s, t[2..], t[1].n) == Some((s', after))
    ensures Ordered(s')
    ensures DecodeBuckets(s, t, count) == DecodeBuckets(s', after, count - 1)
  {
  }

  /**
    Decoding an encoded store into a store `t` has the same effect as merging
    the original into `t` in-process.
   */
  lemma DecodeEncodeIsReduce<V>(t: Store<V>, s: Store<V>)
    requires Ordered(t) && Ordered(s)
    ensures Decode(t, Encode(s)) == Some(Reduce(t, s))
  {
    var g := Finish(s);
    var e := Encode(s);
    assert e == [IntTok(|g|)] + EncodeBuckets(g);
    assert e[1..] == EncodeBuckets(g) + [];
    assert DecodeBuckets(t, e[1..], |g|) == Some((Reduce(t, s), [])) by {
      DecodeEncodedBuckets(t, g, []);
      FlattenFinish(s);
    }
  }

  /**
    The codec round trip: decoding an encoding into a fresh, empty store
    rebuilds the store exactly, so it emits the same keys with the same
    values in the same order, duplicates included.
   */
  lemma RoundTrip<V>(s: Store<V>)
    requires Ordered(s)
    ensures Decode([], Encode(s)) == Some(s)
    ensures Finish(Decode([], Encode(s)).value) == Finish(s)
  {
    DecodeEncodeIsReduce([], s);
    ReduceIntoEmpty(s);
  }

  /**
    A stream holding only the key count: a count of zero or less reads no
    key and leaves the store as it was; a positive count runs past the end
    of the stream.
   */
  lemma DecodeCountOnly<V>(s: Store<V>, n: int)
    requires Ordered(s)
    ensures Decode(s, [IntTok(n)]) == if n <= 0 then Some(s) else None
  {
    var t: seq<Token<V>> := [IntTok(n)];
    assert t[1..] == [];
  }
}
