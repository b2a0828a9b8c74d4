/**
  The bucket store shared by both aggregates (the `Bucketeer<T>` template):
  a multimap from bucket key to value. A C++11 multimap keeps its entries
  sorted by key and inserts a new entry after every entry with an equal key,
  so the store is modelled as the sequence of its entries in iteration order:
  keys never decrease along it, and the values under one key appear in the
  order they were inserted.
 */
module Bucketeer {
  import opened StringOrder

  datatype Entry<V> = Entry(key: string, value: V)

  /** The multimap's entries in iteration order. */
  type Store<V> = seq<Entry<V>>

  /** One group of the emitted map: a key and every value stored under it. */
  datatype Bucket<V> = Bucket(key: string, values: seq<V>)

  /** Keys never decrease along the store. */
  predicate Ordered<V>(s: Store<V>)
  {
    forall i, j | 0 <= i < j < |s| :: LessEq(s[i].key, s[j].key)
  }

  predicate HasKey<V>(s: seq<Entry<V>>, k: string)
  {
    exists i | 0 <= i < |s| :: s[i].key == k
  }

  /** The values stored under `k`, in iteration order (`equal_range(k)`). */
  function Values<V>(s: seq<Entry<V>>, k: string): (vs: seq<V>)
    ensures |vs| <= |s|
  {
    if |s| == 0 then []
    else (if s[0].key == k then [s[0].value] else []) + Values(s[1..], k)
  }

  /** Every value under `k` comes from an entry of the store with key `k`. */
  lemma {:induction false} ValuesFromEntries<V>(s: seq<Entry<V>>, k: string)
    ensures forall i | 0 <= i < |Values(s, k)| :: Entry(k, Values(s, k)[i]) in s
    decreases |s|
  {
    if |s| > 0 {
      ValuesFromEntries(s[1..], k);
      var head := if s[0].key == k then [s[0].value] else [];
      forall i | 0 <= i < |Values(s, k)|
        ensures Entry(k, Values(s, k)[i]) in s
      {
        if i >= |head| {
          var e := Entry(k, Values(s[1..], k)[i - |head|]);
          assert Values(s, k)[i] == Values(s[1..], k)[i - |head|];
          assert e in s[1..];
          var j :| 0 <= j < |s| - 1 && s[1..][j] == e;
          assert s[j + 1] == e;
        }
      }
    }
  }

  lemma {:induction false} ValuesAppend<V>(a: seq<Entry<V>>, b: seq<Entry<V>>, k: string)
    ensures Values(a + b, k) == Values(a, k) + Values(b, k)
    decreases |a|
  {
    if |a| == 0 {
      assert a + b == b;
    } else {
      var ab := a + b;
      assert ab[0] == a[0];
      assert ab[1..] == a[1..] + b;
      ValuesAppend(a[1..], b, k);
      var h := if a[0].key == k then [a[0].value] else [];
      assert Values(ab, k) == h + Values(ab[1..], k);
      assert Values(a, k) == h + Values(a[1..], k);
    }
  }

  lemma {:induction false} ValuesNonEmptyIffHasKey<V>(s: seq<Entry<V>>, k: string)
    ensures Values(s, k) != [] <==> HasKey(s, k)
    decreases |s|
  {
    if |s| > 0 {
      ValuesNonEmptyIffHasKey(s[1..], k);
      if HasKey(s[1..], k) {
        var i :| 0 <= i < |s| - 1 && s[1..][i].key == k;
        assert s[i + 1].key == k;
      }
      if HasKey(s, k) && s[0].key != k {
        var i :| 0 <= i < |s| && s[i].key == k;
        assert s[1..][i - 1].key == k;
      }
    }
  }

  /** The position `std::multimap::upper_bound(k)`: just past every entry whose key is at most `k`. */
  function UpperBound<V>(s: Store<V>, k: string): (p: nat)
    requires Ordered(s)
    ensures p <= |s|
    ensures forall i | 0 <= i < p :: LessEq(s[i].key, k)
    ensures forall i | p <= i < |s| :: Less(k, s[i].key)
    decreases |s|
  {
    if |s| == 0 then 0
    else if Less(k, s[0].key) then
      assert forall i | 0 <= i < |s| :: Less(k, s[i].key) by {
        forall i | 0 <= i < |s| {
          LessLessEqTransitive(k, s[0].key, s[i].key);
        }
      }
      0
    else
      NotLessIsLessEq(s[0].key, k);
      1 + UpperBound(s[1..], k)
  }

  /** `buckets.insert(pair(k, v))`: the new entry goes after every entry with key `k`. */
  function Insert<V>(s: Store<V>, k: string, v: V): (r: Store<V>)
    requires Ordered(s)
    ensures Ordered(r)
    ensures multiset(r) == multiset(s) + multiset{Entry(k, v)}
    ensures forall k' :: Values(r, k') == if k' == k then Values(s, k') + [v] else Values(s, k')
  {
    var p := UpperBound(s, k);
    InsertAtUpperBound(s, k, v, p);
    s[..p] + [Entry(k, v)] + s[p..]
  }

  lemma InsertAtUpperBound<V>(s: Store<V>, k: string, v: V, p: nat)
    requires Ordered(s) && p == UpperBound(s, k)
    ensures Ordered(s[..p] + [Entry(k, v)] + s[p..])
    ensures multiset(s[..p] + [Entry(k, v)] + s[p..]) == multiset(s) + multiset{Entry(k, v)}
    ensures forall k' :: Values(s[..p] + [Entry(k, v)] + s[p..], k') ==
                         if k' == k then Values(s, k') + [v] else Values(s, k')
  {
    InsertKeepsOrder(s, k, v, p);
    assert s == s[..p] + s[p..];
    forall k'
      ensures Values(s[..p] + [Entry(k, v)] + s[p..], k') ==
              if k' == k then Values(s, k') + [v] else Values(s, k')
    {
      InsertValues(s, k, v, p, k');
    }
  }

  lemma InsertKeepsOrder<V>(s: Store<V>, k: string, v: V, p: nat)
    requires Ordered(s) && p <= |s|
    requires forall i | 0 <= i < p :: LessEq(s[i].key, k)
    requires forall i | p <= i < |s| :: Less(k, s[i].key)
    ensures Ordered(s[..p] + [Entry(k, v)] + s[p..])
  {
    var r := s[..p] + [Entry(k, v)] + s[p..];
    forall i, j | 0 <= i < j < |r|
      ensures LessEq(r[i].key, r[j].key)
    {
      if j < p {
        assert r[i] == s[i] && r[j] == s[j];
      } else if j == p {
        assert r[i] == s[i];
      } else if i < p {
        assert r[i] == s[i] && r[j] == s[j - 1];
      } else if i == p {
        assert r[j] == s[j - 1];
      } else {
        assert r[i] == s[i - 1] && r[j] == s[j - 1];
      }
    }
  }

  lemma InsertValues<V>(s: Store<V>, k: string, v: V, p: nat, k': string)
    requires p <= |s|
    requires forall i | p <= i < |s| :: Less(k, s[i].key)
    ensures Values(s[..p] + [Entry(k, v)] + s[p..], k') ==
            if k' == k then Values(s, k') + [v] else Values(s, k')
  {
    assert s == s[..p] + s[p..];
    ValuesAppend(s[..p] + [Entry(k, v)], s[p..], k');
    ValuesAppend(s[..p], [Entry(k, v)], k');
    ValuesAppend(s[..p], s[p..], k');
    assert Values([Entry(k, v)], k') == if k' == k then [v] else [];
    if k' == k {
      LessIrreflexive(k);
      assert !HasKey(s[p..], k);
      ValuesNonEmptyIffHasKey(s[p..], k);
    }
  }

  /**
    `reduce`: every entry of `o`, in `o`'s iteration order, is inserted into
    `s`. Under every key the result holds the receiver's values followed by
    `o`'s; `o` itself is a value and cannot change.
   */
  function Reduce<V>(s: Store<V>, o: seq<Entry<V>>): (r: Store<V>)
    requires Ordered(s)
    ensures Ordered(r)
    ensures multiset(r) == multiset(s) + multiset(o)
    ensures forall k :: Values(r, k) == Values(s, k) + Values(o, k)
    decreases |o|
  {
    if |o| == 0 then s
    else
      var r := Reduce(Insert(s, o[0].key, o[0].value), o[1..]);
      ReduceStep(s, o, r);
      r
  }

  lemma ReduceStep<V>(s: Store<V>, o: seq<Entry<V>>, r: Store<V>)
    requires Ordered(s) && |o| > 0
    requires multiset(r) == multiset(Insert(s, o[0].key, o[0].value)) + multiset(o[1..])
    requires forall k :: Values(r, k) == Values(Insert(s, o[0].key, o[0].value), k) + Values(o[1..], k)
    ensures multiset(r) == multiset(s) + multiset(o)
    ensures forall k :: Values(r, k) == Values(s, k) + Values(o, k)
  {
    assert o == [o[0]] + o[1..];
    forall k
      ensures Values(r, k) == Values(s, k) + Values(o, k)
    {
      assert Values(o, k) == (if o[0].key == k then [o[0].value] else []) + Values(o[1..], k);
    }
  }

  /** An ordered store is determined by the value sequences it holds under each key. */
  lemma {:induction false} OrderedStoreDeterminedByValues<V>(s: Store<V>, t: Store<V>)
    requires Ordered(s) && Ordered(t)
    requires forall k :: Values(s, k) == Values(t, k)
    ensures s == t
    decreases |s|
  {
    if |s| == 0 {
      if |t| > 0 {
        FirstKeyHasValues(t);
        assert false;
      }
    } else if |t| == 0 {
      FirstKeyHasValues(s);
      assert false;
    } else {
      if s[0].key != t[0].key {
        LessTotal(s[0].key, t[0].key);
        if Less(s[0].key, t[0].key) {
          MissingBelowFirstKey(t, s[0].key);
        } else {
          MissingBelowFirstKey(s, t[0].key);
        }
        assert false;
      }
      var k0 := s[0].key;
      assert Values(s, k0)[0] == s[0].value;
      assert Values(t, k0)[0] == t[0].value;
      forall k
        ensures Values(s[1..], k) == Values(t[1..], k)
      {
        var h := if s[0].key == k then [s[0].value] else [];
        assert Values(s, k) == h + Values(s[1..], k);
        assert Values(t, k) == h + Values(t[1..], k);
        assert Values(s[1..], k) == Values(s, k)[|h|..];
        assert Values(t[1..], k) == Values(t, k)[|h|..];
      }
      OrderedStoreDeterminedByValues(s[1..], t[1..]);
      assert s == [s[0]] + s[1..];
      assert t == [t[0]] + t[1..];
    }
  }

  lemma FirstKeyHasValues<V>(s: Store<V>)
    requires |s| > 0
    ensures Values(s, s[0].key) != []
  {
  }

  /** A key below the first key of an ordered store has no values in it. */
  lemma MissingBelowFirstKey<V>(s: Store<V>, k: string)
    requires Ordered(s) && |s| > 0 && Less(k, s[0].key)
    ensures Values(s, k) == []
  {
    forall i | 0 <= i < |s|
      ensures s[i].key != k
    {
      LessLessEqTransitive(k, s[0].key, s[i].key);
      LessIrreflexive(k);
    }
    ValuesNonEmptyIffHasKey(s, k);
  }

  /** Merging is associative: the shape of the merge tree does not change the result. */
  lemma ReduceAssociative<V>(a: Store<V>, b: Store<V>, c: seq<Entry<V>>)
    requires Ordered(a) && Ordered(b)
    ensures Reduce(Reduce(a, b), c) == Reduce(a, Reduce(b, c))
  {
    var left := Reduce(Reduce(a, b), c);
    var right := Reduce(a, Reduce(b, c));
    forall k
      ensures Values(left, k) == Values(right, k)
    {
      ReduceTwiceValues(a, b, c, k);
      ReduceOfReducedValues(a, b, c, k);
    }
    OrderedStoreDeterminedByValues(left, right);
  }

  /**
    Merging is commutative up to the order of values under a key: both
    merge orders hold the same entries, and the same multiset under each key.
   */
  lemma ReduceCommutesAsMultiset<V>(a: Store<V>, b: Store<V>)
    requires Ordered(a) && Ordered(b)
    ensures multiset(Reduce(a, b)) == multiset(Reduce(b, a))
    ensures forall k :: multiset(Values(Reduce(a, b), k)) == multiset(Values(Reduce(b, a), k))
  {
  }

  /** Merging a concatenation is merging its two halves one after the other. */
  lemma ReduceAppend<V>(s: Store<V>, a: seq<Entry<V>>, b: seq<Entry<V>>)
    requires Ordered(s)
    ensures Reduce(s, a + b) == Reduce(Reduce(s, a), b)
  {
    var left := Reduce(s, a + b);
    var right := Reduce(Reduce(s, a), b);
    forall k
      ensures Values(left, k) == Values(right, k)
    {
      ReduceAppendValues(s, a, b, k);
    }
    OrderedStoreDeterminedByValues(left, right);
  }

  lemma ReduceAppendValues<V>(s: Store<V>, a: seq<Entry<V>>, b: seq<Entry<V>>, k: string)
    requires Ordered(s)
    ensures Values(Reduce(s, a + b), k) == Values(Reduce(Reduce(s, a), b), k)
  {
    ReduceOfAppendValues(s, a, b, k);
    ReduceTwiceValues(s, a, b, k);
  }

  lemma ReduceOfAppendValues<V>(s: Store<V>, a: seq<Entry<V>>, b: seq<Entry<V>>, k: string)
    requires Ordered(s)
    ensures Values(Reduce(s, a + b), k) == Values(s, k) + Values(a, k) + Values(b, k)
  {
    var va, vb := Values(a, k), Values(b, k);
    ValuesAppend(a, b, k);
    ReduceValuesWith(s, a + b, k, va + vb);
    ConcatAssociative(Values(s, k), va, vb);
  }

  lemma ReduceOfReducedValues<V>(a: Store<V>, b: Store<V>, c: seq<Entry<V>>, k: string)
    requires Ordered(a) && Ordered(b)
    ensures Values(Reduce(a, Reduce(b, c)), k) == Values(a, k) + Values(b, k) + Values(c, k)
  {
    var bc := Reduce(b, c);
    var vb, vc := Values(b, k), Values(c, k);
    ReduceValuesWith(a, bc, k, vb + vc);
    ConcatAssociative(Values(a, k), vb, vc);
  }

  lemma ConcatAssociative<T>(x: seq<T>, y: seq<T>, z: seq<T>)
    ensures x + (y + z) == x + y + z
  {
  }

  lemma ReduceValuesWith<V>(s: Store<V>, o: seq<Entry<V>>, k: string, vs: seq<V>)
    requires Ordered(s) && Values(o, k) == vs
    ensures Values(Reduce(s, o), k) == Values(s, k) + vs
  {
  }

  lemma ReduceTwiceValues<V>(s: Store<V>, a: seq<Entry<V>>, b: seq<Entry<V>>, k: string)
    requires Ordered(s)
    ensures Values(Reduce(Reduce(s, a), b), k) == Values(s, k) + Values(a, k) + Values(b, k)
  {
  }

  /** Merging one more entry is inserting it. */
  lemma ReduceSnoc<V>(s: Store<V>, o: seq<Entry<V>>, e: Entry<V>)
    requires Ordered(s)
    ensures Reduce(s, o + [e]) == Insert(Reduce(s, o), e.key, e.value)
  {
    ReduceAppend(s, o, [e]);
    var r := Reduce(s, o);
    assert Reduce(r, [e]) == Reduce(Insert(r, e.key, e.value), []);
  }

  /** Inserting an ordered store's entries into an empty store rebuilds it exactly. */
  lemma ReduceIntoEmpty<V>(s: Store<V>)
    requires Ordered(s)
    ensures Reduce([], s) == s
  {
    var r := Reduce([], s);
    forall k
      ensures Values(r, k) == Values(s, k)
    {
      ReduceIntoEmptyValues(s, k);
    }
    OrderedStoreDeterminedByValues(r, s);
  }

  lemma ReduceIntoEmptyValues<V>(s: Store<V>, k: string)
    ensures Values(Reduce([], s), k) == Values(s, k)
  {
    var vs := Values(s, k);
    ReduceValuesWith([], s, k, vs);
    assert Values<V>([], k) == [];
    assert [] + vs == vs;
  }

  /** Inserting the same pair twice keeps both copies, in order. */
  lemma InsertKeepsDuplicates<V>(s: Store<V>, k: string, v: V)
    requires Ordered(s)
    ensures Values(Insert(Insert(s, k, v), k, v), k) == Values(s, k) + [v, v]
    ensures |Insert(Insert(s, k, v), k, v)| == |s| + 2
  {
    var once := Insert(s, k, v);
    var twice := Insert(once, k, v);
    assert Values(once, k) == Values(s, k) + [v];
    assert Values(twice, k) == Values(once, k) + [v];
    assert |multiset(once)| == |multiset(s)| + 1;
    assert |multiset(twice)| == |multiset(once)| + 1;
  }

  /** The values under `k`, each paired back with `k`. */
  function Entries<V>(k: string, vs: seq<V>): (es: seq<Entry<V>>)
    ensures |es| == |vs|
    ensures forall i | 0 <= i < |vs| :: es[i] == Entry(k, vs[i])
  {
    if |vs| == 0 then [] else [Entry(k, vs[0])] + Entries(k, vs[1..])
  }

  /** The entries of a grouping, bucket by bucket. */
  function Flatten<V>(g: seq<Bucket<V>>): seq<Entry<V>>
  {
    if |g| == 0 then [] else Entries(g[0].key, g[0].values) + Flatten(g[1..])
  }

  /**
    `finish`: the emitted map. Each distinct key once, in strictly ascending
    order, with every value stored under it in insertion order.
   */
  function Finish<V>(s: Store<V>): (g: seq<Bucket<V>>)
    requires Ordered(s)
    ensures forall i, j | 0 <= i < j < |g| :: Less(g[i].key, g[j].key)
    ensures forall i | 0 <= i < |g| :: g[i].values == Values(s, g[i].key) && g[i].values != []
    ensures forall k :: HasKey(s, k) <==> exists i | 0 <= i < |g| :: g[i].key == k
    decreases |s|
  {
    if |s| == 0 then []
    else
      var n := UpperBound(s, s[0].key);
      FirstRun(s, n);
      var g' := Finish(s[n..]);
      var g := [Bucket(s[0].key, Values(s[..n], s[0].key))] + g';
      FinishStep(s, n, g', g);
      g
  }

  /** The entries before `upper_bound(s[0].key)` are exactly those with the first key. */
  lemma FirstRun<V>(s: Store<V>, n: nat)
    requires Ordered(s) && |s| > 0 && n == UpperBound(s, s[0].key)
    ensures 0 < n <= |s|
    ensures forall i | 0 <= i < n :: s[i].key == s[0].key
    ensures forall i | n <= i < |s| :: Less(s[0].key, s[i].key)
  {
    LessIrreflexive(s[0].key);
    forall i | 0 <= i < n
      ensures s[i].key == s[0].key
    {
      if i > 0 {
        LessEqAntisymmetric(s[i].key, s[0].key);
      }
    }
  }

  /** Emitting the first run of keys in front of the grouping of the rest groups the whole store. */
  lemma FinishStep<V>(s: Store<V>, n: nat, g': seq<Bucket<V>>, g: seq<Bucket<V>>)
    requires Ordered(s) && |s| > 0 && 0 < n <= |s|
    requires forall i | 0 <= i < n :: s[i].key == s[0].key
    requires forall i | n <= i < |s| :: Less(s[0].key, s[i].key)
    requires forall i, j | 0 <= i < j < |g'| :: Less(g'[i].key, g'[j].key)
    requires forall i | 0 <= i < |g'| :: g'[i].values == Values(s[n..], g'[i].key) && g'[i].values != []
    requires forall k :: HasKey(s[n..], k) <==> exists i | 0 <= i < |g'| :: g'[i].key == k
    requires g == [Bucket(s[0].key, Values(s[..n], s[0].key))] + g'
    ensures forall i, j | 0 <= i < j < |g| :: Less(g[i].key, g[j].key)
    ensures forall i | 0 <= i < |g| :: g[i].values == Values(s, g[i].key) && g[i].values != []
    ensures forall k :: HasKey(s, k) <==> exists i | 0 <= i < |g| :: g[i].key == k
  {
    FirstKeyBelowRest(s, n, g');
    FinishOrderStep(s[0].key, g', g);
    FinishValuesStep(s, n, g', g);
    FinishKeysStep(s, n, g', g);
  }

  lemma FirstKeyBelowRest<V>(s: Store<V>, n: nat, g': seq<Bucket<V>>)
    requires 0 < n <= |s|
    requires forall i | n <= i < |s| :: Less(s[0].key, s[i].key)
    requires forall k :: HasKey(s[n..], k) <==> exists i | 0 <= i < |g'| :: g'[i].key == k
    ensures forall i | 0 <= i < |g'| :: Less(s[0].key, g'[i].key)
  {
    forall i | 0 <= i < |g'|
      ensures Less(s[0].key, g'[i].key)
    {
      assert HasKey(s[n..], g'[i].key);
      var j :| 0 <= j < |s[n..]| && s[n..][j].key == g'[i].key;
      assert s[n + j].key == g'[i].key;
    }
  }

  lemma FinishOrderStep<V>(k0: string, g': seq<Bucket<V>>, g: seq<Bucket<V>>)
    requires forall i, j | 0 <= i < j < |g'| :: Less(g'[i].key, g'[j].key)
    requires forall i | 0 <= i < |g'| :: Less(k0, g'[i].key)
    requires |g| == |g'| + 1 && g[0].key == k0 && g[1..] == g'
    ensures forall i, j | 0 <= i < j < |g| :: Less(g[i].key, g[j].key)
  {
    forall i, j | 0 <= i < j < |g|
      ensures Less(g[i].key, g[j].key)
    {
      assert g[j] == g'[j - 1];
      if i > 0 {
        assert g[i] == g'[i - 1];
      }
    }
  }

  lemma FinishValuesStep<V>(s: Store<V>, n: nat, g': seq<Bucket<V>>, g: seq<Bucket<V>>)
    requires |s| > 0 && 0 < n <= |s|
    requires forall i | 0 <= i < n :: s[i].key == s[0].key
    requires forall i | n <= i < |s| :: Less(s[0].key, s[i].key)
    requires forall i | 0 <= i < |g'| :: g'[i].values == Values(s[n..], g'[i].key) && g'[i].values != []
    requires forall i | 0 <= i < |g'| :: Less(s[0].key, g'[i].key)
    requires g == [Bucket(s[0].key, Values(s[..n], s[0].key))] + g'
    ensures forall i | 0 <= i < |g| :: g[i].values == Values(s, g[i].key) && g[i].values != []
  {
    var k0 := s[0].key;
    FirstBucketValues(s, n);
    forall i | 0 <= i < |g|
      ensures g[i].values == Values(s, g[i].key) && g[i].values != []
    {
      if i > 0 {
        var k := g'[i - 1].key;
        assert g[i] == g'[i - 1];
        LessIrreflexive(k0);
        LaterBucketValues(s, n, k);
      }
    }
  }

  /** The values under the first key all sit in the first run. */
  lemma FirstBucketValues<V>(s: Store<V>, n: nat)
    requires |s| > 0 && 0 < n <= |s|
    requires forall i | 0 <= i < n :: s[i].key == s[0].key
    requires forall i | n <= i < |s| :: Less(s[0].key, s[i].key)
    ensures Values(s, s[0].key) == Values(s[..n], s[0].key) != []
  {
    var k0 := s[0].key;
    assert s == s[..n] + s[n..];
    LessIrreflexive(k0);
    assert !HasKey(s[n..], k0);
    ValuesNonEmptyIffHasKey(s[n..], k0);
    ValuesAppend(s[..n], s[n..], k0);
    assert s[..n][0].key == k0;
    ValuesNonEmptyIffHasKey(s[..n], k0);
  }

  /** The values under any other key all sit after the first run. */
  lemma LaterBucketValues<V>(s: Store<V>, n: nat, k: string)
    requires |s| > 0 && 0 < n <= |s|
    requires forall i | 0 <= i < n :: s[i].key == s[0].key
    requires k != s[0].key
    ensures Values(s, k) == Values(s[n..], k)
  {
    assert s == s[..n] + s[n..];
    assert !HasKey(s[..n], k);
    ValuesNonEmptyIffHasKey(s[..n], k);
    ValuesAppend(s[..n], s[n..], k);
  }

  lemma FinishKeysStep<V>(s: Store<V>, n: nat, g': seq<Bucket<V>>, g: seq<Bucket<V>>)
    requires |s| > 0 && 0 < n <= |s|
    requires forall i | 0 <= i < n :: s[i].key == s[0].key
    requires forall k :: HasKey(s[n..], k) <==> exists i | 0 <= i < |g'| :: g'[i].key == k
    requires g == [Bucket(s[0].key, Values(s[..n], s[0].key))] + g'
    ensures forall k :: HasKey(s, k) <==> exists i | 0 <= i < |g| :: g[i].key == k
  {
    var k0 := s[0].key;
    assert g[0].key == k0;
    forall k
      ensures HasKey(s, k) <==> exists i | 0 <= i < |g| :: g[i].key == k
    {
      if k == k0 {
        assert s[0].key == k;
        assert HasKey(s, k);
      } else {
        if HasKey(s, k) {
          var j :| 0 <= j < |s| && s[j].key == k;
          assert j >= n;
          assert s[n..][j - n].key == k;
          assert HasKey(s[n..], k);
          var i :| 0 <= i < |g'| && g'[i].key == k;
          assert g[i + 1].key == k;
        }
        if exists i | 0 <= i < |g| :: g[i].key == k {
          var i :| 0 <= i < |g| && g[i].key == k;
          assert i > 0;
          assert g'[i - 1].key == k;
          assert HasKey(s[n..], k);
          var j :| 0 <= j < |s[n..]| && s[n..][j].key == k;
          assert s[n + j].key == k;
          assert HasKey(s, k);
        }
      }
    }
  }

  /** Entries that all carry key `k` are the pairing of `k` with their values. */
  lemma {:induction false} EntriesOfRun<V>(p: seq<Entry<V>>, k: string)
    requires forall i | 0 <= i < |p| :: p[i].key == k
    ensures Entries(k, Values(p, k)) == p
    decreases |p|
  {
    if |p| > 0 {
      EntriesOfRun(p[1..], k);
      assert Values(p, k) == [p[0].value] + Values(p[1..], k);
      assert Entries(k, Values(p, k)) == [Entry(k, p[0].value)] + Entries(k, Values(p[1..], k));
    }
  }

  /** Emitting loses and invents nothing: the buckets, read in order, are the store. */
  lemma {:induction false} FlattenFinish<V>(s: Store<V>)
    requires Ordered(s)
    ensures Flatten(Finish(s)) == s
    decreases |s|
  {
    if |s| > 0 {
      var n := UpperBound(s, s[0].key);
      FirstRun(s, n);
      OrderedSuffix(s, n);
      FlattenFinish(s[n..]);
      FinishUnfold(s, n);
      FlattenFirstRun(s, n, Finish(s[n..]));
    }
  }

  lemma OrderedSuffix<V>(s: Store<V>, n: nat)
    requires Ordered(s) && n <= |s|
    ensures Ordered(s[n..])
  {
    forall i, j | 0 <= i < j < |s| - n
      ensures LessEq(s[n..][i].key, s[n..][j].key)
    {
      assert s[n..][i] == s[n + i] && s[n..][j] == s[n + j];
    }
  }

  /** The first run of equal keys, as a bucket, followed by the flattened rest is the store. */
  lemma FlattenFirstRun<V>(s: Store<V>, n: nat, rest: seq<Bucket<V>>)
    requires 0 < n <= |s|
    requires forall i | 0 <= i < n :: s[i].key == s[0].key
    requires Flatten(rest) == s[n..]
    ensures Flatten([Bucket(s[0].key, Values(s[..n], s[0].key))] + rest) == s
  {
    var b := Bucket(s[0].key, Values(s[..n], s[0].key));
    FlattenCons(b, rest);
    EntriesOfRun(s[..n], s[0].key);
    assert s[..n] + s[n..] == s;
  }

  lemma FlattenCons<V>(b: Bucket<V>, rest: seq<Bucket<V>>)
    ensures Flatten([b] + rest) == Entries(b.key, b.values) + Flatten(rest)
  {
    assert ([b] + rest)[1..] == rest;
  }

  lemma FinishUnfold<V>(s: Store<V>, n: nat)
    requires Ordered(s) && |s| > 0 && n == UpperBound(s, s[0].key) && 0 < n
    ensures Finish(s) == [Bucket(s[0].key, Values(s[..n], s[0].key))] + Finish(s[n..])
  {
  }

  /** `close`: the store is cleared. */
  function Close<V>(s: Store<V>): (r: Store<V>)
    ensures Ordered(r)
    ensures forall k :: Values(r, k) == []
  {
    []
  }
}
