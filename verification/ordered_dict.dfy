/** Python dictionaries keyed by strings, as the extractor uses them: an
    association list in insertion order with at most one entry per key.
    Assigning to an existing key keeps its position and replaces its value;
    assigning to a new key appends it.  The serializer is told to keep this
    order, so it is part of the output. */
module OrderedDict {
  import opened Outcomes

  type Dict<V> = seq<(string, V)>

  function Keys<V>(d: Dict<V>): (ks: seq<string>)
    ensures |ks| == |d|
    ensures forall i :: 0 <= i < |d| ==> ks[i] == d[i].0
  {
    if d == [] then [] else [d[0].0] + Keys(d[1..])
  }

  predicate UniqueKeys<V>(d: Dict<V>)
  {
    forall i, j :: 0 <= i < j < |d| ==> d[i].0 != d[j].0
  }

  /** `d.get(k)`. */
  function Lookup<V>(d: Dict<V>, k: string): Option<V>
  {
    if d == [] then None
    else if d[0].0 == k then Some(d[0].1)
    else Lookup(d[1..], k)
  }

  /** A key has a value exactly when it is one of the keys. */
  lemma {:induction false} LookupSomeIff<V>(d: Dict<V>, k: string)
    ensures Lookup(d, k).Some? <==> k in Keys(d)
  {
    if d != [] {
      LookupSomeIff(d[1..], k);
      assert Keys(d) == [d[0].0] + Keys(d[1..]);
    }
  }

  /** `d[k] = v`. */
  function Put<V>(d: Dict<V>, k: string, v: V): Dict<V>
  {
    if d == [] then [(k, v)]
    else if d[0].0 == k then [(k, v)] + d[1..]
    else [d[0]] + Put(d[1..], k, v)
  }

  /** Assigning to an existing key keeps the key order; a new key goes last. */
  lemma {:induction false} PutKeys<V>(d: Dict<V>, k: string, v: V)
    ensures Keys(Put(d, k, v)) == if k in Keys(d) then Keys(d) else Keys(d) + [k]
  {
    if d == [] {
      assert Keys(Put(d, k, v)) == [k];
    } else if d[0].0 == k {
      var r := [(k, v)] + d[1..];
      assert r[1..] == d[1..];
      assert Keys(r) == [k] + Keys(d[1..]) == Keys(d);
    } else {
      PutKeys(d[1..], k, v);
      var rest := Put(d[1..], k, v);
      var r := [d[0]] + rest;
      assert r[1..] == rest;
      assert Keys(d) == [d[0].0] + Keys(d[1..]);
      assert k in Keys(d) <==> k in Keys(d[1..]);
      assert Keys(r) == [d[0].0] + Keys(rest);
    }
  }

  /** After `d[k] = v`, `k` maps to `v` and every other key is unaffected. */
  lemma {:induction false} PutLookup<V>(d: Dict<V>, k: string, v: V, k': string)
    ensures Lookup(Put(d, k, v), k') == if k' == k then Some(v) else Lookup(d, k')
  {
    if d != [] && d[0].0 != k {
      PutLookup(d[1..], k, v, k');
      assert Put(d, k, v)[1..] == Put(d[1..], k, v);
    }
  }

  /** Key by key: after `d[k] = v` every old key keeps its index, and an
      index past the old keys is the new key `k`. */
  lemma PutKeysIndex<V>(d: Dict<V>, k: string, v: V, j: int)
    requires 0 <= j < |Put(d, k, v)|
    ensures j < |d| ==> Keys(Put(d, k, v))[j] == Keys(d)[j]
    ensures |d| <= j ==> j == |d| && k !in Keys(d) && Keys(Put(d, k, v))[j] == k
  {
    PutKeys(d, k, v);
  }

  /** Assignment never introduces a second entry for a key. */
  lemma PutKeepsKeysUnique<V>(d: Dict<V>, k: string, v: V)
    requires UniqueKeys(d)
    ensures UniqueKeys(Put(d, k, v))
  {
    var r := Put(d, k, v);
    PutKeys(d, k, v);
    forall i, j | 0 <= i < j < |r| ensures r[i].0 != r[j].0 {
      assert Keys(r)[i] == r[i].0 && Keys(r)[j] == r[j].0;
      if k !in Keys(d) && j == |d| {
        assert Keys(d)[i] == d[i].0;
      } else {
        assert Keys(d)[i] == d[i].0 && Keys(d)[j] == d[j].0;
      }
    }
  }

  /** `{key: f(value) for key, value in d.items()}`. */
  function MapValues<V, W>(d: Dict<V>, f: V -> W): Dict<W>
  {
    if d == [] then [] else [(d[0].0, f(d[0].1))] + MapValues(d[1..], f)
  }

  /** Mapping the values keeps the keys, in order, and so keeps them unique. */
  lemma {:induction false} MapValuesKeys<V, W>(d: Dict<V>, f: V -> W)
    ensures Keys(MapValues(d, f)) == Keys(d)
    ensures UniqueKeys(d) ==> UniqueKeys(MapValues(d, f))
  {
    MapValuesSameKeys(d, f);
    var m := MapValues(d, f);
    if UniqueKeys(d) {
      forall i, j | 0 <= i < j < |m| ensures m[i].0 != m[j].0 {
        assert Keys(m)[i] == m[i].0 && Keys(m)[j] == m[j].0;
        assert Keys(d)[i] == d[i].0 && Keys(d)[j] == d[j].0;
      }
    }
  }

  lemma {:induction false} MapValuesSameKeys<V, W>(d: Dict<V>, f: V -> W)
    ensures Keys(MapValues(d, f)) == Keys(d)
  {
    if d != [] {
      MapValuesSameKeys(d[1..], f);
      assert Keys(d) == [d[0].0] + Keys(d[1..]);
      assert MapValues(d, f)[1..] == MapValues(d[1..], f);
    }
  }

  /** Each key of the mapped dictionary holds the image of its old value. */
  lemma {:induction false} MapValuesLookup<V, W>(d: Dict<V>, f: V -> W, k: string)
    ensures Lookup(MapValues(d, f), k) == match Lookup(d, k) case None => None case Some(v) => Some(f(v))
  {
    if d != [] && d[0].0 != k {
      MapValuesLookup(d[1..], f, k);
      assert MapValues(d, f)[1..] == MapValues(d[1..], f);
    }
  }
}
