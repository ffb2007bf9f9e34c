/**
 * The two content-keyed dictionaries of PicToLev/src/main.cpp: the composite
 * tile dictionary (`std::unordered_map`) and the word dictionary
 * (`std::map`). Both are seeded with one entry at index 0 and filled with
 * `dictionary.emplace(key, dictionary.size())`: a key seen before keeps its
 * index, an unseen key gets the next free one. A dictionary is modelled as a
 * `map` from key to index; the hash, the ordering and the buckets of the
 * standard containers play no part in what ends up in it.
 */
module Dictionary {

  /** Some key of `d` has index `i`. */
  ghost predicate Taken<K>(d: map<K, nat>, i: nat)
  {
    exists k :: k in d && d[k] == i
  }

  /** The indices of `d` are exactly 0, 1, ..., |d| - 1, each held by one key. */
  ghost predicate Dense<K>(d: map<K, nat>)
  {
    && (forall k :: k in d ==> d[k] < |d|)
    && (forall k, k' :: k in d && k' in d && d[k] == d[k'] ==> k == k')
    && (forall i: nat :: i < |d| ==> Taken(d, i))
  }

  /** A dictionary seeded with a single key at index 0 is dense. */
  lemma SeedDense<K>(key: K)
    ensures Dense(map[key := 0])
  {
    var d := map[key := 0];
    assert key in d && d[key] == 0;
    assert Taken(d, 0);
    assert |d| == 1;
  }

  /**
   * `dictionary.emplace(key, dictionary.size())` followed by reading
   * `result.first->second`: the dictionary afterwards and the index of `key`.
   */
  function Emplace<K>(d: map<K, nat>, key: K): (map<K, nat>, nat)
  {
    if key in d then (d, d[key]) else (d[key := |d|], |d|)
  }

  /** Emplacing keeps the old entries, adds `key` and nothing else, and keeps the indices dense. */
  lemma EmplaceDense<K>(d: map<K, nat>, key: K)
    requires Dense(d)
    ensures var (d', index) := Emplace(d, key);
      && Dense(d')
      && key in d' && d'[key] == index
      && (key !in d ==> index == |d| && |d'| == |d| + 1)
      && d'.Keys == d.Keys + {key}
      && (forall k :: k in d ==> d'[k] == d[k])
  {
    if key !in d {
      var d' := d[key := |d|];
      assert |d'| == |d| + 1;
      forall k | k in d' ensures d'[k] < |d'| {
      }
      forall i: nat | i < |d'| ensures Taken(d', i) {
        if i == |d| {
          assert d'[key] == i;
        } else {
          assert Taken(d, i);
          var k :| k in d && d[k] == i;
          assert d'[k] == i;
        }
      }
    }
  }

  /**
   * Emplacing the keys one after the other, as the loops of the source do:
   * the final dictionary and the index each key received, in order.
   */
  function InternAll<K>(d: map<K, nat>, keys: seq<K>): (r: (map<K, nat>, seq<nat>))
    ensures |r.1| == |keys|
    decreases |keys|
  {
    if keys == [] then (d, [])
    else
      var prior := InternAll(d, keys[..|keys| - 1]);
      var step := Emplace(prior.0, keys[|keys| - 1]);
      (step.0, prior.1 + [step.1])
  }

  /** Emplacing one more key extends the result by one step. */
  lemma InternAllSnoc<K>(d: map<K, nat>, keys: seq<K>, key: K)
    ensures var prior := InternAll(d, keys);
      InternAll(d, keys + [key]) == (Emplace(prior.0, key).0, prior.1 + [Emplace(prior.0, key).1])
  {
    assert (keys + [key])[..|keys|] == keys;
  }

  /** Starting from a dense dictionary, the result is dense and keeps every seed entry with its index. */
  lemma {:induction false} InternAllDense<K>(d: map<K, nat>, keys: seq<K>)
    requires Dense(d)
    ensures Dense(InternAll(d, keys).0)
    ensures forall k :: k in d ==> k in InternAll(d, keys).0 && InternAll(d, keys).0[k] == d[k]
    decreases |keys|
  {
    if keys != [] {
      InternAllDense(d, keys[..|keys| - 1]);
      EmplaceDense(InternAll(d, keys[..|keys| - 1]).0, keys[|keys| - 1]);
    }
  }

  /** The result holds the seed keys and the emplaced keys, and nothing else. */
  lemma {:induction false} InternAllKeys<K>(d: map<K, nat>, keys: seq<K>)
    ensures forall k :: k in InternAll(d, keys).0 <==> k in d || k in keys
    decreases |keys|
  {
    if keys != [] {
      var init := keys[..|keys| - 1];
      InternAllKeys(d, init);
      assert keys == init + [keys[|keys| - 1]];
    }
  }

  /** Every key received the index the final dictionary maps it to. */
  lemma {:induction false} InternAllLookup<K>(d: map<K, nat>, keys: seq<K>)
    ensures forall j :: 0 <= j < |keys| ==>
      keys[j] in InternAll(d, keys).0 && InternAll(d, keys).1[j] == InternAll(d, keys).0[keys[j]]
    decreases |keys|
  {
    if keys != [] {
      var init := keys[..|keys| - 1];
      InternAllLookup(d, init);
      forall j | 0 <= j < |init| ensures keys[j] == init[j] {
      }
    }
  }

  /** Two positions receive the same index exactly when they hold equal keys. */
  lemma SameIndexIffSameKey<K>(d: map<K, nat>, keys: seq<K>, i: nat, j: nat)
    requires Dense(d) && i < |keys| && j < |keys|
    ensures InternAll(d, keys).1[i] == InternAll(d, keys).1[j] <==> keys[i] == keys[j]
  {
    InternAllDense(d, keys);
    InternAllLookup(d, keys);
  }

  /** The indices handed out for a prefix of the keys do not change afterwards. */
  lemma {:induction false} InternAllPrefix<K>(d: map<K, nat>, keys: seq<K>, n: nat)
    requires n <= |keys|
    ensures InternAll(d, keys[..n]).1 == InternAll(d, keys).1[..n]
    decreases |keys|
  {
    if n < |keys| {
      var init := keys[..|keys| - 1];
      assert keys[..n] == init[..n];
      InternAllPrefix(d, init, n);
    } else {
      assert keys[..n] == keys;
    }
  }

  /**
   * The index of the j-th key is decided by the dictionary built from the
   * keys before it: its existing index when it is already there, otherwise
   * the size of that dictionary, the next free index.
   */
  lemma FirstOccurrenceIndex<K>(d: map<K, nat>, keys: seq<K>, j: nat)
    requires j < |keys|
    ensures var before := InternAll(d, keys[..j]).0;
      InternAll(d, keys).1[j] == if keys[j] in before then before[keys[j]] else |before|
  {
    InternAllPrefix(d, keys, j + 1);
    assert keys[..j + 1][..j] == keys[..j];
  }

  /** The keys of `keys` the seed dictionary does not hold, each counted once. */
  ghost function Fresh<K>(d: map<K, nat>, keys: seq<K>): set<K>
  {
    set k | k in keys && k !in d
  }

  /**
   * A key met for the first time receives the next dense index: the size of
   * the seed plus the number of distinct new keys met before it.
   */
  lemma FirstOccurrenceCount<K>(d: map<K, nat>, keys: seq<K>, j: nat)
    requires j < |keys| && keys[j] !in d && keys[j] !in keys[..j]
    ensures InternAll(d, keys).1[j] == |d| + |Fresh(d, keys[..j])|
  {
    FirstOccurrenceIndex(d, keys, j);
    var prefix := keys[..j];
    var before := InternAll(d, prefix).0;
    var newKeys := Fresh(d, prefix);
    InternAllKeys(d, prefix);
    assert keys[j] !in before;
    DisjointUnion(before.Keys, d.Keys, newKeys);
  }

  /** A set that is the union of two disjoint sets has the sum of their sizes. */
  lemma DisjointUnion<K>(u: set<K>, a: set<K>, b: set<K>)
    requires forall k :: k in u <==> k in a || k in b
    requires forall k :: k in b ==> k !in a
    ensures |u| == |a| + |b|
  {
    assert u == a + b;
    assert a * b == {};
  }

  /** The keys in index order: the inverse of a dense dictionary. */
  ghost function Ordered<K>(d: map<K, nat>): (ordered: seq<K>)
    requires Dense(d)
    ensures |ordered| == |d|
    ensures forall i :: 0 <= i < |d| ==> ordered[i] in d && d[ordered[i]] == i
  {
    seq(|d|, i requires 0 <= i < |d| => assert Taken(d, i); var k :| k in d && d[k] == i; k)
  }

  /** Every key sits at its own index in the inverse. */
  lemma OrderedAt<K>(d: map<K, nat>, k: K)
    requires Dense(d) && k in d
    ensures d[k] < |d| && Ordered(d)[d[k]] == k
  {
  }

  /**
   * Filling `ordered_dictionary` by iterating over the dictionary and storing
   * each key at its index. The dictionary is visited in an arbitrary order;
   * the result is the same for every order.
   */
  method Invert<K(0)>(d: map<K, nat>) returns (ordered: seq<K>)
    requires Dense(d)
    ensures ordered == Ordered(d)
  {
    var a := new K[|d|];
    var rest := d.Keys;
    while rest != {}
      invariant rest <= d.Keys
      invariant forall k :: k in d && k !in rest ==> a[d[k]] == k
      decreases rest
    {
      var k :| k in rest;
      a[d[k]] := k;
      rest := rest - {k};
    }
    ordered := a[..];
    forall i | 0 <= i < |d| ensures ordered[i] == Ordered(d)[i] {
      OrderedAt(d, Ordered(d)[i]);
    }
  }
}
