/**
 * Model of PicToLev/include/container_hash.h.
 *
 * `container_hash<T, Hash>` folds the element hashes of an iterable container
 * from left to right, starting from `std::size_t()` (zero), with the mixing
 * step `seed ^ (h + 0x9E3779B9 + (seed << 6) + (seed >> 2))`. `std::size_t`
 * is 64 bits wide here, so every operation wraps modulo 2^64 (`bv64`).
 * `container_deep_hash` chooses the element hash by type: the deep hash of
 * the element type when that is iterable, the supplied `Hash` otherwise.
 */
module ContainerHash {

  import opened Arithmetic

  const GoldenRatio: bv64 := 0x9E3779B9

  /** The combining lambda passed to `std::accumulate`, with `h` the element's hash. */
  function Combine(seed: bv64, h: bv64): bv64
  {
    seed ^ (h + GoldenRatio + (seed << 6) + (seed >> 2))
  }

  /** `std::accumulate(first, last, seed, combine)` with `hash` applied to each element. */
  function Accumulate<T>(seed: bv64, xs: seq<T>, hash: T -> bv64): bv64
    decreases xs
  {
    if xs == [] then seed else Accumulate(Combine(seed, hash(xs[0])), xs[1..], hash)
  }

  /** `container_hash<T, Hash>::operator()`: the fold from the initial seed `std::size_t()`. */
  function Hash<T>(xs: seq<T>, hash: T -> bv64): bv64
  {
    Accumulate(0, xs, hash)
  }

  /** The fold is a left fold: the last element is mixed in last. */
  lemma {:induction false} AccumulateSnoc<T>(seed: bv64, xs: seq<T>, x: T, hash: T -> bv64)
    ensures Accumulate(seed, xs + [x], hash) == Combine(Accumulate(seed, xs, hash), hash(x))
    decreases xs
  {
    if xs != [] {
      assert (xs + [x])[1..] == xs[1..] + [x];
      AccumulateSnoc(Combine(seed, hash(xs[0])), xs[1..], x, hash);
    }
  }

  /** An empty container hashes to the initial seed, zero. */
  lemma HashEmpty<T>(hash: T -> bv64)
    ensures Hash([], hash) == 0
  {
  }

  /** A singleton hashes to its element's hash plus the golden-ratio constant, modulo 2^64. */
  lemma HashSingleton<T>(x: T, hash: T -> bv64)
    ensures Hash([x], hash) == hash(x) + GoldenRatio
  {
    AccumulateSnoc(0, [], x, hash);
    assert [] + [x] == [x];
    var zero: bv64 := 0;
    assert zero << 6 == 0 && zero >> 2 == 0;
  }

  /** The fold sees the elements only through their hashes, taken in order. */
  lemma {:induction false} AccumulateOfElementHashes<T, U>(seed: bv64, xs: seq<T>, hash: T -> bv64, ys: seq<U>, hash': U -> bv64)
    requires |xs| == |ys|
    requires forall i :: 0 <= i < |xs| ==> hash(xs[i]) == hash'(ys[i])
    ensures Accumulate(seed, xs, hash) == Accumulate(seed, ys, hash')
    decreases xs
  {
    if xs != [] {
      AccumulateOfElementHashes(Combine(seed, hash(xs[0])), xs[1..], hash, ys[1..], hash');
    }
  }

  /** Order matters: swapping two elements with different hashes can change the result. */
  lemma PermutationChangesHash()
    ensures Hash<bv64>([1, 0], x => x) != Hash<bv64>([0, 1], x => x)
  {
    var id := (x: bv64) => x;
    assert Hash([1, 0], id) == Combine(Combine(0, 1), 0) by {
      AccumulateSnoc(0, [1], 0, id);
      assert [1] + [0] == [1, 0];
    }
    assert Hash([0, 1], id) == Combine(Combine(0, 0), 1) by {
      AccumulateSnoc(0, [0], 1, id);
      assert [0] + [1] == [0, 1];
    }
  }

  /**
   * A value of a nested container type: a byte (a type that is not
   * iterable) or a container of values.
   */
  datatype Value = Scalar(sample: byte) | Container(elements: seq<Value>)

  /**
   * `container_deep_hash_t<T, Hash>`: a container is hashed by the fold over
   * the deep hashes of its elements; a scalar by the supplied byte hash.
   */
  function DeepHash(v: Value, hash: byte -> bv64): bv64
    decreases v, 1, 0
  {
    match v
    case Scalar(b) => hash(b)
    case Container(es) => DeepFold(0, v, 0, hash)
  }

  /** The fold over the elements of container `v` from index `i` on. */
  function DeepFold(seed: bv64, v: Value, i: nat, hash: byte -> bv64): bv64
    requires v.Container? && i <= |v.elements|
    decreases v, 0, |v.elements| - i
  {
    if i == |v.elements| then seed
    else DeepFold(Combine(seed, DeepHash(v.elements[i], hash)), v, i + 1, hash)
  }

  lemma {:induction false} DeepFoldIsAccumulate(seed: bv64, v: Value, i: nat, hash: byte -> bv64)
    requires v.Container? && i <= |v.elements|
    ensures DeepFold(seed, v, i, hash) == Accumulate(seed, v.elements[i..], e => DeepHash(e, hash))
    decreases |v.elements| - i
  {
    if i < |v.elements| {
      DeepFoldIsAccumulate(Combine(seed, DeepHash(v.elements[i], hash)), v, i + 1, hash);
      assert v.elements[i..][1..] == v.elements[i + 1..];
    }
  }

  /** The deep hash of a container is `container_hash` with the deep hash as element hash. */
  lemma DeepHashOfContainer(es: seq<Value>, hash: byte -> bv64)
    ensures DeepHash(Container(es), hash) == Hash(es, e => DeepHash(e, hash))
  {
    DeepFoldIsAccumulate(0, Container(es), 0, hash);
    assert es[0..] == es;
  }

  /** A row of samples, a tile (rows) and a composite tile (tiles) as nested values. */
  function RowValue(row: seq<byte>): Value
  {
    Container(seq(|row|, k requires 0 <= k < |row| => Scalar(row[k])))
  }

  function TileValue(tile: seq<seq<byte>>): Value
  {
    Container(seq(|tile|, j requires 0 <= j < |tile| => RowValue(tile[j])))
  }

  function CompositeValue(composite: seq<seq<seq<byte>>>): Value
  {
    Container(seq(|composite|, i requires 0 <= i < |composite| => TileValue(composite[i])))
  }

  /** The hash the tile dictionary uses for a composite tile: a fold of folds of folds of bytes. */
  function CompositeHash(composite: seq<seq<seq<byte>>>, hash: byte -> bv64): bv64
  {
    Hash(composite, tile => Hash(tile, row => Hash(row, hash)))
  }

  lemma RowDeepHash(row: seq<byte>, hash: byte -> bv64)
    ensures DeepHash(RowValue(row), hash) == Hash(row, hash)
  {
    var es := RowValue(row).elements;
    DeepHashOfContainer(es, hash);
    AccumulateOfElementHashes(0, es, e => DeepHash(e, hash), row, hash);
  }

  lemma TileDeepHash(tile: seq<seq<byte>>, hash: byte -> bv64)
    ensures DeepHash(TileValue(tile), hash) == Hash(tile, row => Hash(row, hash))
  {
    var es := TileValue(tile).elements;
    DeepHashOfContainer(es, hash);
    forall j | 0 <= j < |tile|
      ensures DeepHash(es[j], hash) == Hash(tile[j], hash)
    {
      RowDeepHash(tile[j], hash);
    }
    AccumulateOfElementHashes(0, es, e => DeepHash(e, hash), tile, row => Hash(row, hash));
  }

  /**
   * `container_deep_hash_t<tile_t, std::hash<unsigned char>>` selects, level by
   * level, exactly the fold of folds of folds that CompositeHash spells out.
   */
  lemma CompositeDeepHash(composite: seq<seq<seq<byte>>>, hash: byte -> bv64)
    ensures DeepHash(CompositeValue(composite), hash) == CompositeHash(composite, hash)
  {
    var es := CompositeValue(composite).elements;
    DeepHashOfContainer(es, hash);
    forall i | 0 <= i < |composite|
      ensures DeepHash(es[i], hash) == Hash(composite[i], row => Hash(row, hash))
    {
      TileDeepHash(composite[i], hash);
    }
    AccumulateOfElementHashes(0, es, e => DeepHash(e, hash), composite, tile => Hash(tile, row => Hash(row, hash)));
  }
}
