/** The growable array behind `struct jsonArray`: `json_array_create`,
    `json_array_add` and `json_array_for_each`. The `values` block becomes
    the sequence of stored values; `capacity` is kept beside it. */
module ArrayStore {
  /** `items` are `values[0..size)`. */
  datatype Vec<V> = Vec(items: seq<V>, capacity: nat)

  /** `size <= capacity`: the stored values fit in the block. */
  predicate Fits<V>(a: Vec<V>) {
    |a.items| <= a.capacity
  }

  /** `json_array_create(n)`: no values, room for `n`. */
  function CreateVec<V>(n: nat): (a: Vec<V>)
    ensures Fits(a) && a.items == [] && a.capacity == n
  {
    Vec([], n)
  }

  /** `json_array_add`, which asserts a non-zero capacity: a full block is
      first replaced by one of twice the capacity holding the same values;
      then the value goes to index `size`. */
  function Add<V>(a: Vec<V>, x: V): (r: Vec<V>)
    requires Fits(a) && 0 < a.capacity
    ensures Fits(r) && 0 < r.capacity
    ensures |r.items| == |a.items| + 1 && r.items[|a.items|] == x
    ensures forall k :: 0 <= k < |a.items| ==> r.items[k] == a.items[k]
    ensures r.capacity == if |a.items| == a.capacity then 2 * a.capacity else a.capacity
  {
    var capacity := if |a.items| == a.capacity then 2 * a.capacity else a.capacity;
    Vec(a.items + [x], capacity)
  }

  /** Adding the values `xs` one by one. */
  function AddAll<V>(a: Vec<V>, xs: seq<V>): (r: Vec<V>)
    requires Fits(a) && 0 < a.capacity
    ensures Fits(r) && 0 < r.capacity
    decreases |xs|
  {
    if |xs| == 0 then a else AddAll(Add(a, xs[0]), xs[1..])
  }

  /** `c` doubled `k` times. */
  function Doubled(c: nat, k: nat): nat {
    if k == 0 then c else 2 * Doubled(c, k - 1)
  }

  lemma {:induction false} DoubledTwice(c: nat, k: nat)
    ensures Doubled(2 * c, k) == Doubled(c, k + 1)
  {
    if k > 0 {
      DoubledTwice(c, k - 1);
    }
  }

  /** Adding values one by one appends them in order, and the capacity only
      ever doubles, and only as far as needed: after a growth the block is
      more than half full. */
  lemma {:induction false} AddAllAppends<V>(a: Vec<V>, xs: seq<V>)
    requires Fits(a) && 0 < a.capacity
    ensures AddAll(a, xs).items == a.items + xs
    ensures exists k: nat :: AddAll(a, xs).capacity == Doubled(a.capacity, k)
    ensures AddAll(a, xs).capacity == a.capacity || AddAll(a, xs).capacity < 2 * |AddAll(a, xs).items|
    decreases |xs|
  {
    if |xs| == 0 {
      assert a.capacity == Doubled(a.capacity, 0);
    } else {
      var b := Add(a, xs[0]);
      AddAllAppends(b, xs[1..]);
      assert b.items == a.items + [xs[0]];
      assert a.items + xs == b.items + xs[1..];
      var k: nat :| AddAll(b, xs[1..]).capacity == Doubled(b.capacity, k);
      if b.capacity != a.capacity {
        DoubledTwice(a.capacity, k);
      }
    }
  }

  /** `json_array_for_each` with the callback replaced by the sequence of
      (index, value) pairs it would be called with. */
  method ForEachIndexed<V>(a: Vec<V>) returns (visited: seq<(nat, V)>)
    ensures |visited| == |a.items|
    ensures forall k :: 0 <= k < |a.items| ==> visited[k] == (k, a.items[k])
  {
    visited := [];
    var i := 0;
    while i < |a.items|
      invariant i <= |a.items| && |visited| == i
      invariant forall k :: 0 <= k < i ==> visited[k] == (k, a.items[k])
    {
      visited := visited + [(i, a.items[i])];
      i := i + 1;
    }
  }
}
