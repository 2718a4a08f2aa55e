/** The open-addressing hash table behind `struct jsonObject`: djb2 `hash`,
    `json_object_add_pair`, `json_object_grow`, `json_object_get_value`
    and `json_object_for_each`. The parallel `keys`/`values` arrays become
    one sequence of slots whose length is the capacity. Keys are C strings:
    `json_object_add_pair` and `json_object_get_value` take only keys
    without a NUL byte, so `strcmp` is equality. */
module ObjectStore {
  import opened Bytes
  import opened Results

  /** 2^64: `size_t` arithmetic wraps modulo this. */
  const WORD: nat := 0x1_0000_0000_0000_0000

  /** The loop of `hash` from index `i` with running value `h`:
      `hash = ((hash << 5) + hash) + c` until the NUL. */
  function HashFrom(key: seq<byte>, i: nat, h: nat): (r: nat)
    requires h < WORD
    ensures r < WORD
    decreases |key| - i
  {
    if i >= |key| || key[i] == NUL then h
    else HashFrom(key, i + 1, (h * 33 + key[i]) % WORD)
  }

  /** djb2, starting from 5381. */
  function Hash(key: seq<byte>): (r: nat)
    ensures r < WORD
  {
    HashFrom(key, 0, 5381)
  }

  datatype Slot<V> = Empty | Entry(key: seq<byte>, value: V)

  /** A table: `slots` has one entry per unit of capacity; `size` is the
      number of occupied slots when the table is well formed. */
  datatype Store<V> = Store(slots: seq<Slot<V>>, size: nat)

  /** `hash(key) % capacity`: where probing for `key` starts. */
  function Home(key: seq<byte>, n: nat): (h: nat)
    requires 0 < n
    ensures h < n
  {
    Hash(key) % n
  }

  /** The slot `e` steps after `h` when probing with `h = (h + 1) % n`. */
  function Pos(h: nat, e: nat, n: nat): (p: nat)
    requires h < n && e < n
    ensures p < n
  {
    if h + e < n then h + e else h + e - n
  }

  /** How many probe steps lead from `h` to `p`. */
  function Dist(h: nat, p: nat, n: nat): (e: nat)
    requires h < n && p < n
    ensures e < n && Pos(h, e, n) == p
  {
    if h <= p then p - h else p + n - h
  }

  /** Some slot at least `d` steps after `h` is empty. */
  predicate VacancyAhead<V>(slots: seq<Slot<V>>, h: nat, d: nat)
    requires h < |slots|
  {
    exists e :: d <= e < |slots| && slots[Pos(h, e, |slots|)].Empty?
  }

  /** Where a probe stopped, in steps from its start: on the key, or on an
      empty slot. */
  datatype Probed = Found(offset: nat) | Vacant(offset: nat)

  /** The probe loop shared by `json_object_add_pair` and
      `json_object_get_value`, from `d` steps after `h`. It ends because
      an empty slot lies ahead. */
  function Probe<V>(slots: seq<Slot<V>>, key: seq<byte>, h: nat, d: nat): (r: Probed)
    requires h < |slots| && VacancyAhead(slots, h, d)
    ensures d <= r.offset < |slots|
    ensures forall e :: d <= e < r.offset ==>
      slots[Pos(h, e, |slots|)].Entry? && slots[Pos(h, e, |slots|)].key != key
    ensures r.Found? ==> slots[Pos(h, r.offset, |slots|)].Entry? && slots[Pos(h, r.offset, |slots|)].key == key
    ensures r.Vacant? ==> slots[Pos(h, r.offset, |slots|)].Empty?
    decreases |slots| - d
  {
    var p := Pos(h, d, |slots|);
    if slots[p].Empty? then Vacant(d)
    else if slots[p].key == key then Found(d)
    else
      assert VacancyAhead(slots, h, d + 1);
      Probe(slots, key, h, d + 1)
  }

  /** The number of occupied slots. */
  function Occupied<V>(slots: seq<Slot<V>>): (c: nat)
    ensures c <= |slots|
  {
    if |slots| == 0 then 0
    else Occupied(slots[..|slots| - 1]) + (if slots[|slots| - 1].Entry? then 1 else 0)
  }

  predicate DistinctKeys<V>(slots: seq<Slot<V>>) {
    forall p, q :: 0 <= p < q < |slots| && slots[p].Entry? && slots[q].Entry? ==> slots[p].key != slots[q].key
  }

  /** Every slot between an entry's home and the entry itself is occupied:
      a probe for the key cannot stop short of it. */
  predicate Chained<V>(slots: seq<Slot<V>>) {
    forall p, e :: 0 <= p < |slots| && slots[p].Entry? && 0 <= e < Dist(Home(slots[p].key, |slots|), p, |slots|) ==>
      slots[Pos(Home(slots[p].key, |slots|), e, |slots|)].Entry?
  }

  predicate WellFormed<V>(st: Store<V>) {
    st.size == Occupied(st.slots) && DistinctKeys(st.slots) && Chained(st.slots)
  }

  /** The key-to-value mapping held by the first `i` slots. */
  ghost function ContentsUpTo<V>(slots: seq<Slot<V>>, i: nat): map<seq<byte>, V>
    requires i <= |slots| && DistinctKeys(slots)
  {
    map p | 0 <= p < i && slots[p].Entry? :: slots[p].key := slots[p].value
  }

  /** The key-to-value mapping the table holds. */
  ghost function Contents<V>(slots: seq<Slot<V>>): map<seq<byte>, V>
    requires DistinctKeys(slots)
  {
    ContentsUpTo(slots, |slots|)
  }

  /** `json_object_create(n)`: `n` empty slots. */
  function Create<V>(n: nat): (st: Store<V>)
    ensures WellFormed(st) && |st.slots| == n && st.size == 0
    ensures Contents(st.slots) == map[]
  {
    var slots := seq(n, _ => Empty);
    EmptyOccupied(slots);
    Store(slots, 0)
  }

  lemma {:induction false} EmptyOccupied<V>(slots: seq<Slot<V>>)
    requires forall p :: 0 <= p < |slots| ==> slots[p].Empty?
    ensures Occupied(slots) == 0
  {
    if |slots| > 0 {
      EmptyOccupied(slots[..|slots| - 1]);
    }
  }

  /** A table that is not full has an empty slot. */
  lemma {:induction false} EmptySlotExists<V>(slots: seq<Slot<V>>) returns (p: nat)
    requires Occupied(slots) < |slots|
    ensures p < |slots| && slots[p].Empty?
  {
    var last := |slots| - 1;
    if slots[last].Empty? {
      p := last;
    } else {
      p := EmptySlotExists(slots[..last]);
    }
  }

  /** A table that is not full has an empty slot ahead of every start. */
  lemma VacancyEverywhere<V>(slots: seq<Slot<V>>, h: nat)
    requires h < |slots| && Occupied(slots) < |slots|
    ensures VacancyAhead(slots, h, 0)
  {
    var p := EmptySlotExists(slots);
    assert slots[Pos(h, Dist(h, p, |slots|), |slots|)].Empty?;
  }

  /** Filling an empty slot adds one to the count. */
  lemma {:induction false} OccupiedFill<V>(slots: seq<Slot<V>>, p: nat, x: Slot<V>)
    requires p < |slots| && slots[p].Empty? && x.Entry?
    ensures Occupied(slots[p := x]) == Occupied(slots) + 1
  {
    var last := |slots| - 1;
    if p < last {
      assert slots[p := x][..last] == slots[..last][p := x];
      OccupiedFill(slots[..last], p, x);
    } else {
      assert slots[p := x][..last] == slots[..last];
    }
  }

  /** A probe from the key's home that stops on an empty slot proves the
      key absent: an entry for it would have all slots from its home up to
      itself occupied. */
  lemma ProbeMissMeansAbsent<V>(slots: seq<Slot<V>>, key: seq<byte>)
    requires 0 < |slots| && Chained(slots) && VacancyAhead(slots, Home(key, |slots|), 0)
    requires Probe(slots, key, Home(key, |slots|), 0).Vacant?
    ensures forall q :: 0 <= q < |slots| && slots[q].Entry? ==> slots[q].key != key
  {
    var n, h := |slots|, Home(key, |slots|);
    var e := Probe(slots, key, h, 0).offset;
    forall q | 0 <= q < n && slots[q].Entry?
      ensures slots[q].key != key
    {
      var dq := Dist(h, q, n);
    }
  }

  /** The mapping holds exactly the keys of the occupied slots, each with
      its slot's value. */
  lemma ContentsOfSlots<V>(slots: seq<Slot<V>>)
    requires DistinctKeys(slots)
    ensures forall p :: 0 <= p < |slots| && slots[p].Entry? ==>
      slots[p].key in Contents(slots) && Contents(slots)[slots[p].key] == slots[p].value
    ensures forall k :: k in Contents(slots) <==> exists p :: 0 <= p < |slots| && slots[p].Entry? && slots[p].key == k
  {
  }

  /** Storing a new key in an empty slot keeps the keys distinct. */
  lemma FillDistinct<V>(slots: seq<Slot<V>>, p: nat, key: seq<byte>, value: V)
    requires DistinctKeys(slots) && p < |slots|
    requires forall q :: 0 <= q < |slots| && slots[q].Entry? ==> slots[q].key != key
    ensures DistinctKeys(slots[p := Entry(key, value)])
  {
  }

  /** Storing a new key in an empty slot extends the mapping by that key. */
  lemma FillContents<V>(slots: seq<Slot<V>>, p: nat, key: seq<byte>, value: V)
    requires DistinctKeys(slots) && p < |slots| && slots[p].Empty?
    requires forall q :: 0 <= q < |slots| && slots[q].Entry? ==> slots[q].key != key
    ensures DistinctKeys(slots[p := Entry(key, value)])
    ensures Contents(slots[p := Entry(key, value)]) == Contents(slots)[key := value]
  {
    var filled := slots[p := Entry(key, value)];
    FillDistinct(slots, p, key, value);
    var before, after := Contents(slots), Contents(filled);
    var m := before[key := value];
    forall k | k in after
      ensures k in m && after[k] == m[k]
    {
      var q :| 0 <= q < |filled| && filled[q].Entry? && filled[q].key == k;
      if q != p {
        assert slots[q] == filled[q];
        assert k in before;
      }
    }
    forall k | k in m
      ensures k in after
    {
      if k == key {
        assert filled[p].key == key;
      } else {
        var q :| 0 <= q < |slots| && slots[q].Entry? && slots[q].key == k;
        assert filled[q] == slots[q];
      }
    }
    assert after == m;
  }

  /** Storing a key in an empty slot reached over occupied slots from the
      key's home keeps every chain intact. */
  lemma FillChained<V>(slots: seq<Slot<V>>, p: nat, key: seq<byte>, value: V)
    requires Chained(slots) && p < |slots| && slots[p].Empty?
    requires forall e :: 0 <= e < Dist(Home(key, |slots|), p, |slots|) ==>
      slots[Pos(Home(key, |slots|), e, |slots|)].Entry?
    ensures Chained(slots[p := Entry(key, value)])
  {
  }

  /** The insertion step of `json_object_add_pair` (its growth check
      aside): probe from the key's home; on the key, change nothing (the
      `strcmp` branch returns without storing); on an empty slot, store the
      pair and count it. */
  function Place<V>(st: Store<V>, key: seq<byte>, value: V): (r: Store<V>)
    requires WellFormed(st) && st.size < |st.slots|
    ensures WellFormed(r) && |r.slots| == |st.slots|
    ensures key in Contents(st.slots) ==> r == st
    ensures key !in Contents(st.slots) ==>
      r.size == st.size + 1 && Contents(r.slots) == Contents(st.slots)[key := value]
  {
    var n := |st.slots|;
    var h := Home(key, n);
    VacancyEverywhere(st.slots, h);
    ContentsOfSlots(st.slots);
    match Probe(st.slots, key, h, 0)
    case Found(_) => st
    case Vacant(e) =>
      var p := Pos(h, e, n);
      ProbeMissMeansAbsent(st.slots, key);
      assert Dist(h, p, n) == e;
      FillContents(st.slots, p, key, value);
      FillChained(st.slots, p, key, value);
      OccupiedFill(st.slots, p, Entry(key, value));
      Store(st.slots[p := Entry(key, value)], st.size + 1)
  }

  /** Taking one more slot into account extends the mapping by that slot's
      pair, whose key the earlier slots do not hold. */
  lemma ContentsUpToStep<V>(slots: seq<Slot<V>>, i: nat)
    requires i < |slots| && DistinctKeys(slots)
    ensures slots[i].Empty? ==> ContentsUpTo(slots, i + 1) == ContentsUpTo(slots, i)
    ensures slots[i].Entry? ==>
      && slots[i].key !in ContentsUpTo(slots, i)
      && ContentsUpTo(slots, i + 1) == ContentsUpTo(slots, i)[slots[i].key := slots[i].value]
  {
    var before, after := ContentsUpTo(slots, i), ContentsUpTo(slots, i + 1);
    if slots[i].Entry? {
      var m := before[slots[i].key := slots[i].value];
      forall k | k in after
        ensures k in m && after[k] == m[k]
      {
        var q :| 0 <= q < i + 1 && slots[q].Entry? && slots[q].key == k;
        if q < i {
          assert k in before;
        }
      }
      assert after == m;
    } else {
      forall k | k in after
        ensures k in before && after[k] == before[k]
      {
        var q :| 0 <= q < i + 1 && slots[q].Entry? && slots[q].key == k;
      }
      assert after == before;
    }
  }

  /** The loop of `json_object_grow` from old slot `i`: every pair of the
      old table `src` is added, in slot order, to the doubled table `acc`.
      The loop calls `json_object_add_pair`, whose growth check cannot fire
      here: at most `|src|` pairs go into `2 * |src|` slots. */
  function Rehash<V>(src: seq<Slot<V>>, i: nat, acc: Store<V>): (r: Store<V>)
    requires i <= |src| && DistinctKeys(src)
    requires WellFormed(acc) && |acc.slots| == 2 * |src|
    requires acc.size == Occupied(src[..i]) && Contents(acc.slots) == ContentsUpTo(src, i)
    ensures WellFormed(r) && |r.slots| == 2 * |src|
    ensures r.size == Occupied(src) && Contents(r.slots) == Contents(src)
    decreases |src| - i
  {
    if i == |src| then
      assert src[..i] == src;
      acc
    else
      ContentsUpToStep(src, i);
      assert src[..i + 1][..i] == src[..i];
      match src[i]
      case Empty => Rehash(src, i + 1, acc)
      case Entry(k, v) =>
        assert 3 * acc.size < 2 * |acc.slots|;
        Rehash(src, i + 1, Place(acc, k, v))
  }

  /** `json_object_grow`: the same pairs in a table of twice the capacity.
      The C code asserts a non-zero capacity. */
  function Grow<V>(st: Store<V>): (r: Store<V>)
    requires WellFormed(st) && 0 < |st.slots|
    ensures WellFormed(r) && |r.slots| == 2 * |st.slots|
    ensures r.size == st.size && Contents(r.slots) == Contents(st.slots)
  {
    assert st.slots[..0] == [];
    Rehash(st.slots, 0, Create(2 * |st.slots|))
  }

  /** `json_object_add_pair`: grow first when `3 * size >= 2 * capacity`,
      then insert unless the key is present. A present key keeps its value
      (the first one wins). The result is a table with an empty slot
      whenever its capacity is at least 3. */
  function AddPair<V>(st: Store<V>, key: seq<byte>, value: V): (r: Store<V>)
    requires WellFormed(st) && 0 < |st.slots| && NulFree(key)
    ensures WellFormed(r)
    ensures |r.slots| == if 3 * st.size >= 2 * |st.slots| then 2 * |st.slots| else |st.slots|
    ensures key in Contents(st.slots) ==> r.size == st.size && Contents(r.slots) == Contents(st.slots)
    ensures key !in Contents(st.slots) ==>
      r.size == st.size + 1 && Contents(r.slots) == Contents(st.slots)[key := value]
    ensures 3 <= |r.slots| ==> r.size < |r.slots|
  {
    var grown := if 3 * st.size >= 2 * |st.slots| then Grow(st) else st;
    Place(grown, key, value)
  }

  /** `json_object_get_value`: probe from the key's home; a miss gives no
      value. The C code divides by the capacity, so it must be non-zero,
      and the probe ends only because some slot is empty. */
  function Get<V>(st: Store<V>, key: seq<byte>): (r: Option<V>)
    requires WellFormed(st) && 0 < |st.slots| && st.size < |st.slots| && NulFree(key)
    ensures r == if key in Contents(st.slots) then Some(Contents(st.slots)[key]) else None
  {
    var n := |st.slots|;
    var h := Home(key, n);
    VacancyEverywhere(st.slots, h);
    ContentsOfSlots(st.slots);
    match Probe(st.slots, key, h, 0)
    case Found(e) => Some(st.slots[Pos(h, e, n)].value)
    case Vacant(_) =>
      ProbeMissMeansAbsent(st.slots, key);
      None
  }

  /** The pairs of the first `i` slots' occupied slots, in slot order. */
  function EntriesBefore<V>(slots: seq<Slot<V>>, i: nat): seq<(seq<byte>, V)>
    requires i <= |slots|
  {
    if i == 0 then []
    else
      var s := slots[i - 1];
      EntriesBefore(slots, i - 1) + (if s.Entry? then [(s.key, s.value)] else [])
  }

  /** The pairs of the occupied slots in slot order. */
  function Entries<V>(slots: seq<Slot<V>>): seq<(seq<byte>, V)> {
    EntriesBefore(slots, |slots|)
  }

  /** `json_object_for_each` with the callback replaced by the sequence of
      pairs it would be called with: nothing when `size` is 0, otherwise
      every occupied slot in index order. */
  method ForEach<V>(st: Store<V>) returns (visited: seq<(seq<byte>, V)>)
    ensures st.size == 0 ==> visited == []
    ensures st.size != 0 ==> visited == Entries(st.slots)
  {
    visited := [];
    if st.size == 0 {
      return;
    }
    var i := 0;
    while i < |st.slots|
      invariant i <= |st.slots|
      invariant visited == EntriesBefore(st.slots, i)
    {
      if st.slots[i].Entry? {
        visited := visited + [(st.slots[i].key, st.slots[i].value)];
      }
      i := i + 1;
    }
  }

  /** One entry per occupied slot. */
  lemma {:induction false} EntriesCount<V>(slots: seq<Slot<V>>, i: nat)
    requires i <= |slots|
    ensures |EntriesBefore(slots, i)| == Occupied(slots[..i])
  {
    if i > 0 {
      EntriesCount(slots, i - 1);
      assert slots[..i][..i - 1] == slots[..i - 1];
    }
  }

  /** The entries of the first `i` slots are the pairs of the mapping
      those slots hold. */
  lemma {:induction false} EntriesMembers<V>(slots: seq<Slot<V>>, i: nat)
    requires DistinctKeys(slots) && i <= |slots|
    ensures forall x :: x in EntriesBefore(slots, i) ==>
      x.0 in ContentsUpTo(slots, i) && ContentsUpTo(slots, i)[x.0] == x.1
    ensures forall k :: k in ContentsUpTo(slots, i) ==> (k, ContentsUpTo(slots, i)[k]) in EntriesBefore(slots, i)
  {
    if i > 0 {
      EntriesMembers(slots, i - 1);
      ContentsUpToStep(slots, i - 1);
    }
  }

  /** Every entry comes from an occupied slot before `i`. */
  lemma {:induction false} EntriesFrom<V>(slots: seq<Slot<V>>, i: nat)
    requires i <= |slots|
    ensures forall x :: x in EntriesBefore(slots, i) ==> exists q :: 0 <= q < i && slots[q] == Entry(x.0, x.1)
  {
    if i > 0 {
      EntriesFrom(slots, i - 1);
    }
  }

  /** No key appears twice among the entries. */
  lemma {:induction false} EntriesDistinct<V>(slots: seq<Slot<V>>, i: nat)
    requires DistinctKeys(slots) && i <= |slots|
    ensures forall a, b :: 0 <= a < b < |EntriesBefore(slots, i)| ==>
      EntriesBefore(slots, i)[a].0 != EntriesBefore(slots, i)[b].0
  {
    if i > 0 {
      EntriesDistinct(slots, i - 1);
      var e, s := EntriesBefore(slots, i - 1), slots[i - 1];
      if s.Entry? {
        EntriesFrom(slots, i - 1);
        var all := e + [(s.key, s.value)];
        forall a, b | 0 <= a < b < |all|
          ensures all[a].0 != all[b].0
        {
          if b == |e| {
            assert all[a] == e[a] && e[a] in e;
            var q :| 0 <= q < i - 1 && slots[q] == Entry(e[a].0, e[a].1);
          }
        }
      }
    }
  }

  /** What `json_object_for_each` visits on a well-formed table: exactly
      the pairs of its mapping, `size` of them, each key once. */
  lemma ForEachVisitsContents<V>(st: Store<V>)
    requires WellFormed(st)
    ensures |Entries(st.slots)| == st.size
    ensures forall x :: x in Entries(st.slots) ==>
      x.0 in Contents(st.slots) && Contents(st.slots)[x.0] == x.1
    ensures forall k :: k in Contents(st.slots) ==> (k, Contents(st.slots)[k]) in Entries(st.slots)
    ensures forall a, b :: 0 <= a < b < |Entries(st.slots)| ==> Entries(st.slots)[a].0 != Entries(st.slots)[b].0
  {
    EntriesCount(st.slots, |st.slots|);
    EntriesMembers(st.slots, |st.slots|);
    EntriesDistinct(st.slots, |st.slots|);
    assert st.slots[..|st.slots|] == st.slots;
  }

  /** Every pair in the table after `json_object_add_pair` is the added
      one or was in the table before. */
  lemma AddPairEntries<V>(st: Store<V>, key: seq<byte>, value: V)
    requires WellFormed(st) && 0 < |st.slots| && NulFree(key)
    ensures forall p :: 0 <= p < |AddPair(st, key, value).slots| && AddPair(st, key, value).slots[p].Entry? ==>
      AddPair(st, key, value).slots[p] == Entry(key, value) || AddPair(st, key, value).slots[p] in st.slots
  {
    var r := AddPair(st, key, value);
    ContentsOfSlots(st.slots);
    ContentsOfSlots(r.slots);
    forall p | 0 <= p < |r.slots| && r.slots[p].Entry? && r.slots[p] != Entry(key, value)
      ensures r.slots[p] in st.slots
    {
      var k := r.slots[p].key;
      assert k in Contents(st.slots);
      var q :| 0 <= q < |st.slots| && st.slots[q].Entry? && st.slots[q].key == k;
      assert st.slots[q] == r.slots[p];
    }
  }

  /** After `json_object_add_pair`, `json_object_get_value` finds the key
      with its first value, and every other key as before. */
  lemma AddPairThenGet<V>(st: Store<V>, key: seq<byte>, value: V, other: seq<byte>)
    requires WellFormed(st) && 3 <= |st.slots| && NulFree(key) && NulFree(other)
    ensures Get(AddPair(st, key, value), key) ==
      Some(if key in Contents(st.slots) then Contents(st.slots)[key] else value)
    ensures other != key ==>
      Get(AddPair(st, key, value), other) == (if other in Contents(st.slots) then Some(Contents(st.slots)[other]) else None)
  {
  }

  /** `hash` reads up to the first NUL: the end of the C string. */
  lemma {:induction false} HashFromStopsAtNul(key: seq<byte>, i: nat, h: nat, z: nat)
    requires h < WORD && i <= z <= |key| && (z == |key| || key[z] == NUL)
    ensures HashFrom(key, i, h) == HashFrom(key[..z], i, h)
    decreases |key| - i
  {
    if i < z && key[i] != NUL {
      HashFromStopsAtNul(key, i + 1, (h * 33 + key[i]) % WORD, z);
    }
  }

  /** Bytes after a NUL do not change the hash, so a key and its C-string
      view start probing at the same slot. */
  lemma HashOfCString(key: seq<byte>)
    ensures Hash(key) == Hash(CString(key))
  {
    HashFromStopsAtNul(key, 0, 5381, |CString(key)|);
  }

  /** Appending a byte other than NUL to a NUL-free key takes the loop one
      step further. */
  lemma {:induction false} HashFromAppend(key: seq<byte>, c: byte, i: nat, h: nat)
    requires h < WORD && i <= |key| && NulFree(key) && c != NUL
    ensures HashFrom(key + [c], i, h) == (HashFrom(key, i, h) * 33 + c) % WORD
    decreases |key| - i
  {
    if i < |key| {
      assert (key + [c])[i] == key[i];
      HashFromAppend(key, c, i + 1, (h * 33 + key[i]) % WORD);
    } else {
      assert (key + [c])[i] == c;
      assert HashFrom(key + [c], i + 1, (h * 33 + c) % WORD) == (h * 33 + c) % WORD;
    }
  }

  /** djb2 as a recurrence over the key's bytes: the empty key hashes to
      5381, and each further byte multiplies by 33 and adds the byte,
      modulo 2^64. */
  lemma HashAppend(key: seq<byte>, c: byte)
    requires NulFree(key) && c != NUL
    ensures Hash(key + [c]) == (Hash(key) * 33 + c) % WORD
  {
    HashFromAppend(key, c, 0, 5381);
  }

  /** djb2 of the empty key is its seed; of "a" it is 5381 * 33 + 'a'. */
  lemma HashExamples()
    ensures Hash([]) == 5381
    ensures Hash([0x61]) == 177670
  {
    assert HashFrom([0x61], 1, 177670) == 177670;
  }
}
