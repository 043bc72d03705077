/** The fixed-capacity separate-chaining hash table: an array of
    DEFAULT_CAPACITY buckets, each the head of a chain, with `put` and `get`.
    The table is a value; `Put` returns the table after the update, and an
    operation that would throw returns `NullPointer` instead. */
module HashTable {
  import opened Java
  import opened Hashing
  import opened Chains

  /** The bucket array; bucket `i` is the chain whose head is `table[i]`. */
  datatype Table<K, V> = Table(buckets: seq<Chain<K, V>>)

  /** `new MyHashTable()`: DEFAULT_CAPACITY empty buckets. */
  function New<K, V>(): (t: Table<K, V>)
    ensures |t.buckets| == DEFAULT_CAPACITY
    ensures forall i :: 0 <= i < |t.buckets| ==> |t.buckets[i]| == 0
  {
    Table(seq(DEFAULT_CAPACITY, _ => []))
  }

  /** `get(key)`: scan the key's bucket; `None` is the model's "absent". */
  function Get<K(==), V>(hashCode: K -> bv32, t: Table<K, V>, key: Ref<K>): (r: Outcome<Option<Ref<V>>>)
    requires |t.buckets| == DEFAULT_CAPACITY
    ensures var c := t.buckets[Hash(hashCode, key)];
            r == Normal(None) <==> forall j :: 0 <= j < |c| ==> Passes(c[j], key)
    ensures var c := t.buckets[Hash(hashCode, key)];
            r.Normal? && r.value.Some? ==> key.Obj? && exists j :: 0 <= j < |c| && c[j] == Node(key, r.value.value)
  {
    ChainGet(t.buckets[Hash(hashCode, key)], key)
  }

  /** What Java's `get` returns: absence and a stored `null` both come back
      as `null`. */
  function JavaGet<K(==), V>(hashCode: K -> bv32, t: Table<K, V>, key: Ref<K>): (r: Outcome<Ref<V>>)
    requires |t.buckets| == DEFAULT_CAPACITY
    ensures r == NullPointer <==> Get(hashCode, t, key) == NullPointer
    ensures r == Normal(Null) <==> Get(hashCode, t, key) in {Normal(None), Normal(Some(Null))}
    ensures r.Normal? && r.value.Obj? ==> Get(hashCode, t, key) == Normal(Some(r.value))
  {
    match Get(hashCode, t, key)
    case NullPointer => NullPointer
    case Normal(None) => Normal(Null)
    case Normal(Some(v)) => Normal(v)
  }

  /** `put(key, value)`: update the key's bucket and no other; it throws
      exactly when the same scan in `get` would. */
  function Put<K(==), V>(hashCode: K -> bv32, t: Table<K, V>, key: Ref<K>, value: Ref<V>): (r: Outcome<Table<K, V>>)
    requires |t.buckets| == DEFAULT_CAPACITY
    ensures r.Normal? <==> Get(hashCode, t, key).Normal?
    ensures r.Normal? ==> |r.value.buckets| == DEFAULT_CAPACITY
    ensures r.Normal? ==>
              forall i :: 0 <= i < DEFAULT_CAPACITY && i != Hash(hashCode, key) ==> r.value.buckets[i] == t.buckets[i]
  {
    var index := Hash(hashCode, key);
    match ChainPut(t.buckets[index], key, value)
    case NullPointer => NullPointer
    case Normal(c) => Normal(Table(t.buckets[index := c]))
  }

  // ---------------------------------------------------------------------
  // Invariants

  /** Every node sits in the bucket its key hashes to. */
  ghost predicate Placed<K, V>(hashCode: K -> bv32, bs: seq<Chain<K, V>>)
  {
    forall i, j :: 0 <= i < |bs| && 0 <= j < |bs[i]| ==> Hash(hashCode, bs[i][j].key) == i
  }

  /** The invariant `put` keeps for every key, null included: the array has
      DEFAULT_CAPACITY buckets, nodes are placed by their hash, and no chain
      repeats a key. */
  ghost predicate WellFormed<K, V>(hashCode: K -> bv32, t: Table<K, V>)
  {
    && |t.buckets| == DEFAULT_CAPACITY
    && Placed(hashCode, t.buckets)
    && forall i :: 0 <= i < |t.buckets| ==> UniqueKeys(t.buckets[i])
  }

  /** A well-formed table that holds no null key: the tables on which the
      operations never throw. */
  ghost predicate Valid<K, V>(hashCode: K -> bv32, t: Table<K, V>)
  {
    && WellFormed(hashCode, t)
    && forall i :: 0 <= i < |t.buckets| ==> NullFree(t.buckets[i])
  }

  // ---------------------------------------------------------------------
  // Abstraction

  /** The map a bucket array denotes: the union of what its chains denote.
      It does not mention hashing. */
  function Contents<K, V>(bs: seq<Chain<K, V>>): map<K, Ref<V>>
    decreases |bs|
  {
    if bs == [] then map[]
    else Contents(bs[..|bs| - 1]) + Entries(bs[|bs| - 1])
  }

  /** The number of nodes in a bucket array. */
  function Size<K, V>(bs: seq<Chain<K, V>>): nat
    decreases |bs|
  {
    if bs == [] then 0
    else Size(bs[..|bs| - 1]) + |bs[|bs| - 1]|
  }

  /** Two maps that answer every lookup alike are equal. */
  lemma LookupExtensional<K, V>(m: map<K, V>, m': map<K, V>)
    requires forall k :: Lookup(m, k) == Lookup(m', k)
    ensures m == m'
  {
    assert forall k :: k in m <==> Lookup(m, k).Some?;
    assert forall k :: k in m ==> m[k] == Lookup(m', k).value;
  }

  /** Dropping the last bucket keeps the placement invariant. */
  lemma PlacedFront<K, V>(hashCode: K -> bv32, bs: seq<Chain<K, V>>)
    requires Placed(hashCode, bs) && bs != []
    ensures Placed(hashCode, bs[..|bs| - 1])
  {
    var front: seq<Chain<K, V>> := bs[..|bs| - 1];
    forall i, j | 0 <= i < |front| && 0 <= j < |front[i]|
      ensures Hash(hashCode, front[i][j].key) == i
    {
      assert front[i] == bs[i];
    }
  }

  /** Under the placement invariant, a key is found in the denoted map
      exactly when it is in the chain of its own bucket. */
  lemma {:induction false} ContentsAt<K, V>(hashCode: K -> bv32, bs: seq<Chain<K, V>>, k: K)
    requires Placed(hashCode, bs)
    ensures Lookup(Contents(bs), k) ==
              if Hash(hashCode, Obj(k)) < |bs| then Lookup(Entries(bs[Hash(hashCode, Obj(k))]), k) else None
    decreases |bs|
  {
    if bs != [] {
      var n := |bs| - 1;
      var front := bs[..n];
      var h := Hash(hashCode, Obj(k));
      PlacedFront(hashCode, bs);
      ContentsAt(hashCode, front, k);
      if k in Entries(bs[n]) {
        EntryInOwnBucket(hashCode, bs, n, k);
      } else if h < n {
        assert front[h] == bs[h];
      }
    }
  }

  /** A key a bucket denotes hashes to that bucket. */
  lemma EntryInOwnBucket<K, V>(hashCode: K -> bv32, bs: seq<Chain<K, V>>, i: nat, k: K)
    requires Placed(hashCode, bs) && i < |bs|
    requires k in Entries(bs[i])
    ensures Hash(hashCode, Obj(k)) == i
  {
    EntriesKeys(bs[i], k);
    var j :| 0 <= j < |bs[i]| && bs[i][j].key == Obj(k);
  }

  /** An array of empty buckets denotes the empty map and holds no node. */
  lemma {:induction false} EmptyBuckets<K, V>(bs: seq<Chain<K, V>>)
    requires forall i :: 0 <= i < |bs| ==> bs[i] == []
    ensures Contents(bs) == map[]
    ensures Size(bs) == 0
    decreases |bs|
  {
    if bs != [] {
      var front := bs[..|bs| - 1];
      assert forall i :: 0 <= i < |front| ==> front[i] == bs[i];
      EmptyBuckets(front);
    }
  }

  /** Without null keys or repeated keys, the node count is the size of the
      denoted map: chains in different buckets never share a key. */
  lemma {:induction false} SizeCountsContents<K, V>(hashCode: K -> bv32, bs: seq<Chain<K, V>>)
    requires Placed(hashCode, bs)
    requires forall i :: 0 <= i < |bs| ==> NullFree(bs[i]) && UniqueKeys(bs[i])
    ensures Size(bs) == |Contents(bs)|
    decreases |bs|
  {
    if bs != [] {
      var n := |bs| - 1;
      var front := bs[..n];
      PlacedFront(hashCode, bs);
      assert forall i :: 0 <= i < |front| ==> front[i] == bs[i];
      SizeCountsContents(hashCode, front);
      EntriesCount(bs[n]);
      LastBucketDisjoint(hashCode, bs);
      DisjointUnionSize(Contents(front), Entries(bs[n]));
    }
  }

  /** Under the placement invariant, the last bucket shares no key with the
      buckets before it. */
  lemma LastBucketDisjoint<K, V>(hashCode: K -> bv32, bs: seq<Chain<K, V>>)
    requires Placed(hashCode, bs) && bs != []
    ensures Contents(bs[..|bs| - 1]).Keys !! Entries(bs[|bs| - 1]).Keys
  {
    var n := |bs| - 1;
    PlacedFront(hashCode, bs);
    forall k | k in Contents(bs[..n])
      ensures k !in Entries(bs[n])
    {
      ContentsAt(hashCode, bs[..n], k);
      if k in Entries(bs[n]) {
        EntryInOwnBucket(hashCode, bs, n, k);
      }
    }
  }

  /** The union of maps with disjoint keys has as many keys as both. */
  lemma DisjointUnionSize<K, V>(m: map<K, V>, m': map<K, V>)
    requires m.Keys !! m'.Keys
    ensures |m + m'| == |m| + |m'|
  {
    assert (m + m').Keys == m.Keys + m'.Keys;
    assert |m.Keys + m'.Keys| == |m.Keys| + |m'.Keys|;
  }

  // ---------------------------------------------------------------------
  // Properties of the constructor and the operations

  /** The constructor establishes the invariants and yields an empty map
      holding no node. */
  lemma NewIsEmpty<K, V>(hashCode: K -> bv32)
    ensures Valid(hashCode, New<K, V>())
    ensures Contents(New<K, V>().buckets) == map[]
    ensures Size(New<K, V>().buckets) == 0
  {
    EmptyBuckets(New<K, V>().buckets);
  }

  /** On a valid table `get` never throws and answers from the denoted map;
      a null key is simply absent. */
  lemma GetAgrees<K, V>(hashCode: K -> bv32, t: Table<K, V>, k: K)
    requires Valid(hashCode, t)
    ensures Get(hashCode, t, Obj(k)) == Normal(Lookup(Contents(t.buckets), k))
    ensures Get(hashCode, t, Null) == Normal(None)
  {
    ChainGetAgrees(t.buckets[Hash(hashCode, Obj(k))], k);
    ContentsAt(hashCode, t.buckets, k);
  }

  /** `put` keeps the placement and unique-key invariants, whatever the key,
      whenever it returns normally. */
  lemma PutPreservesWellFormed<K, V>(hashCode: K -> bv32, t: Table<K, V>, key: Ref<K>, v: Ref<V>)
    requires WellFormed(hashCode, t)
    requires Put(hashCode, t, key, v).Normal?
    ensures WellFormed(hashCode, Put(hashCode, t, key, v).value)
  {
    var h := Hash(hashCode, key);
    var c := t.buckets[h];
    var t' := Put(hashCode, t, key, v).value;
    var c' := t'.buckets[h];
    ChainPutKeys(c, key, v);
    assert t'.buckets == t.buckets[h := c'];
    forall j | 0 <= j < |c'|
      ensures Hash(hashCode, c'[j].key) == h
    {
      if c'[j].key != key {
        var i :| 0 <= i < |c| && c[i].key == c'[j].key;
      }
    }
  }

  /** On a valid table `put` of a non-null key never throws, keeps the table
      valid, and updates the denoted map at that key alone. */
  lemma PutAgrees<K, V>(hashCode: K -> bv32, t: Table<K, V>, k: K, v: Ref<V>)
    requires Valid(hashCode, t)
    ensures Put(hashCode, t, Obj(k), v).Normal?
    ensures Valid(hashCode, Put(hashCode, t, Obj(k), v).value)
    ensures Contents(Put(hashCode, t, Obj(k), v).value.buckets) == Contents(t.buckets)[k := v]
  {
    var h := Hash(hashCode, Obj(k));
    ChainPutAgrees(t.buckets[h], k, v);
    var t' := Put(hashCode, t, Obj(k), v).value;
    PutPreservesWellFormed(hashCode, t, Obj(k), v);
    assert t'.buckets == t.buckets[h := t'.buckets[h]];
    ContentsReplaceBucket(hashCode, t.buckets, t'.buckets[h], k, v);
  }

  /** Replacing the chain of `k`'s bucket by one that denotes the old chain
      updated at `k` updates the whole table's map at `k` alone. */
  lemma ContentsReplaceBucket<K, V>(hashCode: K -> bv32, bs: seq<Chain<K, V>>, c': Chain<K, V>, k: K, v: Ref<V>)
    requires Hash(hashCode, Obj(k)) < |bs|
    requires Placed(hashCode, bs)
    requires Placed(hashCode, bs[Hash(hashCode, Obj(k)) := c'])
    requires Entries(c') == Entries(bs[Hash(hashCode, Obj(k))])[k := v]
    ensures Contents(bs[Hash(hashCode, Obj(k)) := c']) == Contents(bs)[k := v]
  {
    var bs' := bs[Hash(hashCode, Obj(k)) := c'];
    forall k' ensures Lookup(Contents(bs'), k') == Lookup(Contents(bs)[k := v], k') {
      ContentsAt(hashCode, bs, k');
      ContentsAt(hashCode, bs', k');
    }
    LookupExtensional(Contents(bs'), Contents(bs)[k := v]);
  }

  /** Round trip: once `put(k, v)` has returned, `get(k)` returns `v`. This
      holds on any table, valid or not, for a non-null key. */
  lemma PutThenGet<K, V>(hashCode: K -> bv32, t: Table<K, V>, k: K, v: Ref<V>)
    requires |t.buckets| == DEFAULT_CAPACITY
    requires Put(hashCode, t, Obj(k), v).Normal?
    ensures Get(hashCode, Put(hashCode, t, Obj(k), v).value, Obj(k)) == Normal(Some(v))
  {
    var h := Hash(hashCode, Obj(k));
    var c := t.buckets[h];
    var c' := Put(hashCode, t, Obj(k), v).value.buckets[h];
    if Scan(c, Obj(k)) != Normal(None) {
      var i := Scan(c, Obj(k)).value.value;
      assert c' == c[i := Node(c[i].key, v)];
      ScanSeesKeysOnly(c, c', Obj(k));
    }
  }

  /** Frame: `put(k, v)` leaves the answer of `get` for every other key,
      null included, as it was. */
  lemma PutFrame<K, V>(hashCode: K -> bv32, t: Table<K, V>, k: K, v: Ref<V>, other: Ref<K>)
    requires |t.buckets| == DEFAULT_CAPACITY
    requires Put(hashCode, t, Obj(k), v).Normal?
    requires other != Obj(k)
    ensures Get(hashCode, Put(hashCode, t, Obj(k), v).value, other) == Get(hashCode, t, other)
  {
    var h := Hash(hashCode, Obj(k));
    if Hash(hashCode, other) == h {
      ChainPutFrame(t.buckets[h], k, v, other);
    }
  }

  /** Overwrite: when `k` is already reachable in its bucket, `put(k, v)`
      changes that node's value and nothing else in the chain; the chain
      keeps its length and order. */
  lemma PutOverwrites<K, V>(hashCode: K -> bv32, t: Table<K, V>, k: K, v: Ref<V>)
    requires |t.buckets| == DEFAULT_CAPACITY
    requires Get(hashCode, t, Obj(k)).Normal? && Get(hashCode, t, Obj(k)).value.Some?
    ensures Put(hashCode, t, Obj(k), v).Normal?
    ensures var h := Hash(hashCode, Obj(k));
            var c, c' := t.buckets[h], Put(hashCode, t, Obj(k), v).value.buckets[h];
            && |c'| == |c|
            && exists i :: && 0 <= i < |c|
                           && c[i].key == Obj(k)
                           && c'[i] == Node(Obj(k), v)
                           && forall j :: 0 <= j < |c| && j != i ==> c'[j] == c[j]
  {
    var h := Hash(hashCode, Obj(k));
    var i := Scan(t.buckets[h], Obj(k)).value.value;
    assert t.buckets[h][i].key == Obj(k);
  }

  /** Insert: when the scan of `key`'s bucket runs off the end, `put` links a
      new node in front of the old chain, which follows unchanged. This
      holds for a null key too. */
  lemma PutInsertsAtHead<K, V>(hashCode: K -> bv32, t: Table<K, V>, key: Ref<K>, v: Ref<V>)
    requires |t.buckets| == DEFAULT_CAPACITY
    requires Get(hashCode, t, key) == Normal(None)
    ensures var h := Hash(hashCode, key);
            Put(hashCode, t, key, v) == Normal(Table(t.buckets[h := [Node(key, v)] + t.buckets[h]]))
  {
  }

  /** Re-inserting the same pair leaves the table exactly as the first
      insertion left it. */
  lemma PutIdempotent<K, V>(hashCode: K -> bv32, t: Table<K, V>, k: K, v: Ref<V>)
    requires |t.buckets| == DEFAULT_CAPACITY
    requires Put(hashCode, t, Obj(k), v).Normal?
    ensures Put(hashCode, Put(hashCode, t, Obj(k), v).value, Obj(k), v) == Put(hashCode, t, Obj(k), v)
  {
    var h := Hash(hashCode, Obj(k));
    var c := t.buckets[h];
    var t1 := Put(hashCode, t, Obj(k), v).value;
    var c1 := t1.buckets[h];
    if Scan(c, Obj(k)) == Normal(None) {
      assert c1 == [Node(Obj(k), v)] + c;
      assert Scan(c1, Obj(k)) == Normal(Some(0));
      assert c1[0 := Node(c1[0].key, v)] == c1;
      assert t1.buckets[h := c1] == t1.buckets;
    } else {
      var i := Scan(c, Obj(k)).value.value;
      assert c1 == c[i := Node(c[i].key, v)];
      ScanSeesKeysOnly(c, c1, Obj(k));
      assert c1[i := Node(c1[i].key, v)] == c1;
      assert t1.buckets[h := c1] == t1.buckets;
    }
  }

  /** Updating a map adds one key exactly when the key was absent. */
  lemma UpdateSize<K, V>(m: map<K, V>, k: K, v: V)
    ensures |m[k := v]| == |m| + (if k in m then 0 else 1)
  {
    if k in m {
      assert m[k := v].Keys == m.Keys;
    } else {
      assert m[k := v].Keys == m.Keys + {k};
    }
  }

  /** The node count grows by one when `put` adds a key and stays the same
      when it overwrites one. */
  lemma PutCount<K, V>(hashCode: K -> bv32, t: Table<K, V>, k: K, v: Ref<V>)
    requires Valid(hashCode, t)
    ensures Put(hashCode, t, Obj(k), v).Normal?
    ensures Size(Put(hashCode, t, Obj(k), v).value.buckets) ==
              Size(t.buckets) + (if k in Contents(t.buckets) then 0 else 1)
  {
    var t' := Put(hashCode, t, Obj(k), v).value;
    PutAgrees(hashCode, t, k, v);
    SizeCountsContents(hashCode, t.buckets);
    SizeCountsContents(hashCode, t'.buckets);
    UpdateSize(Contents(t.buckets), k, v);
  }

  /** A null key does not round-trip. `put(null, v)` succeeds while bucket 0
      holds no null key, and links a null-keyed node at the head of bucket 0;
      from then on every `get` or `put` of a key in bucket 0, `null`
      included, dereferences that null key and throws. */
  lemma NullKeyPoisonsBucketZero<K, V>(hashCode: K -> bv32, t: Table<K, V>, v: Ref<V>)
    requires |t.buckets| == DEFAULT_CAPACITY
    requires Get(hashCode, t, Null) == Normal(None)
    ensures Put(hashCode, t, Null, v).Normal?
    ensures Put(hashCode, t, Null, v).value.buckets[0] == [Node(Null, v)] + t.buckets[0]
    ensures var t' := Put(hashCode, t, Null, v).value;
            forall key :: Hash(hashCode, key) == 0 ==> Get(hashCode, t', key) == NullPointer
    ensures var t' := Put(hashCode, t, Null, v).value;
            forall key, w :: Hash(hashCode, key) == 0 ==> Put(hashCode, t', key, w) == NullPointer
  {
  }

  /** Java's `get` cannot tell a stored `null` from a missing key, while the
      model's `Get` can. */
  lemma NullValueLooksAbsent<K, V>(hashCode: K -> bv32, t: Table<K, V>, k: K)
    requires Valid(hashCode, t)
    requires k !in Contents(t.buckets)
    ensures Put(hashCode, t, Obj(k), Null).Normal?
    ensures JavaGet(hashCode, t, Obj(k)) == Normal(Null)
    ensures JavaGet(hashCode, Put(hashCode, t, Obj(k), Null).value, Obj(k)) == Normal(Null)
    ensures Get(hashCode, t, Obj(k)) == Normal(None)
    ensures Get(hashCode, Put(hashCode, t, Obj(k), Null).value, Obj(k)) == Normal(Some(Null))
  {
    GetAgrees(hashCode, t, k);
    PutAgrees(hashCode, t, k, Null);
    PutThenGet(hashCode, t, k, Null);
  }

  // ---------------------------------------------------------------------
  // A caller's sequence of puts

  /** `put` applied to each (key, value) record in order, as a loader or a
      benchmark's write loop does; the keys are non-null. */
  function PutAll<K(==), V>(hashCode: K -> bv32, t: Table<K, V>, records: seq<(K, Ref<V>)>): (r: Outcome<Table<K, V>>)
    requires |t.buckets| == DEFAULT_CAPACITY
    ensures r.Normal? ==> |r.value.buckets| == DEFAULT_CAPACITY
    decreases |records|
  {
    if records == [] then Normal(t)
    else
      match Put(hashCode, t, Obj(records[0].0), records[0].1)
      case NullPointer => NullPointer
      case Normal(t1) => PutAll(hashCode, t1, records[1..])
  }

  /** The map after the same records are written into a map in order. */
  function Apply<K, V>(m: map<K, V>, records: seq<(K, V)>): map<K, V>
    decreases |records|
  {
    if records == [] then m else Apply(m[records[0].0 := records[0].1], records[1..])
  }

  /** A key no record mentions keeps its lookup through `Apply`. */
  lemma {:induction false} ApplyElsewhere<K, V>(m: map<K, V>, records: seq<(K, V)>, k: K)
    requires forall i :: 0 <= i < |records| ==> records[i].0 != k
    ensures Lookup(Apply(m, records), k) == Lookup(m, k)
    decreases |records|
  {
    if records != [] {
      assert forall i :: 0 <= i < |records| - 1 ==> records[1..][i] == records[i + 1];
      ApplyElsewhere(m[records[0].0 := records[0].1], records[1..], k);
    }
  }

  /** On a valid table a sequence of puts never throws, keeps the table
      valid, and denotes the map the same writes make. */
  lemma {:induction false} PutAllAgrees<K, V>(hashCode: K -> bv32, t: Table<K, V>, records: seq<(K, Ref<V>)>)
    requires Valid(hashCode, t)
    ensures PutAll(hashCode, t, records).Normal?
    ensures Valid(hashCode, PutAll(hashCode, t, records).value)
    ensures Contents(PutAll(hashCode, t, records).value.buckets) == Apply(Contents(t.buckets), records)
    decreases |records|
  {
    if records != [] {
      PutAgrees(hashCode, t, records[0].0, records[0].1);
      PutAllAgrees(hashCode, Put(hashCode, t, Obj(records[0].0), records[0].1).value, records[1..]);
    }
  }

  /** Absence: after loading records into a new table, a key none of them
      mentions is reported absent rather than raising. */
  lemma NeverPutIsAbsent<K, V>(hashCode: K -> bv32, records: seq<(K, Ref<V>)>, k: K)
    requires forall i :: 0 <= i < |records| ==> records[i].0 != k
    ensures PutAll(hashCode, New(), records).Normal?
    ensures Get(hashCode, PutAll(hashCode, New(), records).value, Obj(k)) == Normal(None)
  {
    NewIsEmpty<K, V>(hashCode);
    PutAllAgrees(hashCode, New(), records);
    ApplyElsewhere(map[], records, k);
    GetAgrees(hashCode, PutAll(hashCode, New(), records).value, k);
  }
}
