/** One bucket's collision chain: a singly linked list of nodes, modelled as
    a sequence read head first, together with the scan that `put` and `get`
    both run over it. */
module Chains {
  import opened Java

  /** An entry: the key is fixed at creation, the value is replaced in place
      by `put`. The `next` link is the node's successor in the sequence. */
  datatype Node<K, V> = Node(key: Ref<K>, value: Ref<V>)

  /** A chain, head first; `[]` is an empty bucket. */
  type Chain<K, V> = seq<Node<K, V>>

  /** Java's `current.key.equals(key)`. Dereferencing a null node key throws;
      a non-null key is never equal to `null` (the contract of
      `Object.equals`), and otherwise `equals` is value equality. */
  function KeyEquals<K(==)>(nodeKey: Ref<K>, key: Ref<K>): (r: Outcome<bool>)
    ensures r == NullPointer <==> nodeKey.Null?
    ensures r == Normal(true) <==> nodeKey.Obj? && nodeKey == key
  {
    match nodeKey
    case Null => NullPointer
    case Obj(a) => Normal(key.Obj? && key.value == a)
  }

  /** The scan walks past node `n` when looking for `key`: its key can be
      dereferenced and differs from `key`. */
  predicate Passes<K(==), V>(n: Node<K, V>, key: Ref<K>)
  {
    n.key.Obj? && n.key != key
  }

  /** The loop shared by `put` and `get`: walk the chain from the head and
      stop at the first node whose key equals `key`, giving its position;
      `None` when the chain is exhausted; `NullPointer` when a null node key
      is reached first. */
  function Scan<K(==), V>(c: Chain<K, V>, key: Ref<K>): (r: Outcome<Option<nat>>)
    ensures r == Normal(None) <==> forall j :: 0 <= j < |c| ==> Passes(c[j], key)
    ensures r.Normal? && r.value.Some? ==>
              && r.value.value < |c|
              && key.Obj?
              && c[r.value.value].key == key
              && forall j :: 0 <= j < r.value.value ==> Passes(c[j], key)
    ensures r == NullPointer ==>
              exists i :: 0 <= i < |c| && c[i].key.Null? && forall j :: 0 <= j < i ==> Passes(c[j], key)
    decreases |c|
  {
    if c == [] then Normal(None)
    else
      match KeyEquals(c[0].key, key)
      case NullPointer => NullPointer
      case Normal(true) => Normal(Some(0))
      case Normal(false) =>
        match Scan(c[1..], key)
        case NullPointer => NullPointer
        case Normal(None) => Normal(None)
        case Normal(Some(i)) => Normal(Some(i + 1))
  }

  /** `get` on one chain: the value of the first node holding `key`. */
  function ChainGet<K(==), V>(c: Chain<K, V>, key: Ref<K>): (r: Outcome<Option<Ref<V>>>)
    ensures r == Normal(None) <==> forall j :: 0 <= j < |c| ==> Passes(c[j], key)
    ensures r.Normal? && r.value.Some? ==> key.Obj? && exists j :: 0 <= j < |c| && c[j] == Node(key, r.value.value)
  {
    match Scan(c, key)
    case NullPointer => NullPointer
    case Normal(None) => Normal(None)
    case Normal(Some(i)) => Normal(Some(c[i].value))
  }

  /** `put` on one chain: overwrite the value of the node holding `key` in
      place, or else link a new node in front of the old head. */
  function ChainPut<K(==), V>(c: Chain<K, V>, key: Ref<K>, value: Ref<V>): (r: Outcome<Chain<K, V>>)
    ensures r.Normal? <==> ChainGet(c, key).Normal?
    ensures r.Normal? ==> |r.value| == |c| + (if ChainGet(c, key) == Normal(None) then 1 else 0)
    ensures r.Normal? && key.Obj? ==> ChainGet(r.value, key) == Normal(Some(value))
  {
    match Scan(c, key)
    case NullPointer => NullPointer
    case Normal(None) => Normal([Node(key, value)] + c)
    case Normal(Some(i)) =>
      var c' := c[i := Node(c[i].key, value)];
      ScanSeesKeysOnly(c, c', key);
      Normal(c')
  }

  /** No node of the chain has a null key. */
  predicate NullFree<K, V>(c: Chain<K, V>)
  {
    forall j :: 0 <= j < |c| ==> c[j].key.Obj?
  }

  /** No two nodes of the chain have equal keys. */
  predicate UniqueKeys<K(==), V>(c: Chain<K, V>)
  {
    forall i, j :: 0 <= i < j < |c| ==> c[i].key != c[j].key
  }

  /** Looking a key up in a finite map, with absence made explicit. */
  function Lookup<K, V>(m: map<K, V>, k: K): Option<V>
  {
    if k in m then Some(m[k]) else None
  }

  /** What a chain denotes as an association list: the map from each
      non-null key to the value of its first node. It does not depend on
      the scan. */
  function Entries<K, V>(c: Chain<K, V>): map<K, Ref<V>>
    decreases |c|
  {
    if c == [] then map[]
    else
      var rest := Entries(c[1..]);
      match c[0].key
      case Null => rest
      case Obj(k) => rest[k := c[0].value]
  }

  /** The keys of `Entries(c)` are exactly the non-null keys in the chain. */
  lemma {:induction false} EntriesKeys<K, V>(c: Chain<K, V>, k: K)
    ensures k in Entries(c) <==> exists j :: 0 <= j < |c| && c[j].key == Obj(k)
    decreases |c|
  {
    if c != [] {
      EntriesKeys(c[1..], k);
      if k in Entries(c[1..]) {
        var j :| 0 <= j < |c| - 1 && c[1..][j].key == Obj(k);
        assert c[j + 1].key == Obj(k);
      }
      if exists j :: 0 <= j < |c| && c[j].key == Obj(k) {
        var j :| 0 <= j < |c| && c[j].key == Obj(k);
        if j > 0 {
          assert c[1..][j - 1].key == Obj(k);
        }
      }
    }
  }

  /** On a chain without null keys, the scan of `get` never throws and finds
      exactly what the association list denotes. */
  lemma {:induction false} ChainGetAgrees<K, V>(c: Chain<K, V>, k: K)
    requires NullFree(c)
    ensures ChainGet(c, Obj(k)) == Normal(Lookup(Entries(c), k))
    decreases |c|
  {
    if c != [] {
      assert NullFree(c[1..]) by {
        forall j | 0 <= j < |c| - 1 ensures c[1..][j].key.Obj? {
          assert c[1..][j] == c[j + 1];
        }
      }
      ChainGetAgrees(c[1..], k);
      if c[0].key != Obj(k) {
        match Scan(c[1..], Obj(k))
        case Normal(None) =>
        case Normal(Some(i)) =>
          assert c[1..][i] == c[i + 1];
      }
    }
  }

  /** The scan looks at keys only, so chains with the same keys in the same
      order scan alike. */
  lemma {:induction false} ScanSeesKeysOnly<K, V>(c: Chain<K, V>, d: Chain<K, V>, key: Ref<K>)
    requires |c| == |d|
    requires forall j :: 0 <= j < |c| ==> c[j].key == d[j].key
    ensures Scan(c, key) == Scan(d, key)
    decreases |c|
  {
    if c != [] {
      assert forall j :: 0 <= j < |c| - 1 ==> c[1..][j].key == d[1..][j].key by {
        forall j | 0 <= j < |c| - 1 ensures c[1..][j].key == d[1..][j].key {
          assert c[1..][j] == c[j + 1] && d[1..][j] == d[j + 1];
        }
      }
      ScanSeesKeysOnly(c[1..], d[1..], key);
    }
  }

  /** Overwriting the value of the first node holding `k` updates the denoted
      map at `k` and nowhere else. */
  lemma {:induction false} EntriesOverwrite<K, V>(c: Chain<K, V>, i: nat, k: K, v: Ref<V>)
    requires i < |c| && c[i].key == Obj(k)
    requires forall j :: 0 <= j < i ==> c[j].key != Obj(k)
    ensures Entries(c[i := Node(Obj(k), v)]) == Entries(c)[k := v]
    decreases i
  {
    var c' := c[i := Node(Obj(k), v)];
    if i == 0 {
      assert c'[1..] == c[1..];
    } else {
      assert c'[1..] == c[1..][i - 1 := Node(Obj(k), v)];
      assert forall j :: 0 <= j < i - 1 ==> c[1..][j].key != Obj(k) by {
        forall j | 0 <= j < i - 1 ensures c[1..][j].key != Obj(k) {
          assert c[1..][j] == c[j + 1];
        }
      }
      EntriesOverwrite(c[1..], i - 1, k, v);
    }
  }

  /** `put` on a chain keeps its keys unique, and every key of the result is
      the key put or a key the chain already held. */
  lemma ChainPutKeys<K, V>(c: Chain<K, V>, key: Ref<K>, v: Ref<V>)
    requires ChainPut(c, key, v).Normal?
    requires UniqueKeys(c)
    ensures UniqueKeys(ChainPut(c, key, v).value)
    ensures var c' := ChainPut(c, key, v).value;
            forall j :: 0 <= j < |c'| ==> c'[j].key == key || exists i :: 0 <= i < |c| && c[i].key == c'[j].key
  {
    var c' := ChainPut(c, key, v).value;
    if Scan(c, key) == Normal(None) {
      assert c' == [Node(key, v)] + c;
      assert forall j :: 0 <= j < |c| ==> c'[j + 1] == c[j];
      assert forall j :: 0 <= j < |c| ==> Passes(c[j], key);
    } else {
      var i := Scan(c, key).value.value;
      assert c' == c[i := Node(c[i].key, v)];
      assert forall j :: 0 <= j < |c| ==> c'[j].key == c[j].key;
    }
  }

  /** `put` of a non-null key on a chain leaves `get` of every other key as
      it was. */
  lemma ChainPutFrame<K, V>(c: Chain<K, V>, k: K, v: Ref<V>, other: Ref<K>)
    requires ChainPut(c, Obj(k), v).Normal?
    requires other != Obj(k)
    ensures ChainGet(ChainPut(c, Obj(k), v).value, other) == ChainGet(c, other)
  {
    var c' := ChainPut(c, Obj(k), v).value;
    if Scan(c, Obj(k)) == Normal(None) {
      assert c' == [Node(Obj(k), v)] + c;
      assert c'[1..] == c;
    } else {
      var i := Scan(c, Obj(k)).value.value;
      assert c' == c[i := Node(c[i].key, v)];
      ScanSeesKeysOnly(c, c', other);
    }
  }

  /** On a chain without null keys, `put` of a non-null key never throws,
      adds no null key, and updates the denoted map at that key alone. */
  lemma ChainPutAgrees<K, V>(c: Chain<K, V>, k: K, v: Ref<V>)
    requires NullFree(c)
    ensures ChainPut(c, Obj(k), v).Normal?
    ensures NullFree(ChainPut(c, Obj(k), v).value)
    ensures Entries(ChainPut(c, Obj(k), v).value) == Entries(c)[k := v]
  {
    var c' := ChainPut(c, Obj(k), v).value;
    if Scan(c, Obj(k)) == Normal(None) {
      assert c' == [Node(Obj(k), v)] + c;
      assert c'[1..] == c;
    } else {
      var i := Scan(c, Obj(k)).value.value;
      EntriesOverwrite(c, i, k, v);
    }
  }

  /** A chain without null keys and without repeated keys denotes a map with
      one entry per node. */
  lemma {:induction false} EntriesCount<K, V>(c: Chain<K, V>)
    requires NullFree(c) && UniqueKeys(c)
    ensures |Entries(c)| == |c|
    decreases |c|
  {
    if c != [] {
      var rest := c[1..];
      assert NullFree(rest) && UniqueKeys(rest) by {
        forall j | 0 <= j < |rest| ensures rest[j] == c[j + 1] { }
      }
      EntriesCount(rest);
      var k := c[0].key.value;
      EntriesKeys(rest, k);
      assert Entries(c).Keys == Entries(rest).Keys + {k};
    }
  }
}
