# MyHashTable in Dafny

A functional model of `MyHashTable<K, V>`, a separate-chaining hash table with a fixed
array of `DEFAULT_CAPACITY = 1 << 16` buckets. `put` scans the key's chain and either
overwrites the value of the node holding the key or links a new node at the head; `get`
scans the chain and returns the first matching value.

The model is made of four modules:

- `Java` (`java.dfy`) holds the values Java code handles. `Ref<T>` is a reference that may
  be `null`. `Outcome<T>` is a normal return or a `NullPointerException`. `Option<T>` is the
  model's "absent" indicator.
- `Hashing` (`hashing.dfy`) holds the capacity and the fold-and-mask index function on
  `bv32`. The key type's `hashCode()` is a parameter `hashCode: K -> bv32`: a deterministic
  function about which nothing else is assumed.
- `Chains` (`chains.dfy`) models one bucket. A chain is a head-first `seq<Node<K, V>>`.
  `Scan` is the loop that `put` and `get` share. `Entries` is the association-list meaning
  of a chain, written independently of the scan.
- `HashTable` (`hash_table.dfy`) holds the table: a sequence of `DEFAULT_CAPACITY` chains,
  `New`, `Get`, `Put`, the invariants and the abstraction `Contents` to a `map<K, Ref<V>>`.
  `Contents` is the union of the chains' meanings and does not mention hashing. It also has
  `PutAll`, a caller's sequence of puts.

The table is a value: `Put` returns the updated table. An operation that would throw
returns `NullPointer`.

Java's `current.key.equals(key)` is modelled by `KeyEquals`:
- it throws when the node's key is `null`;
- a non-null key never equals `null` (the `Object.equals` contract);
- otherwise it is Dafny equality.

Where the code's behaviour is easy to misread:

- The comment at MyHashTable.java:30 says `hash` handles a null key by sending it to
  bucket 0, and `put(null, v)` does link a null-keyed node at the head of bucket 0. But
  the next scan of that bucket calls `equals` on the null key (lines 43 and 64) and
  throws, so null keys do not round-trip. From then on every `get` or `put` of any key
  in bucket 0 throws, `null` included (`NullKeyPoisonsBucketZero`).
- `get` returns `null` both for a missing key (line 71) and for a key stored with a
  `null` value (line 65). The model's `Get` returns `Option`; `JavaGet` collapses it the
  way Java does (`NullValueLooksAbsent`).

## Model

| member | source | states |
|---|---|---|
| Hashing.Spread | MyHashTable.java:19-31 | the folded, masked hash code is always a bucket index below 65536 |
| Hashing.Hash | MyHashTable.java:29-32 | every key, null or not, gets an index in [0, 65536), so each array access in put/get is in bounds; a null key gets bucket 0 |
| Hashing.SpreadFoldsHalves | MyHashTable.java:31 | the bucket of a non-null key is the low 16 bits of its hash code XOR the high 16 bits |
| Chains.KeyEquals | MyHashTable.java:43 | `equals` on a node key throws exactly when the node key is null; otherwise it is true exactly when the two keys are equal and non-null |
| Chains.Scan | MyHashTable.java:42-47 | the chain walk shared by put (and get, lines 62-68) stops at the first node holding the key, which is non-null and preceded only by non-null, different keys; it reports "not found" exactly when every node has a non-null key different from the key; it throws only if a null node key comes before any match |
| Chains.ChainGetAgrees | MyHashTable.java:59-71 | on a chain with no null key, get's scan never throws and returns what the chain means as an association list: the value of the first node for the key, or absent |
| Chains.EntriesOverwrite | MyHashTable.java:42-46 | overwriting the value of the first node holding k changes the chain's meaning at k only |
| Chains.ChainGet | MyHashTable.java:59-71 | get's walk over one chain: it reports absent exactly when every node has a non-null key different from the key, and a value it returns is that of a node holding the (non-null) key; its agreement with the chain's map meaning is ChainGetAgrees |
| Chains.ChainPut | MyHashTable.java:38-52 | put on one chain throws exactly when get's scan of it would; the chain grows by one node exactly when the key was absent and keeps its length otherwise; afterwards get of a non-null key returns the value just put |
| Chains.ChainPutFrame | MyHashTable.java:42-52 | put of a non-null key on a chain leaves get of every other key on that chain, null included, as it was |
| HashTable.New | MyHashTable.java:22-25 | the constructor: DEFAULT_CAPACITY buckets, all empty; that this table is valid and denotes the empty map is NewIsEmpty |
| HashTable.Get | MyHashTable.java:56-72 | get scans bucket hash(key): absent exactly when every node there has a non-null key different from the key, and a returned value belongs to a node of that bucket holding the key; agreement with the denoted map is GetAgrees |
| HashTable.JavaGet | MyHashTable.java:62-71 | Java's return value: it throws exactly when Get does, returns null exactly when the key is absent or stored with a null value, and otherwise returns the stored value |
| HashTable.PutAll | MyHashTableTest.java:22-24 | a caller's in-order loop of puts; whenever it returns, the table still has DEFAULT_CAPACITY buckets; what it denotes is PutAllAgrees |
| HashTable.Put | MyHashTable.java:35-53 | put throws exactly when get of the same key would; on return the table still has 65536 buckets and every bucket other than hash(key) is unchanged |
| HashTable.NewIsEmpty | MyHashTable.java:22-25 | the constructor gives a table satisfying the invariants, denoting the empty map and holding no node |
| HashTable.GetAgrees | MyHashTable.java:56-72 | on a valid table get never throws; get(k) is the denoted map's lookup of k, and get(null) is absent |
| HashTable.PutPreservesWellFormed | MyHashTable.java:35-53 | whenever put returns, for any key including null, the table keeps 65536 buckets, every node stays in the bucket its key hashes to, and no chain holds a key twice |
| HashTable.PutAgrees | MyHashTable.java:35-53 | on a valid table put(k, v) never throws, keeps the table valid, and the denoted map becomes the old map updated at k with v |
| HashTable.PutThenGet | MyHashTable.java:35-72 | round trip: after put(k, v) returns, get(k) returns v, on any table, for a non-null key |
| HashTable.PutFrame | MyHashTable.java:37-52 | after put(k, v) for a non-null k, get of every other key (null included) returns what it returned before; put(null, v) breaks the frame for bucket-0 keys, see NullKeyPoisonsBucketZero |
| HashTable.PutOverwrites | MyHashTable.java:42-46 | when k is already in its chain, put(k, v) keeps the chain's length and sets that node's value to v; every other node stays where it was, unchanged |
| HashTable.PutInsertsAtHead | MyHashTable.java:49-52 | when the scan finds no match, put makes a new node the head of bucket hash(key) and the old chain follows unchanged, null key included |
| HashTable.PutIdempotent | MyHashTable.java:42-46 | putting the same (k, v) a second time leaves the table exactly as the first put left it |
| HashTable.PutCount | MyHashTable.java:42-52 | on a valid table the number of nodes grows by one when put adds a new key and stays the same when it overwrites one |
| HashTable.SizeCountsContents | MyHashTable.java:42-52 | with no null keys and no repeated keys, the node count equals the number of keys in the denoted map |
| HashTable.NullKeyPoisonsBucketZero | MyHashTable.java:31-64 | put(null, v) on a table with no null key in bucket 0 succeeds and links a null-keyed node at the head of bucket 0; after that every get and every put of a key in bucket 0, null included, throws NullPointerException, so null keys do not round-trip |
| HashTable.NullValueLooksAbsent | MyHashTable.java:62-71 | Java's get returns null both for a missing key and for a key stored with a null value, while the model's Get tells the two apart |
| HashTable.PutAllAgrees | MyHashTableTest.java:22-24 | a sequence of puts of non-null keys on a valid table never throws, keeps it valid, and yields the map written by the same updates in the same order |
| HashTable.NeverPutIsAbsent | MyHashTable.java:62-71 | after loading records into a new table, get of a key no record mentions returns absent instead of throwing |

## Left out

- Concrete `hashCode` and `equals` of key types such as `String` and `Integer`: they are foreign library code. `hashCode` is a parameter, and `equals` on non-null keys is Dafny equality.
- Object identity, aliasing and in-place mutation of nodes: a chain is a sequence value, and an overwrite builds the updated sequence. The only observable effects are what `get` and later `put`s see.
- The benchmark harness (MyHashTableTest.java): wall-clock timing, `Random` values and printing. Its `Map` adapter returns `null` from `put` and throws from `entrySet`. Only its in-order write loop is reflected, by `PutAll`.
- EmployeeSystem.java and EmployeeSystemTest.java: CSV file I/O, `Double.parseDouble`, `Math.random`, a floating-point salary rule and timing. They use library maps, not this table.
- Statistical claims about chain lengths and expected O(1) time: they cannot be stated in a functional model.
- Hashing.SpreadFoldsHalves: states the fold in bit-vector terms (bits 0-15 XOR bits 16-31) rather than as integer `h mod 65536` and `h div 65536`; the conversion between 32-bit vectors and integers is left out to keep the proof cheap.
- Concurrency, resizing, deletion and iteration: the table has none of these.
