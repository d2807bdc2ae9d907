/**
 * Separate chaining (src/hash-table.ts): a fixed number of buckets, a key's
 * bucket chosen by the sum of its character codes modulo the bucket count,
 * and each bucket an ordered list of key/value entries searched first match
 * first. Its meaning is a map from keys to values that does not depend on
 * the bucket layout.
 */
module HashTables {
  import opened Wrappers

  datatype Entry<V> = Entry(key: string, value: V)

  /** The `reduce` of `_hash`: character codes added left to right from 0. */
  function CodeSum(key: string): nat {
    if key == [] then 0 else CodeSum(key[..|key| - 1]) + key[|key| - 1] as nat
  }

  /** `_hash`: the code sum modulo the bucket count, always a bucket index. */
  function Hash(key: string, size: nat): (r: nat)
    requires size > 0
    ensures r < size
  {
    CodeSum(key) % size
  }

  /** The code sum does not depend on how the key is split. */
  lemma {:induction false} CodeSumConcat(a: string, b: string)
    ensures CodeSum(a + b) == CodeSum(a) + CodeSum(b)
    decreases |b|
  {
    if b == [] {
      assert a + b == a;
    } else {
      var b' := b[..|b| - 1];
      assert (a + b)[..|a + b| - 1] == a + b';
      assert (a + b)[|a + b| - 1] == b[|b| - 1];
      CodeSumConcat(a, b');
    }
  }

  /** So keys that are rotations of each other always share a bucket. */
  lemma RotationsCollide(a: string, b: string, size: nat)
    requires size > 0
    ensures Hash(a + b, size) == Hash(b + a, size)
  {
    CodeSumConcat(a, b);
    CodeSumConcat(b, a);
  }

  /** 'a' (97) and 'f' (102) fall into the same one of five buckets. */
  lemma SampleKeysCollide()
    ensures Hash("a", 5) == Hash("f", 5) == 2
  {
    assert "a"[..0] == [] && "f"[..0] == [];
  }

  /** The value of `key`, or `None`, in a map. */
  function MapGet<V>(m: map<string, V>, key: string): Option<V> {
    if key in m then Some(m[key]) else None
  }

  /** No key has two entries in the bucket. */
  ghost predicate DistinctKeys<V>(b: seq<Entry<V>>) {
    forall i, j :: 0 <= i < j < |b| ==> b[i].key != b[j].key
  }

  /** Every entry of bucket `index` hashes to `index`. */
  ghost predicate InBucket<V>(b: seq<Entry<V>>, index: nat, size: nat)
    requires size > 0
  {
    forall i :: 0 <= i < |b| ==> Hash(b[i].key, size) == index
  }

  /** The bucket search of `set`, `get` and `delete`: the position of the first entry for `key`. */
  function FindEntry<V>(b: seq<Entry<V>>, key: string): (r: Option<nat>)
    ensures r.Some? ==> r.value < |b| && b[r.value].key == key
    ensures r.Some? ==> forall j :: 0 <= j < r.value ==> b[j].key != key
    ensures r.None? <==> forall j :: 0 <= j < |b| ==> b[j].key != key
  {
    if b == [] then None
    else if b[0].key == key then Some(0)
    else match FindEntry(b[1..], key)
      case None => None
      case Some(i) => Some(i + 1)
  }

  /** The first entry for `key` sits at `i` exactly when the entries before `i` hold other keys. */
  lemma {:induction false} FindEntryAt<V>(b: seq<Entry<V>>, key: string, i: nat)
    requires i < |b| && b[i].key == key
    requires forall j :: 0 <= j < i ==> b[j].key != key
    ensures FindEntry(b, key) == Some(i)
  {
    if i > 0 {
      FindEntryAt(b[1..], key, i - 1);
    }
  }

  /** What `get` answers from a bucket: the first entry's value, or `None`. */
  function Lookup<V>(b: seq<Entry<V>>, key: string): Option<V> {
    match FindEntry(b, key)
    case None => None
    case Some(i) => Some(b[i].value)
  }

  /**
   * The bucket after `set`: the first entry for `key` overwritten in place, or a new entry appended.
   * Every existing entry keeps its key and position, the bucket grows only for a new key, and the
   * new pair is stored.
   */
  function Put<V>(b: seq<Entry<V>>, key: string, value: V): (r: seq<Entry<V>>)
    ensures |r| == if FindEntry(b, key).None? then |b| + 1 else |b|
    ensures forall j :: 0 <= j < |b| ==> r[j].key == b[j].key
    ensures Entry(key, value) in r
  {
    match FindEntry(b, key)
    case Some(i) => b[i := Entry(key, value)]
    case None => b + [Entry(key, value)]
  }

  /**
   * The bucket after `delete`: the first entry for `key` unlinked, the rest in order. It shrinks
   * by one exactly when the key is present and holds no entry the bucket did not.
   */
  function Remove<V>(b: seq<Entry<V>>, key: string): (r: seq<Entry<V>>)
    ensures |r| == if FindEntry(b, key).None? then |b| else |b| - 1
    ensures forall e :: e in r ==> e in b
  {
    match FindEntry(b, key)
    case Some(i) => b[..i] + b[i + 1..]
    case None => b
  }

  /** `set` makes `key` answer `value` and leaves every other key's answer alone. */
  lemma PutLookup<V>(b: seq<Entry<V>>, key: string, value: V, k: string)
    ensures Lookup(Put(b, key, value), k) == if k == key then Some(value) else Lookup(b, k)
  {
    var b' := Put(b, key, value);
    assert forall j :: 0 <= j < |b| ==> b'[j].key == b[j].key;
    match FindEntry(b, key)
    case Some(i) =>
      if k == key {
        FindEntryAt(b', k, i);
      } else {
        match FindEntry(b, k)
        case Some(x) => FindEntryAt(b', k, x);
        case None =>
      }
    case None =>
      if k == key {
        FindEntryAt(b', k, |b|);
      } else {
        match FindEntry(b, k)
        case Some(x) => FindEntryAt(b', k, x);
        case None =>
      }
  }

  /** `set` never creates a second entry for a key. */
  lemma PutKeeps<V>(b: seq<Entry<V>>, key: string, value: V, index: nat, size: nat)
    requires size > 0 && DistinctKeys(b) && InBucket(b, index, size) && Hash(key, size) == index
    ensures DistinctKeys(Put(b, key, value)) && InBucket(Put(b, key, value), index, size)
  {
  }

  /** With keys distinct, `delete` makes `key` answer `None` and leaves every other key's answer alone. */
  lemma RemoveLookup<V>(b: seq<Entry<V>>, key: string, k: string)
    requires DistinctKeys(b)
    ensures Lookup(Remove(b, key), k) == if k == key then None else Lookup(b, k)
  {
    var b' := Remove(b, key);
    match FindEntry(b, key)
    case None =>
    case Some(i) =>
      assert b' == b[..i] + b[i + 1..];
      assert forall j :: 0 <= j < |b'| ==> b'[j] == b[if j < i then j else j + 1];
      if k == key {
        forall j | 0 <= j < |b'|
          ensures b'[j].key != key
        {
          if j >= i {
            assert b[i].key != b[j + 1].key;
          }
        }
        assert FindEntry(b', k).None?;
      } else {
        match FindEntry(b, k)
        case None =>
          assert FindEntry(b', k).None?;
        case Some(x) =>
          var x' := if x < i then x else x - 1;
          FindEntryAt(b', k, x');
          assert Lookup(b', k) == Some(b[x].value);
      }
  }

  /** `delete` keeps the bucket's keys distinct and in place. */
  lemma RemoveKeeps<V>(b: seq<Entry<V>>, key: string, index: nat, size: nat)
    requires size > 0 && DistinctKeys(b) && InBucket(b, index, size)
    ensures DistinctKeys(Remove(b, key)) && InBucket(Remove(b, key), index, size)
  {
    var b' := Remove(b, key);
    match FindEntry(b, key)
    case None =>
    case Some(i) =>
      assert forall j :: 0 <= j < |b'| ==> b'[j] == b[if j < i then j else j + 1];
  }

  class HashTable<V> {
    const size: nat
    const buckets: array<seq<Entry<V>>>
    /** The key/value map the buckets represent. */
    ghost var Contents: map<string, V>

    ghost predicate Valid()
      reads this, buckets
    {
      && size > 0 && buckets.Length == size
      && (forall i :: 0 <= i < size ==> DistinctKeys(buckets[i]) && InBucket(buckets[i], i, size))
      && (forall k :: Lookup(buckets[Hash(k, size)], k) == MapGet(Contents, k))
    }

    /** `size` empty buckets; the default of 32 is a caller's choice here. */
    constructor (size: nat)
      requires size > 0
      ensures Valid() && fresh(buckets)
      ensures this.size == size && Contents == map[]
    {
      this.size := size;
      buckets := new seq<Entry<V>>[size](_ => []);
      Contents := map[];
    }

    method Set(key: string, value: V)
      requires Valid()
      modifies this, buckets
      ensures Valid()
      ensures Contents == old(Contents)[key := value]
    {
      var index := Hash(key, size);
      var bucket := buckets[index];
      PutKeeps(bucket, key, value, index, size);
      buckets[index] := Put(bucket, key, value);
      Contents := Contents[key := value];
      forall k
        ensures Lookup(buckets[Hash(k, size)], k) == MapGet(Contents, k)
      {
        if Hash(k, size) == index {
          PutLookup(bucket, key, value, k);
        }
      }
    }

    function Get(key: string): (r: Option<V>)
      reads this, buckets
      requires Valid()
      ensures r == MapGet(Contents, key)
    {
      Lookup(buckets[Hash(key, size)], key)
    }

    method Delete(key: string) returns (deleted: bool)
      requires Valid()
      modifies this, buckets
      ensures Valid()
      ensures deleted <==> key in old(Contents)
      ensures Contents == old(Contents) - {key}
    {
      var index := Hash(key, size);
      var bucket := buckets[index];
      deleted := FindEntry(bucket, key).Some?;
      RemoveKeeps(bucket, key, index, size);
      RemoveLookup(bucket, key, key);
      buckets[index] := Remove(bucket, key);
      Contents := Contents - {key};
      forall k
        ensures Lookup(buckets[Hash(k, size)], k) == MapGet(Contents, k)
      {
        if Hash(k, size) == index {
          RemoveLookup(bucket, key, k);
        }
      }
    }
  }

  /** The table of the tests: 'a' and 'f' in one bucket of five, and 'age' set twice. */
  method SampleTable() returns (table: HashTable<string>)
    ensures fresh(table.buckets) && table.Valid()
    ensures table.Contents == map["a" := "Value A", "f" := "Value F", "age" := "31"]
  {
    table := new HashTable<string>(5);
    table.Set("a", "Value A");
    table.Set("f", "Value F");
    table.Set("age", "30");
    table.Set("age", "31");
  }

  /**
   * The collision scenario of src/hash-table.test.ts: 'a' and 'f' share a
   * bucket, yet each keeps its own value, the second `set` of 'age' replaces
   * its value, and deleting 'a' leaves 'f' in place.
   */
  method CollisionScenario() returns (a: Option<string>, f: Option<string>, age: Option<string>, deleted: bool, missing: bool, aAfter: Option<string>, fAfter: Option<string>)
    ensures a == Some("Value A") && f == Some("Value F") && age == Some("31")
    ensures deleted && !missing
    ensures aAfter == None && fAfter == Some("Value F")
  {
    var table := SampleTable();
    a := table.Get("a");
    f := table.Get("f");
    age := table.Get("age");
    deleted := table.Delete("a");
    missing := table.Delete("nonexistent");
    aAfter := table.Get("a");
    fAfter := table.Get("f");
  }
}
