/**
 * The HashMap<KeyT, ValueT> of HashMap.hpp: a chained hash table whose
 * `buckets` array holds one vector of (key, value) pairs per bucket, with a
 * `size` counter and a `capacity` equal to the array length, and its nested
 * ConstIterator.
 *
 * std::hash<KeyT> (after its conversion to int) is the constant `hash` of each
 * map, and ValueT() is the constant `zero`. The ghost field `Contents` is the
 * map the table stores; `Valid()` ties it to the buckets through
 * `Buckets.Represents`.
 */
module HashTable {
  import opened Bits
  import opened Failures
  import opened Buckets
  import opened Upserts

  /** INIT_CAPACITY */
  const InitCapacity: nat := 16

  /** The three arguments update_capacity passes to rehash: 0, MULT (2) and DIV (0.5). */
  datatype Scale = Collapse | Double | Halve

  /** `a[i] = t`: one bucket replaced, the others untouched. */
  method SetBucket<K, V>(a: array<seq<(K, V)>>, i: nat, t: seq<(K, V)>)
    requires i < a.Length
    modifies a
    ensures a[..] == old(a[..])[i := t]
  {
    a[i] := t;
  }

  /**
   * The scan of the iterator's begin() and operator++ for the next non-empty
   * bucket from `from` on, or the end sentinel b.Length when there is none;
   * the buckets it skips add nothing to the iteration order.
   */
  method SkipEmpty<K, V>(b: array<seq<(K, V)>>, from: nat) returns (i: nat)
    requires from <= b.Length
    ensures from <= i <= b.Length
    ensures forall p | from <= p < i :: b[p] == []
    ensures i < b.Length ==> b[i] != []
    ensures Flatten(b[..][..i]) == Flatten(b[..][..from])
  {
    i := from;
    while i < b.Length
      invariant from <= i <= b.Length
      invariant forall p | from <= p < i :: b[p] == []
    {
      if b[i] != [] {
        break;
      }
      i := i + 1;
    }
    FlattenSkipEmpty(b[..], from, i);
  }

  /** A fresh array holding the buckets of src, copied pair by pair, and the number of pairs. */
  method CopyBuckets<K, V>(src: array<seq<(K, V)>>) returns (dst: array<seq<(K, V)>>, n: nat)
    ensures fresh(dst) && dst[..] == src[..]
    ensures n == |Flatten(src[..])|
  {
    dst := new seq<(K, V)>[src.Length](_ => []);
    n := 0;
    var i := 0;
    while i < src.Length
      invariant 0 <= i <= src.Length
      invariant forall p | 0 <= p < dst.Length :: dst[p] == if p < i then src[p] else []
      invariant n == |Flatten(src[..i])|
    {
      var j := 0;
      while j < |src[i]|
        invariant 0 <= j <= |src[i]|
        invariant forall p | 0 <= p < dst.Length :: dst[p] == if p < i then src[p] else if p == i then src[i][..j] else []
        invariant n == |Flatten(src[..i])| + j
      {
        dst[i] := dst[i] + [src[i][j]];
        assert src[i][..j + 1] == src[i][..j] + [src[i][j]];
        n := n + 1;
        j := j + 1;
      }
      assert src[i][..j] == src[i];
      FlattenPrefix(src[..], i);
      assert src[..][..i] == src[..i] && src[..][..i + 1] == src[..i + 1];
      i := i + 1;
    }
    assert src[..src.Length] == src[..];
  }

  /**
   * The inner loop of rehash: each pair of one old bucket, in order, pushed
   * to the back of its bucket among the c new ones.
   */
  method PushEach<K(==), V>(nb: array<seq<(K, V)>>, bucket: seq<(K, V)>, c: nat, hash: K -> int, ghost done: seq<(K, V)>)
    requires IsPow2(c) && nb.Length == c
    requires nb[..] == Distribute(done, c, hash)
    modifies nb
    ensures nb[..] == Distribute(done + bucket, c, hash)
  {
    var t := 0;
    assert done + bucket[..0] == done;
    while t < |bucket|
      invariant 0 <= t <= |bucket|
      invariant nb[..] == Distribute(done + bucket[..t], c, hash)
    {
      var e := bucket[t];
      var j := Index(hash(e.0), c);
      DistributeSnoc(done + bucket[..t], e, c, hash);
      assert done + bucket[..t + 1] == done + bucket[..t] + [e];
      nb[j] := nb[j] + [e];
      t := t + 1;
    }
    assert bucket[..t] == bucket;
  }

  /**
   * The loops of rehash: a fresh array of c buckets that receives the pairs
   * of src in iteration order, each under the mask of the new capacity c.
   */
  method Redistribute<K(==), V>(src: array<seq<(K, V)>>, c: nat, hash: K -> int) returns (nb: array<seq<(K, V)>>)
    requires IsPow2(c)
    ensures fresh(nb) && nb[..] == Distribute(Flatten(src[..]), c, hash)
  {
    nb := new seq<(K, V)>[c](_ => []);
    ghost var b := src[..];
    assert nb[..] == Distribute([], c, hash);
    assert b[..0] == [];
    var i := 0;
    while i < src.Length
      modifies nb
      invariant 0 <= i <= src.Length
      invariant nb[..] == Distribute(Flatten(b[..i]), c, hash)
    {
      PushEach(nb, src[i], c, hash, Flatten(b[..i]));
      FlattenPrefix(b, i);
      i := i + 1;
    }
    assert b[..i] == b;
  }

  class HashMap<K(==), V(==)> {
    const hash: K -> int
    const zero: V
    var buckets: array<seq<(K, V)>>
    var size: nat
    var capacity: nat
    ghost var Contents: map<K, V>

    /** The buckets store Contents and the counters agree with them. */
    ghost predicate Consistent()
      reads this, buckets
    {
      && capacity == buckets.Length
      && Represents(buckets[..], Contents, hash)
      && size == |Contents|
    }

    /** Between operations the load factor is also at most LOAD_FACTOR_MAX (0.75). */
    ghost predicate Valid()
      reads this, buckets
    {
      Consistent() && 4 * size <= 3 * capacity
    }

    /** hash_func */
    function Slot(k: K): (i: nat)
      reads this
      requires IsPow2(capacity)
      ensures i < capacity
    {
      Index(hash(k), capacity)
    }

    /** The default constructor: INIT_CAPACITY empty buckets. */
    constructor (hash: K -> int, zero: V)
      ensures Valid() && fresh(buckets)
      ensures this.hash == hash && this.zero == zero
      ensures size == 0 && capacity == InitCapacity && Contents == map[]
      ensures buckets[..] == EmptyBuckets(InitCapacity)
    {
      this.hash := hash;
      this.zero := zero;
      buckets := new seq<(K, V)>[InitCapacity](_ => []);
      size := 0;
      capacity := InitCapacity;
      Contents := map[];
      new;
      assert IsPow2(1) && IsPow2(2) && IsPow2(4) && IsPow2(8) && IsPow2(16);
      assert buckets[..] == EmptyBuckets(InitCapacity);
      EmptyRepresents<K, V>(InitCapacity, hash);
    }

    /** The copy constructor: same capacity, same pairs in the same buckets and order. */
    constructor Copy(other: HashMap<K, V>)
      requires other.Valid()
      ensures Valid() && fresh(buckets)
      ensures hash == other.hash && zero == other.zero
      ensures capacity == other.capacity && size == other.size && Contents == other.Contents
      ensures buckets[..] == other.buckets[..]
    {
      hash := other.hash;
      zero := other.zero;
      capacity := other.capacity;
      var nb, n := CopyBuckets(other.buckets);
      buckets := nb;
      size := n;
      Contents := other.Contents;
    }

    /**
     * operator=: assigning a map to itself changes nothing; otherwise this
     * becomes a copy of other with its capacity and bucket layout.
     */
    method Assign(other: HashMap<K, V>)
      requires Valid() && other.Valid()
      requires hash == other.hash
      modifies this
      ensures Valid() && other.Valid()
      ensures other == this || fresh(buckets)
      ensures capacity == old(other.capacity) && size == old(other.size) && Contents == old(other.Contents)
      ensures buckets[..] == old(other.buckets[..])
    {
      if other == this {
        return;
      }
      var nb, n := CopyBuckets(other.buckets);
      buckets := nb;
      capacity := other.capacity;
      size := n;
      Contents := other.Contents;
    }

    /** contains_key: a scan of the key's bucket. */
    method ContainsKey(k: K) returns (r: bool)
      requires Valid()
      ensures r <==> k in Contents
    {
      var i := Slot(k);
      KeyInSlot(buckets[..], Contents, hash, k);
      var j := 0;
      while j < |buckets[i]|
        invariant 0 <= j <= |buckets[i]|
        invariant forall p | 0 <= p < j :: buckets[i][p].0 != k
      {
        if buckets[i][j].0 == k {
          return true;
        }
        j := j + 1;
      }
      return false;
    }

    /** empty */
    method Empty() returns (r: bool)
      requires Valid()
      ensures r <==> Contents == map[]
    {
      r := size == 0;
    }

    /**
     * The non-throwing part of insert and of operator[]: push (k, v) to the
     * back of k's bucket, count it, and let update_capacity grow the table.
     */
    method PushNew(k: K, v: V)
      requires Valid() && k !in Contents
      modifies this, buckets
      ensures Valid() && (buckets == old(buckets) || fresh(buckets))
      ensures Contents == old(Contents)[k := v] && size == old(size) + 1
      ensures capacity == GrowTarget(size, old(capacity))
      ensures buckets[..] == Rebalanced(true, Appended(old(buckets[..]), k, v, hash), size, hash)
    {
      var i := Slot(k);
      ghost var b := buckets[..];
      InsertRepresents(b, Contents, hash, k, v);
      buckets[i] := buckets[i] + [(k, v)];
      assert buckets[..] == Appended(b, k, v, hash);
      size := size + 1;
      Contents := Contents[k := v];
      UpdateCapacity(true);
    }

    /**
     * insert: false and no change when k is present; otherwise (k, v) is
     * appended to k's bucket, size grows by one and the grow check runs.
     */
    method Insert(k: K, v: V) returns (r: bool)
      requires Valid()
      modifies this, buckets
      ensures Valid() && (buckets == old(buckets) || fresh(buckets))
      ensures r <==> k !in old(Contents)
      ensures Contents == if r then old(Contents)[k := v] else old(Contents)
      ensures !r ==> buckets == old(buckets) && buckets[..] == old(buckets[..]) && size == old(size) && capacity == old(capacity)
      ensures r ==> size == old(size) + 1 && capacity == GrowTarget(size, old(capacity))
      ensures r ==> buckets[..] == Rebalanced(true, Appended(old(buckets[..]), k, v, hash), size, hash)
    {
      var present := ContainsKey(k);
      if present {
        return false;
      }
      PushNew(k, v);
      r := true;
    }

    /** clear: every bucket emptied, capacity kept. */
    method Clear()
      requires Valid()
      modifies this, buckets
      ensures Valid() && buckets == old(buckets) && capacity == old(capacity)
      ensures size == 0 && Contents == map[]
      ensures buckets[..] == EmptyBuckets(capacity)
    {
      if size == 0 {
        assert Contents == map[];
        EmptyMapEmptyBuckets(buckets[..], hash);
        return;
      }
      var i := 0;
      while i < capacity
        modifies buckets
        invariant 0 <= i <= capacity
        invariant forall p | 0 <= p < i :: buckets[p] == []
      {
        buckets[i] := [];
        i := i + 1;
      }
      size := 0;
      Contents := map[];
      assert buckets[..] == EmptyBuckets(capacity);
      EmptyRepresents<K, V>(capacity, hash);
    }

    /**
     * erase: false and no change when k is absent; otherwise k's pair leaves
     * its bucket (the other pairs keep their order), size drops by one and
     * the shrink check runs.
     */
    method Erase(k: K) returns (r: bool)
      requires Valid()
      modifies this, buckets
      ensures Valid() && (buckets == old(buckets) || fresh(buckets))
      ensures r <==> k in old(Contents)
      ensures Contents == old(Contents) - {k}
      ensures !r ==> buckets == old(buckets) && buckets[..] == old(buckets[..]) && size == old(size) && capacity == old(capacity)
      ensures r ==> size == old(size) - 1 && capacity == ShrinkTarget(size, old(capacity))
      ensures r ==> buckets[..] == Rebalanced(false, Removed(old(buckets[..]), k, hash), size, hash)
    {
      var i := Slot(k);
      var j := 0;
      while j < |buckets[i]| && buckets[i][j].0 != k
        invariant 0 <= j <= |buckets[i]|
        invariant forall p | 0 <= p < j :: buckets[i][p].0 != k
      {
        j := j + 1;
      }
      if j == |buckets[i]| {
        KeyInSlot(buckets[..], Contents, hash, k);
        assert Contents - {k} == Contents;
        return false;
      }
      RemovePair(k, j);
      r := true;
    }

    /** The found branch of erase: the vector erase at position j, the count, the shrink check. */
    method RemovePair(k: K, j: nat)
      requires Valid()
      requires j < |buckets[Slot(k)]| && buckets[Slot(k)][j].0 == k
      modifies this, buckets
      ensures Valid() && (buckets == old(buckets) || fresh(buckets))
      ensures k in old(Contents) && Contents == old(Contents) - {k}
      ensures size == old(size) - 1 && capacity == ShrinkTarget(size, old(capacity))
      ensures buckets[..] == Rebalanced(false, Removed(old(buckets[..]), k, hash), size, hash)
    {
      CutPair(k, j);
      UpdateCapacity(false);
    }

    /** `bucket.erase(bucket.begin() + j)` and `--size_`, before the shrink check. */
    method CutPair(k: K, j: nat)
      requires Valid()
      requires j < |buckets[Slot(k)]| && buckets[Slot(k)][j].0 == k
      modifies this, buckets
      ensures Consistent() && 4 * size <= 3 * capacity && buckets == old(buckets) && capacity == old(capacity)
      ensures k in old(Contents) && Contents == old(Contents) - {k} && size == old(size) - 1
      ensures buckets[..] == Removed(old(buckets[..]), k, hash)
    {
      var i := Slot(k);
      ghost var b := buckets[..];
      ghost var m := Contents - {k};
      EraseRepresents(b, Contents, hash, k, j);
      SetBucket(buckets, i, RemoveAt(buckets[i], j));
      assert buckets[..] == Removed(b, k, hash);
      size := size - 1;
      Contents := m;
    }

    /** bucket_size: the length of k's bucket, invalid_argument when k is absent. */
    method BucketSize(k: K) returns (r: Result<nat>)
      requires Valid()
      ensures r.Failure? <==> k !in Contents
      ensures r.Failure? ==> r.error == InvalidArgument
      ensures r.Success? ==> r.value == |buckets[Index(hash(k), capacity)]| && (k, Contents[k]) in buckets[Index(hash(k), capacity)]
    {
      var present := ContainsKey(k);
      if !present {
        return Failure(InvalidArgument);
      }
      r := Success(|buckets[Slot(k)]|);
    }

    /** bucket_index: the bucket that holds k, invalid_argument when k is absent. */
    method BucketIndex(k: K) returns (r: Result<nat>)
      requires Valid()
      ensures r.Failure? <==> k !in Contents
      ensures r.Failure? ==> r.error == InvalidArgument
      ensures r.Success? ==> r.value < capacity && (k, Contents[k]) in buckets[r.value]
      ensures r.Success? ==> r.value == hash(k) % capacity
    {
      var present := ContainsKey(k);
      if !present {
        return Failure(InvalidArgument);
      }
      IndexIsMod(hash(k), capacity);
      r := Success(Slot(k));
    }

    /** at and the const operator[]: k's value, invalid_argument when k is absent. */
    method At(k: K) returns (r: Result<V>)
      requires Valid()
      ensures r.Success? <==> k in Contents
      ensures r.Success? ==> r.value == Contents[k]
      ensures r.Failure? ==> r.error == InvalidArgument
    {
      var i := Slot(k);
      KeyInSlot(buckets[..], Contents, hash, k);
      var bucket := buckets[i];
      var j := 0;
      while j < |bucket|
        invariant 0 <= j <= |bucket|
        invariant forall p | 0 <= p < j :: bucket[p].0 != k
      {
        if bucket[j].0 == k {
          return Success(bucket[j].1);
        }
        j := j + 1;
      }
      return Failure(InvalidArgument);
    }

    /**
     * The non-const operator[]: k's value when present; otherwise (k, ValueT())
     * is appended to k's bucket, size grows by one, the grow check runs and
     * the new default value is returned.
     */
    method Subscript(k: K) returns (v: V)
      requires Valid()
      modifies this, buckets
      ensures Valid() && (buckets == old(buckets) || fresh(buckets))
      ensures v == if k in old(Contents) then old(Contents)[k] else zero
      ensures Contents == if k in old(Contents) then old(Contents) else old(Contents)[k := zero]
      ensures k in old(Contents) ==> buckets == old(buckets) && buckets[..] == old(buckets[..]) && size == old(size) && capacity == old(capacity)
      ensures k !in old(Contents) ==> size == old(size) + 1 && capacity == GrowTarget(size, old(capacity))
      ensures k !in old(Contents) ==> buckets[..] == Rebalanced(true, Appended(old(buckets[..]), k, zero, hash), size, hash)
    {
      var found := At(k);
      if found.Success? {
        return found.value;
      }
      PushNew(k, zero);
      found := At(k);
      v := found.value;
    }

    /** Writing v through the reference that operator[] returned for a present k. */
    method StoreAt(k: K, v: V)
      requires Valid() && k in Contents
      modifies this, buckets
      ensures buckets == old(buckets) && size == old(size) && capacity == old(capacity)
      ensures Valid()
      ensures Contents == old(Contents)[k := v]
      ensures buckets[..] == Stored(old(buckets[..]), k, v, hash)
    {
      var i := Slot(k);
      KeyInSlot(buckets[..], Contents, hash, k);
      var j := 0;
      while buckets[i][j].0 != k
        invariant 0 <= j < |buckets[i]|
        invariant forall p | 0 <= p < j :: buckets[i][p].0 != k
        decreases |buckets[i]| - j
      {
        j := j + 1;
      }
      SetPair(k, v, j);
    }

    /** The assignment through the reference to the pair at position j of k's bucket. */
    method SetPair(k: K, v: V, j: nat)
      requires Valid()
      requires j < |buckets[Slot(k)]| && buckets[Slot(k)][j].0 == k
      modifies this, buckets
      ensures buckets == old(buckets) && size == old(size) && capacity == old(capacity)
      ensures Valid()
      ensures Contents == old(Contents)[k := v]
      ensures buckets[..] == Stored(old(buckets[..]), k, v, hash)
    {
      var i := Slot(k);
      ghost var b := buckets[..];
      ghost var m := Contents[k := v];
      SetValueRepresents(b, Contents, hash, k, v, j);
      SetBucket(buckets, i, buckets[i][j := (k, v)]);
      assert buckets[..] == Stored(b, k, v, hash);
      Contents := m;
    }

    /** `map[k] = v`: operator[] followed by an assignment through the reference it returns. */
    method SubscriptStore(k: K, v: V)
      requires Valid()
      modifies this, buckets
      ensures Valid() && (buckets == old(buckets) || fresh(buckets))
      ensures Contents == old(Contents)[k := v]
      ensures k in old(Contents) ==> size == old(size) && capacity == old(capacity)
      ensures k in old(Contents) ==> buckets[..] == Stored(old(buckets[..]), k, v, hash)
      ensures k !in old(Contents) ==> size == old(size) + 1 && capacity == GrowTarget(size, old(capacity))
      ensures k !in old(Contents) ==>
        buckets[..] == Stored(Rebalanced(true, Appended(old(buckets[..]), k, zero, hash), size, hash), k, v, hash)
    {
      UpdateTwice(Contents, k, zero, v);
      var _ := Subscript(k);
      StoreAt(k, v);
    }

    /**
     * operator==: the sizes agree and every pair of other is found in this
     * map with an equal value; that is, both store the same map, whatever
     * their capacities and bucket orders.
     */
    method Equals(other: HashMap<K, V>) returns (r: bool)
      requires Valid() && other.Valid()
      ensures r <==> Contents == other.Contents
    {
      if size != other.size {
        return false;
      }
      var ob := other.buckets;
      var i := 0;
      while i < other.capacity
        invariant 0 <= i <= other.capacity
        invariant forall i', j' | 0 <= i' < i && 0 <= j' < |ob[i']| :: ob[i'][j'].0 in Contents && Contents[ob[i'][j'].0] == ob[i'][j'].1
      {
        var found := HoldsAll(ob[i]);
        if !found {
          ghost var j :| 0 <= j < |ob[i]| && !(ob[i][j].0 in Contents && Contents[ob[i][j].0] == ob[i][j].1);
          assert ob[i][j].0 in other.Contents && other.Contents[ob[i][j].0] == ob[i][j].1;
          return false;
        }
        i := i + 1;
      }
      HoldsStoredEqual(ob[..], other.Contents, Contents, other.hash);
      return true;
    }

    /**
     * The inner loop of operator==: every pair of one bucket of the other
     * map is found in this map (count) with an equal value (at).
     */
    method HoldsAll(bucket: seq<(K, V)>) returns (r: bool)
      requires Valid()
      ensures r <==> forall j | 0 <= j < |bucket| :: bucket[j].0 in Contents && Contents[bucket[j].0] == bucket[j].1
    {
      var j := 0;
      while j < |bucket|
        invariant 0 <= j <= |bucket|
        invariant forall j' | 0 <= j' < j :: bucket[j'].0 in Contents && Contents[bucket[j'].0] == bucket[j'].1
      {
        var e := bucket[j];
        var present := ContainsKey(e.0);
        if !present {
          return false;
        }
        var mine := At(e.0);
        if e.1 != mine.value {
          return false;
        }
        j := j + 1;
      }
      return true;
    }

    /** operator!=: the negation of operator==. */
    method NotEquals(other: HashMap<K, V>) returns (r: bool)
      requires Valid() && other.Valid()
      ensures r <==> Contents != other.Contents
    {
      var eq := Equals(other);
      r := !eq;
    }

    /**
     * rehash. The capacity becomes 1 (Collapse, only used on an empty table),
     * twice or half the old one, and every pair is pushed, in iteration
     * order, to the back of its bucket under the NEW capacity. HashMap.hpp:498
     * computes that bucket with the old capacity instead; see
     * Buckets.DistributeAsWritten for the code as written.
     */
    method Rehash(scale: Scale)
      requires Consistent()
      requires scale == Collapse ==> size == 0
      requires scale == Halve ==> capacity > 1
      modifies this
      ensures fresh(buckets)
      ensures Consistent() && Contents == old(Contents) && size == old(size)
      ensures capacity == match scale
        case Collapse => 1
        case Double => 2 * old(capacity)
        case Halve => old(capacity) / 2
      ensures buckets[..] == if scale == Collapse then EmptyBuckets(1) else Distribute(Flatten(old(buckets[..])), capacity, hash)
    {
      if scale == Collapse {
        buckets := new seq<(K, V)>[1](_ => []);
        capacity := 1;
        assert buckets[..] == EmptyBuckets(1);
        assert Contents == map[];
        EmptyRepresents<K, V>(1, hash);
        return;
      }
      var c := if scale == Double then 2 * capacity else capacity / 2;
      if scale == Double {
        DoublePow2(capacity);
      } else {
        HalvePow2(capacity);
      }
      Resize(c);
    }

    /** The common part of growing and shrinking: every pair moves to its slot under capacity c. */
    method Resize(c: nat)
      requires Consistent() && IsPow2(c)
      modifies this
      ensures fresh(buckets)
      ensures Consistent() && Contents == old(Contents) && size == old(size)
      ensures capacity == c && buckets[..] == Distribute(Flatten(old(buckets[..])), c, hash)
    {
      ghost var b := buckets[..];
      var nb := Redistribute(buckets, c, hash);
      DistributeRepresents(b, Contents, hash, c);
      buckets := nb;
      capacity := c;
    }

    /**
     * update_capacity: after an insert, a load factor above 0.75 doubles the
     * capacity; after an erase, an empty table collapses to one bucket and a
     * load factor below 0.25 halves the capacity; otherwise nothing changes.
     */
    method UpdateCapacity(isGrow: bool)
      requires Consistent()
      requires isGrow ==> size >= 1 && 4 * (size - 1) <= 3 * capacity
      requires !isGrow ==> 4 * size <= 3 * capacity
      modifies this
      ensures Valid() && (buckets == old(buckets) || fresh(buckets))
      ensures Contents == old(Contents) && size == old(size)
      ensures capacity == Target(isGrow, size, old(capacity))
      ensures buckets[..] == Rebalanced(isGrow, old(buckets[..]), size, hash)
    {
      RebalancedRepresents(isGrow, buckets[..], Contents, hash);
      if isGrow {
        if 4 * size > 3 * capacity {
          Rehash(Double);
        }
      } else if size == 0 {
        Rehash(Collapse);
      } else if 4 * size < capacity {
        Rehash(Halve);
      }
    }
  }

  /**
   * `m[k] = v` as the vector constructor and Dictionary::update use it:
   * HashMap.SubscriptStore, with only its effect on the stored map stated.
   */
  method StoreThrough<K(==), V(==)>(m: HashMap<K, V>, k: K, v: V)
    requires m.Valid()
    modifies m, m.buckets
    ensures m.Valid() && (m.buckets == old(m.buckets) || fresh(m.buckets))
    ensures m.Contents == old(m.Contents)[k := v]
  {
    m.SubscriptStore(k, v);
  }

  /**
   * The vector constructor: length_error when the vectors differ in length;
   * otherwise a default map after `map[keys[i]] = values[i]` for each i in
   * order, so a repeated key keeps its last value.
   */
  method FromVectors<K(==), V(==)>(hash: K -> int, zero: V, keys: seq<K>, values: seq<V>) returns (r: Result<HashMap<K, V>>)
    ensures r.Failure? <==> |keys| != |values|
    ensures r.Failure? ==> r.error == LengthError
    ensures r.Success? ==> fresh(r.value) && fresh(r.value.buckets) && r.value.Valid()
    ensures r.Success? ==> r.value.hash == hash && r.value.zero == zero
    ensures r.Success? ==> r.value.Contents == UpsertAll(map[], Zip(keys, values))
  {
    if |keys| != |values| {
      return Failure(LengthError);
    }
    var m := new HashMap(hash, zero);
    ghost var ps := Zip(keys, values);
    var i := 0;
    assert ps[..0] == [];
    while i < |keys|
      invariant 0 <= i <= |keys|
      invariant fresh(m) && fresh(m.buckets) && m.Valid() && m.hash == hash && m.zero == zero
      invariant m.Contents == UpsertAll(map[], ps[..i])
    {
      StoreThrough(m, keys[i], values[i]);
      UpsertAllStep(map[], ps, i);
      i := i + 1;
    }
    assert ps[..i] == ps;
    return Success(m);
  }

  /**
   * ConstIterator: a cursor (bucketInd, pairInd) into one map, at a pair or
   * at the end sentinel (capacity, 0). Its Position is its place in the
   * iteration order Flatten(buckets).
   */
  class ConstIterator<K(==), V(==)> {
    const table: HashMap<K, V>
    var bucketInd: int
    var pairInd: int

    ghost predicate Valid()
      reads this, table, table.buckets
    {
      && table.capacity == table.buckets.Length
      && ValidPos(table.buckets[..], bucketInd, pairInd)
      && (bucketInd < table.capacity ==> Rank(table.buckets[..], bucketInd, pairInd) < |Flatten(table.buckets[..])|)
    }

    ghost function Position(): nat
      reads this, table, table.buckets
      requires Valid()
    {
      Rank(table.buckets[..], bucketInd, pairInd)
    }

    /** begin() (first pair of the first non-empty bucket) or end(). */
    constructor (table: HashMap<K, V>, isBegin: bool)
      requires table.Valid()
      ensures this.table == table && Valid()
      ensures Position() == if isBegin then 0 else |Flatten(table.buckets[..])|
    {
      this.table := table;
      var b := table.buckets;
      var i := table.capacity;
      if isBegin {
        i := SkipEmpty(b, 0);
        assert b[..][..0] == [];
      }
      assert b[..][..b.Length] == b[..];
      if i < table.capacity {
        RankIdentifiesPosition(b[..], i, 0, i, 0);
      }
      bucketInd := i;
      pairInd := 0;
    }

    /**
     * operator++: invalid_argument at the end; otherwise the cursor moves to
     * the next pair of its bucket, or to the first pair of the next non-empty
     * bucket, or to the end sentinel, that is, one place on in the order.
     */
    method Next() returns (r: Outcome)
      requires Valid()
      modifies this
      ensures Valid()
      ensures old(bucketInd) >= table.capacity ==> r == Fail(InvalidArgument) && bucketInd == old(bucketInd) && pairInd == old(pairInd)
      ensures old(bucketInd) < table.capacity ==> r == Pass && Position() == old(Position()) + 1
    {
      var b := table.buckets;
      if bucketInd >= table.capacity {
        return Fail(InvalidArgument);
      }
      if pairInd < |b[bucketInd]| - 1 {
        pairInd := pairInd + 1;
        RankIdentifiesPosition(b[..], bucketInd, pairInd, bucketInd, pairInd);
        return Pass;
      }
      var bi := bucketInd;
      var i := SkipEmpty(b, bi + 1);
      FlattenPrefix(b[..], bi);
      assert b[..][..bi] == b[..bi] && b[..][..bi + 1] == b[..bi + 1];
      if i < table.capacity {
        RankIdentifiesPosition(b[..], i, 0, i, 0);
      }
      bucketInd := i;
      pairInd := 0;
      return Pass;
    }

    /** operator*: the pair at the cursor, the one at its place in the iteration order. */
    function Get(): (e: (K, V))
      reads this, table, table.buckets
      requires Valid() && bucketInd < table.capacity
      ensures e == Flatten(table.buckets[..])[Position()]
    {
      RankIdentifiesPosition(table.buckets[..], bucketInd, pairInd, bucketInd, pairInd);
      table.buckets[bucketInd][pairInd]
    }

    /** operator==: the same map and the same place in its iteration order. */
    function Equals(other: ConstIterator<K, V>): (r: bool)
      reads this, table, table.buckets, other, other.table, other.table.buckets
      requires Valid() && other.Valid()
      ensures r <==> table == other.table && Position() == other.Position()
    {
      if table == other.table then
        RankIdentifiesPosition(table.buckets[..], bucketInd, pairInd, other.bucketInd, other.pairInd);
        bucketInd == other.bucketInd && pairInd == other.pairInd
      else false
    }
  }

  /** The loop `for (it = begin; it != end; ++it)` collecting `*it`, on iterators of one map. */
  method Collect<K(==), V(==)>(it: ConstIterator<K, V>, end: ConstIterator<K, V>) returns (s: seq<(K, V)>)
    requires it.Valid() && end.Valid() && it.table == end.table && it != end
    requires it.Position() == 0 && end.Position() == |Flatten(end.table.buckets[..])|
    modifies it
    ensures s == Flatten(it.table.buckets[..])
  {
    ghost var b0 := it.table.buckets[..];
    ghost var all := Flatten(b0);
    s := [];
    while !it.Equals(end)
      invariant it.Valid() && end.Valid() && it.table == end.table
      invariant it.table.buckets[..] == b0 && end.Position() == |all|
      invariant it.Position() <= |all|
      invariant s == all[..it.Position()]
      decreases |all| - it.Position()
    {
      s := CollectOne(it, s);
    }
    assert all[..|all|] == all;
  }

  /** One round of the loop: `*it` is appended and `++it` moves one place on. */
  method CollectOne<K(==), V(==)>(it: ConstIterator<K, V>, s: seq<(K, V)>) returns (s': seq<(K, V)>)
    requires it.Valid() && it.Position() < |Flatten(it.table.buckets[..])|
    requires s == Flatten(it.table.buckets[..])[..it.Position()]
    modifies it
    ensures it.Valid() && it.Position() == old(it.Position()) + 1
    ensures s' == Flatten(it.table.buckets[..])[..it.Position()]
  {
    ghost var b := it.table.buckets[..];
    ghost var p := it.Position();
    RankIdentifiesPosition(b, it.bucketInd, it.pairInd, it.bucketInd, it.pairInd);
    var e := it.Get();
    TakeOneMore(Flatten(b), p);
    s' := s + [e];
    var _ := it.Next();
  }

  /**
   * A loop from begin() to end() collects the pairs in bucket order and, in
   * each bucket, in push order: every entry of the map exactly once.
   */
  method Traverse<K(==), V(==)>(m: HashMap<K, V>) returns (s: seq<(K, V)>)
    requires m.Valid()
    ensures s == Flatten(m.buckets[..])
    ensures |s| == |m.Contents| && KeysDistinct(s)
    ensures forall e | e in s :: e.0 in m.Contents && m.Contents[e.0] == e.1
    ensures forall k | k in m.Contents :: (k, m.Contents[k]) in s
  {
    ghost var b, c := m.buckets[..], m.Contents;
    assert Represents(b, c, m.hash);
    var it := new ConstIterator(m, true);
    var end := new ConstIterator(m, false);
    s := Collect(it, end);
    assert m.buckets[..] == b && m.Contents == c;
    TraversalVisitsEachEntryOnce(b, c, m.hash);
  }

  /**
   * The calls of main.cpp on HashMap<int, int> (std::hash<int> is the
   * identity): a default map has size 0 and capacity 16, and after
   * insert(1, 10) size 1 and capacity 16; after `h[1] = 8` the size is still
   * 1 and key 1 holds 8; the map built from {1,1,1} and {2,2,3} has size 1
   * and maps 1 to 3.
   */
  method MainScenario() returns (size0: nat, cap0: nat, size1: nat, cap1: nat,
                                 sizeStored: nat, stored: Result<int>, size2: nat, one: int)
    ensures size0 == 0 && cap0 == 16 && size1 == 1 && cap1 == 16
    ensures sizeStored == 1 && stored == Success(8)
    ensures size2 == 1 && one == 3
  {
    var h := new HashMap<int, int>(k => k, 0);
    size0, cap0 := h.size, h.capacity;
    var _ := h.Insert(1, 10);
    size1, cap1 := h.size, h.capacity;
    h.SubscriptStore(1, 8);
    sizeStored := h.size;
    stored := h.At(1);
    var built := FromVectors(k => k, 0, [1, 1, 1], [2, 2, 3]);
    DuplicateKeysKeepLastValue();
    var dana := built.value;
    size2 := dana.size;
    one := dana.Subscript(1);
  }
}
