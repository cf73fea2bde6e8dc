/**
 * The bucket array of HashMap.hpp as a value: `b[i]` is the vector of
 * (key, value) pairs in bucket i, in push_back order. This module says when
 * such an array stores a given map, how a rehash redistributes it, when the
 * capacity policy resizes it, and in which order the ConstIterator walks it.
 */
module Buckets {
  import opened Bits
  import opened Failures

  /** All pairs in iteration order: bucket 0 first, each bucket front to back. */
  function Flatten<K(==), V>(b: seq<seq<(K, V)>>): seq<(K, V)>
    decreases |b|
  {
    if b == [] then [] else Flatten(b[..|b| - 1]) + b[|b| - 1]
  }

  /** No two pairs of s share a key. */
  predicate KeysDistinct<K(==), V>(s: seq<(K, V)>) {
    forall a, c | 0 <= a < c < |s| :: s[a].0 != s[c].0
  }

  /** Every pair sits in the bucket that slotOf names for its key. */
  ghost predicate SlotsMatch<K, V>(b: seq<seq<(K, V)>>, slotOf: K -> int) {
    forall i, j | 0 <= i < |b| && 0 <= j < |b[i]| :: slotOf(b[i][j].0) == i
  }

  /** Every pair sits in bucket `hash(key) & (|b| - 1)`. */
  ghost predicate Placed<K, V>(b: seq<seq<(K, V)>>, hash: K -> int)
    requires IsPow2(|b|)
  {
    forall i, j | 0 <= i < |b| && 0 <= j < |b[i]| :: Index(hash(b[i][j].0), |b|) == i
  }

  /** No bucket holds a key twice. */
  ghost predicate BucketsDistinct<K, V>(b: seq<seq<(K, V)>>) {
    forall i | 0 <= i < |b| :: KeysDistinct(b[i])
  }

  /** Every stored pair is an entry of m. */
  ghost predicate Sound<K, V>(b: seq<seq<(K, V)>>, m: map<K, V>) {
    forall i, j | 0 <= i < |b| && 0 <= j < |b[i]| :: b[i][j].0 in m && m[b[i][j].0] == b[i][j].1
  }

  /** Every entry of m is stored in its bucket. */
  ghost predicate Complete<K, V>(b: seq<seq<(K, V)>>, m: map<K, V>, hash: K -> int)
    requires IsPow2(|b|)
  {
    forall k | k in m :: (k, m[k]) in b[Index(hash(k), |b|)]
  }

  /**
   * The bucket array b stores exactly the map m: its length is a power of two,
   * every pair sits in bucket `hash(key) & (|b| - 1)`, no bucket repeats a key,
   * every pair is an entry of m, every entry of m is in its bucket, and the
   * number of stored pairs is the number of entries.
   */
  ghost predicate Represents<K, V>(b: seq<seq<(K, V)>>, m: map<K, V>, hash: K -> int) {
    && IsPow2(|b|)
    && Placed(b, hash)
    && BucketsDistinct(b)
    && Sound(b, m)
    && Complete(b, m, hash)
    && |Flatten(b)| == |m|
  }

  /** c empty buckets, as `new bucket[c]` allocates them. */
  function EmptyBuckets<K(==), V>(c: nat): (b: seq<seq<(K, V)>>)
    ensures |b| == c && forall i | 0 <= i < c :: b[i] == []
  {
    seq(c, _ => [])
  }

  // ---------------------------------------------------------------------------
  // Flatten

  lemma {:induction false} FlattenAppend<K, V>(a: seq<seq<(K, V)>>, c: seq<seq<(K, V)>>)
    ensures Flatten(a + c) == Flatten(a) + Flatten(c)
    decreases |c|
  {
    if c == [] {
      assert a + c == a;
    } else {
      var c' := c[..|c| - 1];
      assert (a + c)[..|a + c| - 1] == a + c';
      FlattenAppend(a, c');
    }
  }

  /** The prefix of length p + 1 is the prefix of length p and element p. */
  lemma TakeOneMore<T>(s: seq<T>, p: nat)
    requires p < |s|
    ensures s[..p + 1] == s[..p] + [s[p]]
  {
  }

  lemma FlattenPrefix<K, V>(b: seq<seq<(K, V)>>, i: nat)
    requires i < |b|
    ensures Flatten(b[..i + 1]) == Flatten(b[..i]) + b[i]
  {
    assert b[..i + 1][..i] == b[..i];
  }

  /** Replacing one bucket changes the number of stored pairs by the difference. */
  lemma FlattenUpdateLength<K, V>(b: seq<seq<(K, V)>>, i: nat, t: seq<(K, V)>)
    requires i < |b|
    ensures |Flatten(b[i := t])| == |Flatten(b)| - |b[i]| + |t|
  {
    var pre, post := b[..i], b[i + 1..];
    assert b == pre + [b[i]] + post;
    assert b[i := t] == pre + [t] + post;
    FlattenAppend(pre + [b[i]], post);
    FlattenAppend(pre, [b[i]]);
    FlattenAppend(pre + [t], post);
    FlattenAppend(pre, [t]);
    assert Flatten([b[i]]) == b[i] by { assert [b[i]][..0] == []; }
    assert Flatten([t]) == t by { assert [t][..0] == []; }
  }

  /** A pair is visited by the flattening iff it is in one of the buckets. */
  lemma {:induction false} FlattenMember<K, V>(b: seq<seq<(K, V)>>, e: (K, V))
    ensures e in Flatten(b) <==> exists i :: 0 <= i < |b| && e in b[i]
    decreases |b|
  {
    if b != [] {
      var b' := b[..|b| - 1];
      FlattenMember(b', e);
      if e in Flatten(b) && e !in b[|b| - 1] {
        var i :| 0 <= i < |b'| && e in b'[i];
        assert e in b[i];
      }
      if exists i :: 0 <= i < |b| && e in b[i] {
        var i :| 0 <= i < |b| && e in b[i];
        if i < |b| - 1 {
          assert e in b'[i];
        }
      }
    }
  }

  lemma {:induction false} FlattenAllEmpty<K, V>(b: seq<seq<(K, V)>>)
    requires forall i | 0 <= i < |b| :: b[i] == []
    ensures Flatten(b) == []
    decreases |b|
  {
    if b != [] {
      FlattenAllEmpty(b[..|b| - 1]);
    }
  }

  /** The flattening of a longer prefix is at least as long. */
  lemma {:induction false} FlattenPrefixMonotone<K, V>(b: seq<seq<(K, V)>>, i: nat, j: nat)
    requires i <= j <= |b|
    ensures |Flatten(b[..i])| <= |Flatten(b[..j])|
    decreases j - i
  {
    if i < j {
      FlattenPrefixMonotone(b, i, j - 1);
      FlattenPrefix(b, j - 1);
    }
  }

  /** Pair j of bucket i is visited at position |Flatten(b[..i])| + j. */
  lemma FlattenAt<K, V>(b: seq<seq<(K, V)>>, i: nat, j: nat)
    requires i < |b| && j < |b[i]|
    ensures |Flatten(b[..i])| + j < |Flatten(b)|
    ensures Flatten(b)[|Flatten(b[..i])| + j] == b[i][j]
  {
    assert b == b[..i + 1] + b[i + 1..];
    FlattenAppend(b[..i + 1], b[i + 1..]);
    FlattenPrefix(b, i);
  }

  /**
   * Keys are distinct across the whole flattening when each bucket has
   * distinct keys and each key belongs to one bucket only.
   */
  lemma {:induction false} FlattenKeysDistinct<K, V>(b: seq<seq<(K, V)>>, slotOf: K -> int)
    requires SlotsMatch(b, slotOf)
    requires forall i | 0 <= i < |b| :: KeysDistinct(b[i])
    ensures KeysDistinct(Flatten(b))
    decreases |b|
  {
    if b != [] {
      var n := |b| - 1;
      var b', last := b[..n], b[n];
      FlattenKeysDistinct(b', slotOf);
      var x: seq<(K, V)> := Flatten(b');
      assert Flatten(b) == x + last;
      forall a: int, c: int | 0 <= a < |x| <= c < |x| + |last|
        ensures (x + last)[a].0 != (x + last)[c].0
      {
        FlattenMember(b', x[a]);
        var i :| 0 <= i < |b'| && x[a] in b'[i];
        var j :| 0 <= j < |b'[i]| && b'[i][j] == x[a];
        assert slotOf(x[a].0) == i;
        assert slotOf(last[c - |x|].0) == n;
      }
    }
  }

  // ---------------------------------------------------------------------------
  // Updates of one bucket keep the representation

  /** The empty table of any power-of-two capacity stores the empty map. */
  lemma EmptyRepresents<K, V>(c: nat, hash: K -> int)
    requires IsPow2(c)
    ensures Represents(EmptyBuckets<K, V>(c), map[], hash)
  {
    FlattenAllEmpty(EmptyBuckets<K, V>(c));
  }

  /** insert: appending an absent key to its bucket stores the extended map. */
  lemma InsertRepresents<K, V>(b: seq<seq<(K, V)>>, m: map<K, V>, hash: K -> int, k: K, v: V)
    requires Represents(b, m, hash) && k !in m
    ensures var i := Index(hash(k), |b|);
      Represents(b[i := b[i] + [(k, v)]], m[k := v], hash)
  {
    var i := Index(hash(k), |b|);
    var t := b[i] + [(k, v)];
    FlattenUpdateLength(b, i, t);
    InsertPlaced(b, hash, k, v);
    InsertDistinct(b, m, hash, k, v);
    ReplaceDistinct(b, i, t);
    InsertSound(b, m, hash, k, v);
    InsertComplete(b, m, hash, k, v);
  }

  /** The pushed pair goes to its own bucket, so every pair stays placed. */
  lemma InsertPlaced<K, V>(b: seq<seq<(K, V)>>, hash: K -> int, k: K, v: V)
    requires IsPow2(|b|) && Placed(b, hash)
    ensures var i := Index(hash(k), |b|);
      Placed(b[i := b[i] + [(k, v)]], hash)
  {
    var i := Index(hash(k), |b|);
    var b': seq<seq<(K, V)>> := b[i := b[i] + [(k, v)]];
    forall i': int, j': int | 0 <= i' < |b'| && 0 <= j' < |b'[i']|
      ensures Index(hash(b'[i'][j'].0), |b'|) == i'
    {
      if i' != i || j' < |b[i]| {
        assert b'[i'][j'] == b[i'][j'];
      }
    }
  }

  /** A key absent from m is not yet in its bucket, so the bucket keeps distinct keys. */
  lemma InsertDistinct<K, V>(b: seq<seq<(K, V)>>, m: map<K, V>, hash: K -> int, k: K, v: V)
    requires IsPow2(|b|) && BucketsDistinct(b) && Sound(b, m) && k !in m
    ensures KeysDistinct(b[Index(hash(k), |b|)] + [(k, v)])
  {
    var i := Index(hash(k), |b|);
    var t := b[i] + [(k, v)];
    forall a: int, c: int | 0 <= a < c < |t|
      ensures t[a].0 != t[c].0
    {
      if c == |b[i]| {
        assert b[i][a].0 in m;
      } else {
        assert KeysDistinct(b[i]);
      }
    }
  }

  /** Every stored pair, old or pushed, is an entry of m[k := v]. */
  lemma InsertSound<K, V>(b: seq<seq<(K, V)>>, m: map<K, V>, hash: K -> int, k: K, v: V)
    requires IsPow2(|b|) && Sound(b, m) && k !in m
    ensures var i := Index(hash(k), |b|);
      Sound(b[i := b[i] + [(k, v)]], m[k := v])
  {
    var i := Index(hash(k), |b|);
    var b': seq<seq<(K, V)>> := b[i := b[i] + [(k, v)]];
    forall i': int, j': int | 0 <= i' < |b'| && 0 <= j' < |b'[i']|
      ensures b'[i'][j'].0 in m[k := v] && m[k := v][b'[i'][j'].0] == b'[i'][j'].1
    {
      if i' != i || j' < |b[i]| {
        assert b'[i'][j'] == b[i'][j'];
        assert b[i'][j'].0 in m;
      }
    }
  }

  /** Every entry of m[k := v] is in its bucket: the old ones stay, the new one is pushed. */
  lemma InsertComplete<K, V>(b: seq<seq<(K, V)>>, m: map<K, V>, hash: K -> int, k: K, v: V)
    requires IsPow2(|b|) && Complete(b, m, hash) && k !in m
    ensures var i := Index(hash(k), |b|);
      Complete(b[i := b[i] + [(k, v)]], m[k := v], hash)
  {
    var i := Index(hash(k), |b|);
    var t := b[i] + [(k, v)];
    var b': seq<seq<(K, V)>> := b[i := t];
    forall k' | k' in m[k := v]
      ensures (k', m[k := v][k']) in b'[Index(hash(k'), |b'|)]
    {
      if k' != k {
        assert (k', m[k']) in b[Index(hash(k'), |b|)];
      } else {
        assert t[|b[i]|] == (k, v);
      }
    }
  }

  /** The vector erase of HashMap.hpp:372: the bucket without its j-th pair, order kept. */
  function RemoveAt<K, V>(s: seq<(K, V)>, j: nat): (t: seq<(K, V)>)
    requires j < |s|
    ensures |t| == |s| - 1
    ensures forall p | 0 <= p < |t| :: t[p] == if p < j then s[p] else s[p + 1]
  {
    s[..j] + s[j + 1..]
  }

  /** Pairs other than the removed one are still there after RemoveAt. */
  lemma RemoveAtKeeps<K, V>(s: seq<(K, V)>, j: nat, p: nat)
    requires j < |s| && p < |s| && p != j
    ensures s[p] in RemoveAt(s, j)
  {
    var t := RemoveAt(s, j);
    if p < j {
      assert t[p] == s[p];
    } else {
      assert t[p - 1] == s[p];
    }
  }

  lemma RemoveAtDistinct<K, V>(s: seq<(K, V)>, j: nat)
    requires j < |s| && KeysDistinct(s)
    ensures KeysDistinct(RemoveAt(s, j))
    ensures forall p | 0 <= p < |RemoveAt(s, j)| :: RemoveAt(s, j)[p].0 != s[j].0
  {
    var t := RemoveAt(s, j);
    forall a: int, c: int | 0 <= a < c < |t|
      ensures t[a].0 != t[c].0
    {
      var a', c' := if a < j then a else a + 1, if c < j then c else c + 1;
      assert t[a] == s[a'] && t[c] == s[c'] && a' < c';
    }
  }

  /** Replacing bucket i by a bucket without repeated keys keeps every bucket free of repeats. */
  lemma ReplaceDistinct<K, V>(b: seq<seq<(K, V)>>, i: nat, t: seq<(K, V)>)
    requires BucketsDistinct(b) && i < |b| && KeysDistinct(t)
    ensures BucketsDistinct(b[i := t])
  {
    var b': seq<seq<(K, V)>> := b[i := t];
    forall i' | 0 <= i' < |b'| && i' != i
      ensures KeysDistinct(b'[i'])
    {
      assert b'[i'] == b[i'];
    }
  }

  /** Pairs of bucket i stay placed when one of them is removed. */
  lemma ErasePlaced<K, V>(b: seq<seq<(K, V)>>, hash: K -> int, i: nat, j: nat)
    requires IsPow2(|b|) && Placed(b, hash) && i < |b| && j < |b[i]|
    ensures Placed(b[i := RemoveAt(b[i], j)], hash)
  {
    var b': seq<seq<(K, V)>> := b[i := RemoveAt(b[i], j)];
    forall i': int, j': int | 0 <= i' < |b'| && 0 <= j' < |b'[i']|
      ensures Index(hash(b'[i'][j'].0), |b'|) == i'
    {
      if i' != i {
        assert b'[i'][j'] == b[i'][j'];
      } else {
        assert b'[i'][j'] == b[i][if j' < j then j' else j' + 1];
      }
    }
  }

  /** After the removal every stored pair is an entry of m - {k}. */
  lemma EraseSound<K, V>(b: seq<seq<(K, V)>>, m: map<K, V>, hash: K -> int, k: K, j: nat)
    requires IsPow2(|b|) && Placed(b, hash) && Sound(b, m)
    requires j < |b[Index(hash(k), |b|)]| && b[Index(hash(k), |b|)][j].0 == k
    requires KeysDistinct(b[Index(hash(k), |b|)])
    ensures var i := Index(hash(k), |b|);
      Sound(b[i := RemoveAt(b[i], j)], m - {k})
  {
    var i := Index(hash(k), |b|);
    var b': seq<seq<(K, V)>> := b[i := RemoveAt(b[i], j)];
    forall i': int, j': int | 0 <= i' < |b'| && 0 <= j' < |b'[i']|
      ensures b'[i'][j'].0 in m - {k} && (m - {k})[b'[i'][j'].0] == b'[i'][j'].1
    {
      if i' != i {
        assert b'[i'][j'] == b[i'][j'];
        assert Index(hash(b[i'][j'].0), |b|) == i';
      } else {
        var q := if j' < j then j' else j' + 1;
        assert b'[i'][j'] == b[i][q] && q != j;
      }
    }
  }

  /** After the removal every entry of m - {k} is still in its bucket. */
  lemma EraseComplete<K, V>(b: seq<seq<(K, V)>>, m: map<K, V>, hash: K -> int, k: K, j: nat)
    requires IsPow2(|b|) && Complete(b, m, hash)
    requires j < |b[Index(hash(k), |b|)]| && b[Index(hash(k), |b|)][j].0 == k
    ensures var i := Index(hash(k), |b|);
      Complete(b[i := RemoveAt(b[i], j)], m - {k}, hash)
  {
    var i := Index(hash(k), |b|);
    var b': seq<seq<(K, V)>> := b[i := RemoveAt(b[i], j)];
    forall k' | k' in m - {k}
      ensures (k', m[k']) in b'[Index(hash(k'), |b'|)]
    {
      var i' := Index(hash(k'), |b|);
      assert (k', m[k']) in b[i'];
      if i' == i {
        var p :| 0 <= p < |b[i]| && b[i][p] == (k', m[k']);
        RemoveAtKeeps(b[i], j, p);
      }
    }
  }

  /** erase: removing the pair at position j of its bucket stores the map without k. */
  lemma EraseRepresents<K, V>(b: seq<seq<(K, V)>>, m: map<K, V>, hash: K -> int, k: K, j: nat)
    requires Represents(b, m, hash)
    requires Index(hash(k), |b|) < |b| && j < |b[Index(hash(k), |b|)]|
    requires b[Index(hash(k), |b|)][j].0 == k
    ensures k in m && |m - {k}| == |m| - 1
    ensures var i := Index(hash(k), |b|);
      Removed(b, k, hash) == b[i := RemoveAt(b[i], j)]
    ensures Represents(Removed(b, k, hash), m - {k}, hash)
  {
    var i := Index(hash(k), |b|);
    var t := RemoveAt(b[i], j);
    assert k in m;
    RemoveAtIsWithout(b[i], j);
    assert (m - {k}).Keys == m.Keys - {k};
    FlattenUpdateLength(b, i, t);
    assert KeysDistinct(b[i]);
    RemoveAtDistinct(b[i], j);
    ReplaceDistinct(b, i, t);
    ErasePlaced(b, hash, i, j);
    EraseSound(b, m, hash, k, j);
    EraseComplete(b, m, hash, k, j);
  }

  /** Overwriting the value of the pair at (i, j) keeps every pair placed. */
  lemma SetValuePlaced<K, V>(b: seq<seq<(K, V)>>, hash: K -> int, i: nat, j: nat, v: V)
    requires IsPow2(|b|) && Placed(b, hash) && i < |b| && j < |b[i]|
    ensures Placed(b[i := b[i][j := (b[i][j].0, v)]], hash)
  {
    var b': seq<seq<(K, V)>> := b[i := b[i][j := (b[i][j].0, v)]];
    forall i': int, j': int | 0 <= i' < |b'| && 0 <= j' < |b'[i']|
      ensures Index(hash(b'[i'][j'].0), |b'|) == i'
    {
      assert b'[i'][j'].0 == b[i'][j'].0;
    }
  }

  /** After the overwrite every stored pair is an entry of m[k := v]. */
  lemma SetValueSound<K, V>(b: seq<seq<(K, V)>>, m: map<K, V>, hash: K -> int, k: K, v: V, j: nat)
    requires IsPow2(|b|) && Placed(b, hash) && Sound(b, m)
    requires j < |b[Index(hash(k), |b|)]| && b[Index(hash(k), |b|)][j].0 == k
    requires KeysDistinct(b[Index(hash(k), |b|)])
    ensures var i := Index(hash(k), |b|);
      Sound(b[i := b[i][j := (k, v)]], m[k := v])
  {
    var i := Index(hash(k), |b|);
    var b': seq<seq<(K, V)>> := b[i := b[i][j := (k, v)]];
    forall i': int, j': int | 0 <= i' < |b'| && 0 <= j' < |b'[i']|
      ensures b'[i'][j'].0 in m[k := v] && m[k := v][b'[i'][j'].0] == b'[i'][j'].1
    {
      if i' != i || j' != j {
        assert b'[i'][j'] == b[i'][j'];
        assert b[i'][j'].0 in m;
        if i' == i {
          assert b[i][j'].0 != b[i][j].0;
        } else {
          assert Index(hash(b[i'][j'].0), |b|) == i';
        }
      }
    }
  }

  /** After the overwrite every entry of m[k := v] is in its bucket. */
  lemma SetValueComplete<K, V>(b: seq<seq<(K, V)>>, m: map<K, V>, hash: K -> int, k: K, v: V, j: nat)
    requires IsPow2(|b|) && Complete(b, m, hash)
    requires j < |b[Index(hash(k), |b|)]| && b[Index(hash(k), |b|)][j].0 == k
    ensures var i := Index(hash(k), |b|);
      Complete(b[i := b[i][j := (k, v)]], m[k := v], hash)
  {
    var i := Index(hash(k), |b|);
    var t := b[i][j := (k, v)];
    var b': seq<seq<(K, V)>> := b[i := t];
    forall k' | k' in m[k := v]
      ensures (k', m[k := v][k']) in b'[Index(hash(k'), |b'|)]
    {
      if k' == k {
        assert t[j] == (k, v);
      } else {
        var i' := Index(hash(k'), |b|);
        assert (k', m[k']) in b[i'];
        if i' == i {
          var p :| 0 <= p < |b[i]| && b[i][p] == (k', m[k']);
          assert p != j && t[p] == b[i][p];
        }
      }
    }
  }

  /** Writing through the reference to k's value stores the updated map. */
  lemma SetValueRepresents<K, V>(b: seq<seq<(K, V)>>, m: map<K, V>, hash: K -> int, k: K, v: V, j: nat)
    requires Represents(b, m, hash)
    requires Index(hash(k), |b|) < |b| && j < |b[Index(hash(k), |b|)]|
    requires b[Index(hash(k), |b|)][j].0 == k
    ensures k in m
    ensures var i := Index(hash(k), |b|);
      Stored(b, k, v, hash) == b[i := b[i][j := (k, v)]]
    ensures Represents(Stored(b, k, v, hash), m[k := v], hash)
  {
    var i := Index(hash(k), |b|);
    var t := b[i][j := (k, v)];
    assert k in m;
    FlattenUpdateLength(b, i, t);
    assert KeysDistinct(b[i]);
    OverwriteIsUpdate(b[i], j, v);
    forall a: int, c: int | 0 <= a < c < |t|
      ensures t[a].0 != t[c].0
    {
      assert t[a].0 == b[i][a].0 && t[c].0 == b[i][c].0;
    }
    ReplaceDistinct(b, i, t);
    SetValuePlaced(b, hash, i, j, v);
    SetValueSound(b, m, hash, k, v, j);
    SetValueComplete(b, m, hash, k, v, j);
  }

  /** Looking a key up in its bucket finds it iff the table stores it, with its value. */
  lemma KeyInSlot<K, V>(b: seq<seq<(K, V)>>, m: map<K, V>, hash: K -> int, k: K)
    requires Represents(b, m, hash)
    ensures var s := b[Index(hash(k), |b|)];
      (k in m <==> exists p :: 0 <= p < |s| && s[p].0 == k)
      && forall p | 0 <= p < |s| && s[p].0 == k :: k in m && s[p].1 == m[k]
  {
    var s := b[Index(hash(k), |b|)];
    if k in m {
      assert (k, m[k]) in s;
    }
  }

  /** A table that stores the empty map has only empty buckets. */
  lemma EmptyMapEmptyBuckets<K, V>(b: seq<seq<(K, V)>>, hash: K -> int)
    requires Represents(b, map[], hash)
    ensures b == EmptyBuckets(|b|)
  {
    assert forall i | 0 <= i < |b| :: |b[i]| == 0 || b[i][0] in b[i];
  }


  /** The bucket array after appending (k, v) to the back of k's bucket. */
  function Appended<K, V>(b: seq<seq<(K, V)>>, k: K, v: V, hash: K -> int): seq<seq<(K, V)>>
    requires IsPow2(|b|)
  {
    var i := Index(hash(k), |b|);
    b[i := b[i] + [(k, v)]]
  }

  /** s without its pairs whose key is k, the others in their order. */
  function Without<K(==), V>(s: seq<(K, V)>, k: K): seq<(K, V)>
    decreases |s|
  {
    if s == [] then []
    else
      var t := Without(s[..|s| - 1], k);
      if s[|s| - 1].0 == k then t else t + [s[|s| - 1]]
  }

  /** A pair survives Without exactly when it was there and its key is not k. */
  lemma {:induction false} WithoutMembers<K, V>(s: seq<(K, V)>, k: K, e: (K, V))
    ensures e in Without(s, k) <==> e in s && e.0 != k
    decreases |s|
  {
    if s != [] {
      var s' := s[..|s| - 1];
      WithoutMembers(s', k, e);
      assert s == s' + [s[|s| - 1]];
    }
  }

  lemma {:induction false} WithoutAppend<K, V>(a: seq<(K, V)>, c: seq<(K, V)>, k: K)
    ensures Without(a + c, k) == Without(a, k) + Without(c, k)
    decreases |c|
  {
    if c == [] {
      assert a + c == a;
    } else {
      var c' := c[..|c| - 1];
      assert (a + c)[..|a + c| - 1] == a + c';
      WithoutAppend(a, c', k);
    }
  }

  lemma {:induction false} WithoutAbsent<K, V>(s: seq<(K, V)>, k: K)
    requires forall p | 0 <= p < |s| :: s[p].0 != k
    ensures Without(s, k) == s
    decreases |s|
  {
    if s != [] {
      WithoutAbsent(s[..|s| - 1], k);
    }
  }

  /**
   * Erasing the pair at position j from a bucket with distinct keys removes
   * exactly the pairs with that key and keeps the order of the others.
   */
  lemma RemoveAtIsWithout<K, V>(s: seq<(K, V)>, j: nat)
    requires j < |s| && KeysDistinct(s)
    ensures RemoveAt(s, j) == Without(s, s[j].0)
  {
    var k := s[j].0;
    var pre, post := s[..j], s[j + 1..];
    var mid := pre + [s[j]];
    assert s == mid + post;
    forall p | 0 <= p < |pre|
      ensures pre[p].0 != k
    {
      assert pre[p] == s[p];
    }
    forall p | 0 <= p < |post|
      ensures post[p].0 != k
    {
      assert post[p] == s[j + 1 + p];
    }
    WithoutAppend(mid, post, k);
    assert mid[..|mid| - 1] == pre;
    WithoutAbsent(pre, k);
    WithoutAbsent(post, k);
  }

  /** The bucket array after removing k from k's bucket. */
  function Removed<K(==), V>(b: seq<seq<(K, V)>>, k: K, hash: K -> int): seq<seq<(K, V)>>
    requires IsPow2(|b|)
  {
    var i := Index(hash(k), |b|);
    b[i := Without(b[i], k)]
  }

  /** s with the value of every pair whose key is k replaced by v. */
  function Overwrite<K(==), V>(s: seq<(K, V)>, k: K, v: V): (t: seq<(K, V)>)
    ensures |t| == |s|
    ensures forall p | 0 <= p < |s| :: t[p] == if s[p].0 == k then (k, v) else s[p]
  {
    seq(|s|, p requires 0 <= p < |s| => if s[p].0 == k then (k, v) else s[p])
  }

  /** The bucket array after writing v through the reference to k's value. */
  function Stored<K(==), V>(b: seq<seq<(K, V)>>, k: K, v: V, hash: K -> int): seq<seq<(K, V)>>
    requires IsPow2(|b|)
  {
    var i := Index(hash(k), |b|);
    b[i := Overwrite(b[i], k, v)]
  }

  /** In a bucket with distinct keys, overwriting k is writing its one slot. */
  lemma OverwriteIsUpdate<K, V>(s: seq<(K, V)>, j: nat, v: V)
    requires j < |s| && KeysDistinct(s)
    ensures Overwrite(s, s[j].0, v) == s[j := (s[j].0, v)]
  {
  }

  // ---------------------------------------------------------------------------
  // Rehash

  /**
   * The bucket array of capacity c that a rehash builds from the pairs s,
   * pushing each pair, in order, to the back of bucket `hash(key) & (c - 1)`.
   */
  function Distribute<K(==), V>(s: seq<(K, V)>, c: nat, hash: K -> int): (d: seq<seq<(K, V)>>)
    requires IsPow2(c)
    ensures |d| == c
    decreases |s|
  {
    if s == [] then EmptyBuckets(c)
    else
      var d := Distribute(s[..|s| - 1], c, hash);
      var e := s[|s| - 1];
      var i := Index(hash(e.0), c);
      d[i := d[i] + [e]]
  }

  lemma DistributeSnoc<K, V>(s: seq<(K, V)>, e: (K, V), c: nat, hash: K -> int)
    requires IsPow2(c)
    ensures var d := Distribute(s, c, hash); var i := Index(hash(e.0), c);
      Distribute(s + [e], c, hash) == d[i := d[i] + [e]]
  {
    assert (s + [e])[..|s|] == s;
  }

  /** A pair is in bucket j of the redistribution iff it was among s and hashes to j. */
  lemma {:induction false} DistributeMember<K, V>(s: seq<(K, V)>, c: nat, hash: K -> int, e: (K, V), j: nat)
    requires IsPow2(c) && j < c
    ensures e in Distribute(s, c, hash)[j] <==> e in s && Index(hash(e.0), c) == j
    decreases |s|
  {
    if s != [] {
      var s' := s[..|s| - 1];
      DistributeMember(s', c, hash, e, j);
      assert s == s' + [s[|s| - 1]];
    }
  }

  /** The redistribution stores as many pairs as it was given. */
  lemma {:induction false} DistributeLength<K, V>(s: seq<(K, V)>, c: nat, hash: K -> int)
    requires IsPow2(c)
    ensures |Flatten(Distribute(s, c, hash))| == |s|
    decreases |s|
  {
    if s == [] {
      FlattenAllEmpty(EmptyBuckets<K, V>(c));
    } else {
      var s' := s[..|s| - 1];
      DistributeLength(s', c, hash);
      var d := Distribute(s', c, hash);
      var e := s[|s| - 1];
      FlattenUpdateLength(d, Index(hash(e.0), c), d[Index(hash(e.0), c)] + [e]);
    }
  }

  /** Redistributing pairs with distinct keys gives buckets with distinct keys. */
  lemma {:induction false} DistributeDistinct<K, V>(s: seq<(K, V)>, c: nat, hash: K -> int)
    requires IsPow2(c) && KeysDistinct(s)
    ensures forall j | 0 <= j < c :: KeysDistinct(Distribute(s, c, hash)[j])
    decreases |s|
  {
    if s != [] {
      var s' := s[..|s| - 1];
      var e := s[|s| - 1];
      DistributeDistinct(s', c, hash);
      var d: seq<seq<(K, V)>> := Distribute(s', c, hash);
      var i := Index(hash(e.0), c);
      forall p: int | 0 <= p < |d[i]|
        ensures d[i][p].0 != e.0
      {
        DistributeMember(s', c, hash, d[i][p], i);
        var q :| 0 <= q < |s'| && s'[q] == d[i][p];
        assert s[q] == s'[q];
      }
    }
  }

  /**
   * Rehash is lossless: redistributing the pairs of a table that stores m
   * into any power-of-two capacity gives a table that stores m.
   */
  lemma DistributeRepresents<K, V>(b: seq<seq<(K, V)>>, m: map<K, V>, hash: K -> int, c: nat)
    requires Represents(b, m, hash) && IsPow2(c)
    ensures Represents(Distribute(Flatten(b), c, hash), m, hash)
  {
    var s: seq<(K, V)> := Flatten(b);
    var d: seq<seq<(K, V)>> := Distribute(s, c, hash);
    FlattenKeysDistinct(b, k => Index(hash(k), |b|));
    DistributeDistinct(s, c, hash);
    DistributeLength(s, c, hash);
    forall i: int, j: int | 0 <= i < c && 0 <= j < |d[i]|
      ensures Index(hash(d[i][j].0), c) == i
      ensures d[i][j].0 in m && m[d[i][j].0] == d[i][j].1
    {
      DistributeMember(s, c, hash, d[i][j], i);
      FlattenMember(b, d[i][j]);
    }
    forall k | k in m
      ensures (k, m[k]) in d[Index(hash(k), c)]
    {
      FlattenMember(b, (k, m[k]));
      DistributeMember(s, c, hash, (k, m[k]), Index(hash(k), c));
    }
  }

  /**
   * The rehash of HashMap.hpp:495-503 as written: it indexes the new array
   * with the mask of the OLD capacity, because `_capacity` is updated only
   * after the loop. None stands for a write past the end of the new array.
   */
  function DistributeAsWritten<K(==), V>(s: seq<(K, V)>, oldCap: nat, newCap: nat, hash: K -> int): (r: Option<seq<seq<(K, V)>>>)
    requires IsPow2(oldCap)
    ensures r.Some? ==> |r.value| == newCap
    decreases |s|
  {
    if s == [] then Some(EmptyBuckets(newCap))
    else
      match DistributeAsWritten(s[..|s| - 1], oldCap, newCap, hash)
      case None => None
      case Some(d) =>
        var e := s[|s| - 1];
        var i := Index(hash(e.0), oldCap);
        if i < newCap then Some(d[i := d[i] + [e]]) else None
  }

  /**
   * Growing as written: a key whose bucket differs under the two masks is put
   * where no later lookup (which uses the new mask) searches for it.
   */
  lemma AsWrittenGrowthMisplaces<K, V>(e: (K, V), oldCap: nat, newCap: nat, hash: K -> int)
    requires IsPow2(oldCap) && IsPow2(newCap) && oldCap < newCap
    requires Index(hash(e.0), oldCap) != Index(hash(e.0), newCap)
    ensures var r := DistributeAsWritten([e], oldCap, newCap, hash);
      r.Some? && e in r.value[Index(hash(e.0), oldCap)] && e !in r.value[Index(hash(e.0), newCap)]
  {
    assert [e][..0] == [];
  }

  /** The 13th insert into a default map grows it from 16 to 32 buckets; key 17 is then lost. */
  lemma AsWrittenGrowthLosesKey17(v: int)
    ensures var r := DistributeAsWritten([(17, v)], 16, 32, (k: int) => k);
      r.Some? && (17, v) !in r.value[Index(17, 32)] && !Represents(r.value, map[17 := v], (k: int) => k)
  {
    assert IsPow2(16) && IsPow2(32);
    assert Index(17, 16) == 1 && Index(17, 32) == 17;
    AsWrittenGrowthMisplaces((17, v), 16, 32, (k: int) => k);
  }

  /** Shrinking as written: a pair whose old bucket is past the new array is written out of bounds. */
  lemma AsWrittenShrinkOverruns<K, V>(e: (K, V), oldCap: nat, newCap: nat, hash: K -> int)
    requires IsPow2(oldCap) && Index(hash(e.0), oldCap) >= newCap
    ensures DistributeAsWritten([e], oldCap, newCap, hash).None?
  {
    assert [e][..0] == [];
  }

  /** Erasing one of two keys from a default map shrinks it from 16 to 8 buckets; key 9 overruns. */
  lemma AsWrittenShrinkOverrunsKey9(v: int)
    ensures DistributeAsWritten([(9, v)], 16, 8, (k: int) => k).None?
  {
    assert IsPow2(16);
    assert Index(9, 16) == 9;
    AsWrittenShrinkOverruns((9, v), 16, 8, (k: int) => k);
  }

  // ---------------------------------------------------------------------------
  // Capacity policy (update_capacity)

  /** After an insert: a load factor above 0.75 (4 * size > 3 * cap) doubles the capacity. */
  function GrowTarget(size: int, cap: nat): nat {
    if 4 * size > 3 * cap then 2 * cap else cap
  }

  /**
   * After an erase: an empty table collapses to one bucket, a load factor
   * below 0.25 (4 * size < cap) halves the capacity.
   */
  function ShrinkTarget(size: int, cap: nat): nat {
    if size == 0 then 1 else if 4 * size < cap then cap / 2 else cap
  }

  /** Whether update_capacity calls rehash at all. */
  predicate ResizeDue(isGrow: bool, size: int, cap: nat) {
    if isGrow then 4 * size > 3 * cap else size == 0 || 4 * size < cap
  }

  function Target(isGrow: bool, size: int, cap: nat): nat {
    if isGrow then GrowTarget(size, cap) else ShrinkTarget(size, cap)
  }

  /** The capacity chosen by the policy is a power of two whenever the old one is. */
  lemma TargetPow2(isGrow: bool, size: nat, cap: nat)
    requires IsPow2(cap)
    ensures IsPow2(Target(isGrow, size, cap))
  {
    if isGrow && ResizeDue(isGrow, size, cap) {
      DoublePow2(cap);
    } else if !isGrow && size > 0 && 4 * size < cap {
      HalvePow2(cap);
    }
  }

  /**
   * The policy keeps the capacity a power of two and the load factor at most
   * 0.75, given that it held before the insert or erase that changed size by one.
   */
  lemma PolicyKeepsBounds(isGrow: bool, size: nat, cap: nat)
    requires IsPow2(cap)
    requires isGrow ==> size >= 1 && 4 * (size - 1) <= 3 * cap
    requires !isGrow ==> 4 * size <= 3 * cap
    ensures IsPow2(Target(isGrow, size, cap))
    ensures 4 * size <= 3 * Target(isGrow, size, cap)
    ensures !ResizeDue(isGrow, size, cap) ==> Target(isGrow, size, cap) == cap
  {
    if isGrow && ResizeDue(isGrow, size, cap) {
      DoublePow2(cap);
    } else if !isGrow && size > 0 && 4 * size < cap {
      HalvePow2(cap);
    }
  }

  /**
   * An erase halves the capacity at most once, so the load factor can stay
   * below 0.25 afterwards: with one pair left in 16 buckets the table shrinks
   * to 8; any size below an eighth of the capacity ends below a quarter of
   * the halved one.
   */
  lemma ShrinkHalvesOnce(size: nat, cap: nat)
    requires IsPow2(cap) && size > 0 && 8 * size < cap
    ensures ShrinkTarget(size, cap) == cap / 2
    ensures 4 * size < ShrinkTarget(size, cap)
  {
    HalvePow2(cap);
  }

  /**
   * The bucket array after update_capacity: unchanged when no resize is due,
   * one empty bucket when an erase emptied the table, and otherwise every pair
   * redistributed, in iteration order, into the target capacity.
   */
  function Rebalanced<K(==), V>(isGrow: bool, b: seq<seq<(K, V)>>, size: nat, hash: K -> int): (r: seq<seq<(K, V)>>)
    requires IsPow2(|b|)
    ensures |r| == Target(isGrow, size, |b|) && IsPow2(|r|)
  {
    TargetPow2(isGrow, size, |b|);
    if !ResizeDue(isGrow, size, |b|) then b
    else if !isGrow && size == 0 then EmptyBuckets(1)
    else Distribute(Flatten(b), Target(isGrow, size, |b|), hash)
  }

  /**
   * update_capacity after an insert (isGrow) or an erase keeps the stored map
   * and re-establishes the load-factor bound 4 * size <= 3 * capacity.
   */
  lemma RebalancedRepresents<K, V>(isGrow: bool, b: seq<seq<(K, V)>>, m: map<K, V>, hash: K -> int)
    requires Represents(b, m, hash)
    requires isGrow ==> |m| >= 1 && 4 * (|m| - 1) <= 3 * |b|
    requires !isGrow ==> 4 * |m| <= 3 * |b|
    ensures Represents(Rebalanced(isGrow, b, |m|, hash), m, hash)
    ensures 4 * |m| <= 3 * |Rebalanced(isGrow, b, |m|, hash)|
  {
    PolicyKeepsBounds(isGrow, |m|, |b|);
    var c := Target(isGrow, |m|, |b|);
    if !ResizeDue(isGrow, |m|, |b|) {
    } else if !isGrow && |m| == 0 {
      assert m == map[];
      EmptyRepresents<K, V>(1, hash);
    } else {
      DistributeRepresents(b, m, hash, c);
    }
  }

  /** Empty buckets contribute nothing to the iteration order. */
  lemma {:induction false} FlattenSkipEmpty<K, V>(b: seq<seq<(K, V)>>, lo: nat, hi: nat)
    requires lo <= hi <= |b|
    requires forall p | lo <= p < hi :: b[p] == []
    ensures Flatten(b[..hi]) == Flatten(b[..lo])
    decreases hi - lo
  {
    if lo < hi {
      FlattenSkipEmpty(b, lo, hi - 1);
      FlattenPrefix(b, hi - 1);
    }
  }

  // ---------------------------------------------------------------------------
  // Iteration order (ConstIterator)

  /**
   * A ConstIterator position: a pair inside a bucket, or the end sentinel
   * (capacity, 0).
   */
  predicate ValidPos<K(==), V>(b: seq<seq<(K, V)>>, bi: int, pi: int) {
    (0 <= bi < |b| && 0 <= pi < |b[bi]|) || (bi == |b| && pi == 0)
  }

  /** How many pairs an iterator has passed: its position in Flatten(b). */
  function Rank<K(==), V>(b: seq<seq<(K, V)>>, bi: int, pi: int): nat
    requires ValidPos(b, bi, pi)
  {
    |Flatten(b[..bi])| + pi
  }

  /**
   * Positions are in one-to-one correspondence with places in the iteration
   * order: the end sentinel is place |Flatten(b)|, every other position holds
   * the pair at its place.
   */
  lemma RankIdentifiesPosition<K, V>(b: seq<seq<(K, V)>>, bi: int, pi: int, bj: int, pj: int)
    requires ValidPos(b, bi, pi) && ValidPos(b, bj, pj)
    ensures (bi == bj && pi == pj) <==> Rank(b, bi, pi) == Rank(b, bj, pj)
    ensures bi == |b| <==> Rank(b, bi, pi) == |Flatten(b)|
    ensures bi < |b| ==> Rank(b, bi, pi) < |Flatten(b)| && Flatten(b)[Rank(b, bi, pi)] == b[bi][pi]
  {
    assert b[..|b|] == b;
    if bi < |b| {
      FlattenAt(b, bi, pi);
    }
    if bi < bj {
      RankBefore(b, bi, pi, bj, pj);
    } else if bj < bi {
      RankBefore(b, bj, pj, bi, pi);
    }
  }

  /** A position in an earlier bucket comes earlier in the iteration order. */
  lemma RankBefore<K, V>(b: seq<seq<(K, V)>>, bi: int, pi: int, bj: int, pj: int)
    requires ValidPos(b, bi, pi) && ValidPos(b, bj, pj) && bi < bj
    ensures Rank(b, bi, pi) < Rank(b, bj, pj)
  {
    FlattenPrefix(b, bi);
    FlattenPrefixMonotone(b, bi + 1, bj);
  }

  /**
   * A full iteration over a table that stores m visits each entry of m
   * exactly once and nothing else.
   */
  lemma TraversalVisitsEachEntryOnce<K, V>(b: seq<seq<(K, V)>>, m: map<K, V>, hash: K -> int)
    requires Represents(b, m, hash)
    ensures |Flatten(b)| == |m|
    ensures KeysDistinct(Flatten(b))
    ensures forall e :: e in Flatten(b) <==> e.0 in m && m[e.0] == e.1
  {
    FlattenKeysDistinct(b, k => Index(hash(k), |b|));
    forall e
      ensures e in Flatten(b) <==> e.0 in m && m[e.0] == e.1
    {
      FlattenMember(b, e);
      if e.0 in m && m[e.0] == e.1 {
        assert e in b[Index(hash(e.0), |b|)];
      }
    }
  }

  // ---------------------------------------------------------------------------
  // Equality (operator==)

  /**
   * A map of the same size that holds every pair stored in b, when b
   * represents o, is o itself.
   */
  lemma HoldsStoredEqual<K, V>(b: seq<seq<(K, V)>>, o: map<K, V>, m: map<K, V>, hash: K -> int)
    requires Represents(b, o, hash) && |m| == |o|
    requires forall i, j | 0 <= i < |b| && 0 <= j < |b[i]| :: b[i][j].0 in m && m[b[i][j].0] == b[i][j].1
    ensures m == o
  {
    forall k | k in o
      ensures k in m && m[k] == o[k]
    {
      var i := Index(hash(k), |b|);
      assert (k, o[k]) in b[i];
      var j :| 0 <= j < |b[i]| && b[i][j] == (k, o[k]);
    }
    IncludedSameSizeEqual(m, o);
  }

  /**
   * operator== checks that the sizes agree and that every entry of the other
   * map is in this one; for finite maps that is map equality.
   */
  lemma IncludedSameSizeEqual<K, V>(m: map<K, V>, o: map<K, V>)
    requires |m| == |o|
    requires forall k | k in o :: k in m && m[k] == o[k]
    ensures m == o
  {
    assert o.Keys <= m.Keys;
    assert |m.Keys - o.Keys| == |m.Keys| - |o.Keys|;
    assert m.Keys == o.Keys;
  }
}
