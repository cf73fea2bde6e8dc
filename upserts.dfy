/**
 * Repeated `map[key] = value` assignments, as the HashMap vector constructor
 * and Dictionary::update perform them, on the abstract map: later pairs
 * overwrite earlier ones.
 */
module Upserts {
  import opened Failures

  /** m after assigning each pair of ps in order through operator[]. */
  function UpsertAll<K, V>(m: map<K, V>, ps: seq<(K, V)>): map<K, V>
    decreases |ps|
  {
    if ps == [] then m
    else UpsertAll(m, ps[..|ps| - 1])[ps[|ps| - 1].0 := ps[|ps| - 1].1]
  }

  /** The pairs (keys[i], values[i]) of two vectors of equal length. */
  function Zip<K, V>(keys: seq<K>, values: seq<V>): (ps: seq<(K, V)>)
    requires |keys| == |values|
    ensures |ps| == |keys|
    ensures forall i | 0 <= i < |ps| :: ps[i] == (keys[i], values[i])
  {
    seq(|keys|, i requires 0 <= i < |keys| => (keys[i], values[i]))
  }

  /** One more assignment: the prefix of length i + 1 after the prefix of length i. */
  lemma UpsertAllStep<K, V>(m: map<K, V>, ps: seq<(K, V)>, i: nat)
    requires i < |ps|
    ensures UpsertAll(m, ps[..i + 1]) == UpsertAll(m, ps[..i])[ps[i].0 := ps[i].1]
  {
    assert ps[..i + 1][..i] == ps[..i];
  }

  /** Storing twice under one key leaves only the second value. */
  lemma UpdateTwice<K, V>(m: map<K, V>, k: K, a: V, b: V)
    ensures m[k := a][k := b] == m[k := b]
  {
  }

  /** The value paired with k at its last occurrence in ps, if k occurs. */
  function LastValue<K(==), V>(ps: seq<(K, V)>, k: K): (r: Option<V>)
    ensures r.None? <==> forall i | 0 <= i < |ps| :: ps[i].0 != k
    decreases |ps|
  {
    if ps == [] then None
    else if ps[|ps| - 1].0 == k then Some(ps[|ps| - 1].1)
    else
      var front := ps[..|ps| - 1];
      assert forall i | 0 <= i < |front| :: front[i] == ps[i];
      LastValue(front, k)
  }

  /** When the last pair with key k is at position i, LastValue is its value. */
  lemma {:induction false} LastValueAt<K, V>(ps: seq<(K, V)>, k: K, i: nat)
    requires i < |ps| && ps[i].0 == k
    requires forall i' | i < i' < |ps| :: ps[i'].0 != k
    ensures LastValue(ps, k) == Some(ps[i].1)
    decreases |ps|
  {
    if i < |ps| - 1 {
      var front := ps[..|ps| - 1];
      assert front[i] == ps[i];
      LastValueAt(front, k, i);
    }
  }

  /**
   * After the assignments, k is present iff it was present before or occurs
   * in ps, and its value is the one at its last occurrence in ps, or the old
   * value when ps does not mention it.
   */
  lemma {:induction false} UpsertAllLastWins<K, V>(m: map<K, V>, ps: seq<(K, V)>, k: K)
    ensures k in UpsertAll(m, ps) <==> k in m || LastValue(ps, k).Some?
    ensures k in UpsertAll(m, ps) ==>
      UpsertAll(m, ps)[k] == if LastValue(ps, k).Some? then LastValue(ps, k).value else m[k]
    decreases |ps|
  {
    if ps != [] {
      UpsertAllLastWins(m, ps[..|ps| - 1], k);
    }
  }

  /** Keys that ps does not mention keep their presence and value. */
  lemma UpsertAllKeepsOthers<K, V>(m: map<K, V>, ps: seq<(K, V)>, k: K)
    requires forall i | 0 <= i < |ps| :: ps[i].0 != k
    ensures k in UpsertAll(m, ps) <==> k in m
    ensures k in m ==> UpsertAll(m, ps)[k] == m[k]
  {
    UpsertAllLastWins(m, ps, k);
  }

  /** The construction in main.cpp: keys {1,1,1} with values {2,2,3} give the single entry 1 -> 3. */
  lemma DuplicateKeysKeepLastValue()
    ensures UpsertAll(map[], Zip([1, 1, 1], [2, 2, 3])) == map[1 := 3]
  {
    var ps: seq<(int, int)> := Zip([1, 1, 1], [2, 2, 3]);
    var r := UpsertAll(map[], ps);
    LastValueAt(ps, 1, 2);
    forall k
      ensures k in r <==> k == 1
    {
      UpsertAllLastWins(map[], ps, k);
    }
    UpsertAllLastWins(map[], ps, 1);
    assert r.Keys == {1};
  }
}
