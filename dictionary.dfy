/**
 * The Dictionary of Dictionary.hpp: a HashMap from strings to strings with a
 * bulk `update` and an `erase` override. The C++ class inherits from
 * HashMap<string, string>; here a Dictionary holds that map as `table`, and
 * every inherited operation is the HashMap operation on `table`.
 */
module Dict {
  import opened Failures
  import opened Buckets
  import opened Upserts
  import opened HashTable

  class Dictionary {
    const table: HashMap<string, string>

    ghost predicate Valid()
      reads this, table, table.buckets
    {
      table.Valid()
    }

    constructor (table: HashMap<string, string>)
      requires table.Valid()
      ensures this.table == table && Valid()
    {
      this.table := table;
    }

    /**
     * update(begin, end): `map[p.first] = p.second` for each pair p of the
     * range, in order, through the inherited operator[].
     */
    method Update(pairs: seq<(string, string)>)
      requires Valid()
      modifies table, table.buckets
      ensures Valid() && (table.buckets == old(table.buckets) || fresh(table.buckets))
      ensures table.Contents == UpsertAll(old(table.Contents), pairs)
    {
      ghost var c0 := table.Contents;
      var i := 0;
      assert pairs[..0] == [];
      while i < |pairs|
        invariant 0 <= i <= |pairs|
        invariant table.Valid()
        invariant table.buckets == old(table.buckets) || fresh(table.buckets)
        invariant table.Contents == UpsertAll(c0, pairs[..i])
      {
        StoreThrough(table, pairs[i].0, pairs[i].1);
        UpsertAllStep(c0, pairs, i);
        i := i + 1;
      }
      assert pairs[..i] == pairs;
    }

    /**
     * erase as written: the base erase runs, and when it finds nothing an
     * InvalidKey is constructed but not thrown, so the result is always true.
     * A present key leaves exactly as HashMap::erase removes it: size down by
     * one, the shrink check, and the rebalanced layout.
     */
    method Erase(key: string) returns (r: bool)
      requires Valid()
      modifies table, table.buckets
      ensures Valid() && (table.buckets == old(table.buckets) || fresh(table.buckets))
      ensures r
      ensures table.Contents == old(table.Contents) - {key}
      ensures key !in old(table.Contents) ==>
        table.buckets == old(table.buckets) && table.buckets[..] == old(table.buckets[..])
        && table.size == old(table.size) && table.capacity == old(table.capacity)
      ensures key in old(table.Contents) ==>
        table.size == old(table.size) - 1 && table.capacity == ShrinkTarget(table.size, old(table.capacity))
      ensures key in old(table.Contents) ==>
        table.buckets[..] == Rebalanced(false, Removed(old(table.buckets[..]), key, table.hash), table.size, table.hash)
    {
      var _ := table.Erase(key);
      r := true;
    }

    /**
     * erase as its documentation describes it: the base erase, and InvalidKey
     * when the key is absent.
     */
    method EraseChecked(key: string) returns (r: Outcome)
      requires Valid()
      modifies table, table.buckets
      ensures Valid() && (table.buckets == old(table.buckets) || fresh(table.buckets))
      ensures r == if key in old(table.Contents) then Pass else Fail(InvalidKey)
      ensures table.Contents == old(table.Contents) - {key}
      ensures key !in old(table.Contents) ==>
        table.buckets == old(table.buckets) && table.buckets[..] == old(table.buckets[..])
        && table.size == old(table.size) && table.capacity == old(table.capacity)
      ensures key in old(table.Contents) ==>
        table.size == old(table.size) - 1 && table.capacity == ShrinkTarget(table.size, old(table.capacity))
      ensures key in old(table.Contents) ==>
        table.buckets[..] == Rebalanced(false, Removed(old(table.buckets[..]), key, table.hash), table.size, table.hash)
    {
      var removed := table.Erase(key);
      r := if removed then Pass else Fail(InvalidKey);
    }
  }

  /**
   * The constructor: the HashMap vector constructor on the two vectors, so
   * length_error when their lengths differ and the last value of each key
   * otherwise. `hash` stands for std::hash<string>.
   */
  method NewDictionary(hash: string -> int, keys: seq<string>, values: seq<string>) returns (r: Result<Dictionary>)
    ensures r.Failure? <==> |keys| != |values|
    ensures r.Failure? ==> r.error == LengthError
    ensures r.Success? ==> fresh(r.value) && fresh(r.value.table) && fresh(r.value.table.buckets) && r.value.Valid()
    ensures r.Success? ==> r.value.table.hash == hash && r.value.table.zero == ""
    ensures r.Success? ==> r.value.table.Contents == UpsertAll(map[], Zip(keys, values))
  {
    var m := FromVectors(hash, "", keys, values);
    if m.Failure? {
      return Failure(m.error);
    }
    var d := new Dictionary(m.value);
    return Success(d);
  }

  /**
   * Erasing a key that is not there: the erase as written reports success,
   * the documented one raises InvalidKey.
   */
  method EraseAbsentScenario() returns (asWritten: bool, documented: Outcome)
    ensures asWritten && documented == Fail(InvalidKey)
  {
    var made := NewDictionary(s => |s|, ["a"], ["1"]);
    var d := made.value;
    DictionaryScenarioContents();
    asWritten := d.Erase("b");
    documented := d.EraseChecked("b");
  }

  /** The dictionary built from ["a"] and ["1"] holds just a -> 1. */
  lemma DictionaryScenarioContents()
    ensures UpsertAll(map[], Zip(["a"], ["1"])) == map["a" := "1"]
  {
    var ps: seq<(string, string)> := Zip(["a"], ["1"]);
    assert ps == [("a", "1")];
    assert ps[..0] == [];
  }
}
