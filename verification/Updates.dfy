/** Batches of replacements and removals, and what they make of a finite map. */
module Updates {
  import opened Wrappers

  /** A replacement, or a removal when the value is absent. */
  datatype Update<+K, +V> = Update(key: K, value: Option<V>)

  ghost function Updated<K, V>(contents: map<K, V>, updates: seq<Update<K, V>>): map<K, V>
    decreases |updates|
  {
    if updates == [] then contents
    else var last := updates[|updates| - 1]; Put(Updated(contents, updates[..|updates| - 1]), last.key, last.value)
  }

  /** The last update of a key decides; a key without updates keeps its value. */
  lemma {:induction false} LastUpdateWins<K, V>(contents: map<K, V>, updates: seq<Update<K, V>>, key: K, last: int)
    requires -1 <= last < |updates| && (last >= 0 ==> updates[last].key == key)
    requires forall i :: last < i < |updates| ==> updates[i].key != key
    ensures Get(Updated(contents, updates), key) == if last == -1 then Get(contents, key) else updates[last].value
    decreases |updates|
  {
    if updates != [] {
      var final, earlier := updates[|updates| - 1], updates[..|updates| - 1];
      PutThenGet(Updated(contents, earlier), final.key, final.value, key);
      if last < |updates| - 1 {
        LastUpdateWins(contents, earlier, key, last);
      }
    }
  }

  lemma NothingUpdated<K, V>(contents: map<K, V>)
    ensures Updated(contents, []) == contents
  {
  }

  lemma UpdatedOneMore<K, V>(contents: map<K, V>, updates: seq<Update<K, V>>, n: nat)
    requires n < |updates|
    ensures Updated(contents, updates[..n + 1]) ==
            Put(Updated(contents, updates[..n]), updates[n].key, updates[n].value)
  {
    assert updates[..n + 1][..n] == updates[..n];
  }

  /** Applying the first update and then the others is applying them all. */
  lemma {:induction false} UpdatedFirst<K, V>(contents: map<K, V>, first: Update<K, V>, rest: seq<Update<K, V>>)
    ensures Updated(contents, [first] + rest) == Updated(Put(contents, first.key, first.value), rest)
    decreases |rest|
  {
    var all := [first] + rest;
    if rest == [] {
      assert all[..|all| - 1] == [];
    } else {
      assert all[..|all| - 1] == [first] + rest[..|rest| - 1];
      UpdatedFirst(contents, first, rest[..|rest| - 1]);
    }
  }

  // ----- Runs of batches -----

  /** One batch of a run: the version it starts from, and its updates. */
  datatype Batch<+K, +V> = Batch(version: nat, updates: seq<Update<K, V>>)

  /** The first version is empty, and every other one is an earlier version with a batch applied. */
  lemma {:induction false} MeaningsMean<K, V>(batches: seq<Batch<K, V>>, i: nat)
    requires InOrder(batches) && i < |batches|
    ensures Meanings(batches)[0] == map[]
    ensures Meanings(batches)[i + 1] == Updated(Meanings(batches)[batches[i].version], batches[i].updates)
    decreases |batches|
  {
    var earlier := batches[..|batches| - 1];
    if i < |earlier| {
      MeaningsMean(earlier, i);
    } else if earlier != [] {
      MeaningsMean(earlier, 0);
    }
  }

  /** Each batch starts from a version that exists by then. */
  ghost predicate InOrder<K, V>(batches: seq<Batch<K, V>>) {
    forall i | 0 <= i < |batches| :: batches[i].version <= i
  }

  /** What the versions of a run mean; the first one is empty. */
  ghost function Meanings<K, V>(batches: seq<Batch<K, V>>): (meanings: seq<map<K, V>>)
    requires InOrder(batches)
    ensures |meanings| == |batches| + 1
    decreases |batches|
  {
    if batches == [] then [map[]]
    else
      var last, earlier := batches[|batches| - 1], Meanings(batches[..|batches| - 1]);
      earlier + [Updated(earlier[last.version], last.updates)]
  }
}
