/** Maps stored under encoded keys: `stored` holds under `key(i)` what `entries` holds under `i`. */
module KeyedMaps {

  ghost predicate Injective<I(!new), K>(key: I -> K) {
    forall i, j :: key(i) == key(j) ==> i == j
  }

  ghost predicate Represents<I, K, V>(key: I -> K, stored: map<K, V>, entries: map<I, V>) {
    && (forall i :: i in entries ==> key(i) in stored && stored[key(i)] == entries[i])
    && (forall k :: k in stored ==> exists i :: i in entries && key(i) == k)
  }

  lemma Lookup<I(!new), K, V>(key: I -> K, stored: map<K, V>, entries: map<I, V>, i: I)
    requires Injective(key) && Represents(key, stored, entries)
    ensures key(i) in stored <==> i in entries
    ensures i in entries ==> stored[key(i)] == entries[i]
  {
    if key(i) in stored {
      var j :| j in entries && key(j) == key(i);
    }
  }

  lemma Store<I(!new), K, V>(key: I -> K, stored: map<K, V>, entries: map<I, V>, i: I, v: V)
    requires Injective(key) && Represents(key, stored, entries)
    ensures Represents(key, stored[key(i) := v], entries[i := v])
  {
    var stored', entries' := stored[key(i) := v], entries[i := v];
    forall k | k in stored' ensures exists j :: j in entries' && key(j) == k {
      if k == key(i) {
        assert i in entries';
      } else {
        var j :| j in entries && key(j) == k;
        assert j in entries';
      }
    }
  }

  lemma Erase<I(!new), K, V>(key: I -> K, stored: map<K, V>, entries: map<I, V>, i: I)
    requires Injective(key) && Represents(key, stored, entries)
    ensures Represents(key, stored - {key(i)}, entries - {i})
  {
    forall k | k in stored - {key(i)} ensures exists j :: j in entries - {i} && key(j) == k {
      var j :| j in entries && key(j) == k;
      assert j in entries - {i};
    }
  }

  /** Dropping and changing entries in step on both sides. */
  lemma Refilter<I(!new), K, V>(key: I -> K, stored: map<K, V>, entries: map<I, V>,
                                stored': map<K, V>, entries': map<I, V>)
    requires Represents(key, stored, entries) && stored'.Keys <= stored.Keys && entries'.Keys <= entries.Keys
    requires forall i :: i in entries ==> (i in entries' <==> key(i) in stored')
    requires forall i :: i in entries' ==> entries'[i] == stored'[key(i)]
    ensures Represents(key, stored', entries')
  {
    forall k | k in stored' ensures exists i :: i in entries' && key(i) == k {
      var i :| i in entries && key(i) == k;
    }
  }

  /** The entries still to visit, on both sides. */
  ghost predicate SameLeft<I, K>(key: I -> K, all: set<I>, left: set<I>, rest: set<K>) {
    forall i :: i in all ==> (i in left <==> key(i) in rest)
  }

  lemma VisitNext<I(!new), K>(key: I -> K, all: set<I>, left: set<I>, rest: set<K>, i: I)
    requires Injective(key) && SameLeft(key, all, left, rest)
    ensures SameLeft(key, all, left - {i}, rest - {key(i)})
  {
  }
}
