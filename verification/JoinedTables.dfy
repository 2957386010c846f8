/** Inserting listed rows where they are absent, seen row by row. */
module JoinedTables {
  import opened Wrappers
  import opened Snapshots

  /** All rows of `table` as they are, and those of `src` under other keys, moved. */
  ghost predicate Joined<K(!new), V(!new)>(table: map<K, V>, src: map<K, V>, move: V -> V, r: map<K, V>)
  {
    && (forall k :: k in r <==> k in table || k in src)
    && (forall k :: k in table ==> r[k] == table[k])
    && (forall k :: k in src && k !in table ==> r[k] == move(src[k]))
  }

  /** The rows of a list with their values moved. */
  ghost predicate AreMoved<K(!new), V(!new)>(rows: seq<(K, V)>, move: V -> V, moved: seq<(K, V)>)
  {
    |moved| == |rows| && forall i :: 0 <= i < |rows| ==> moved[i] == (rows[i].0, move(rows[i].1))
  }

  lemma LoadJoins<K(!new), V(!new)>(table: map<K, V>, src: map<K, V>, rows: seq<(K, V)>, move: V -> V,
                                    moved: seq<(K, V)>, refers: (K, V) -> bool, r: map<K, V>)
    requires Lists(rows, src) && AreMoved(rows, move, moved) && Load(table, moved, refers) == Some(r)
    ensures Joined(table, src, move, r)
  {
    hide Load;
    LoadFacts(table, moved, refers, r);
    forall k | k in src ensures k in r {
      var i :| 0 <= i < |rows| && rows[i].0 == k;
      assert moved[i].0 in r;
    }
    forall k | k in r && k !in table ensures k in src && r[k] == move(src[k]) {
      var i :| 0 <= i < |moved| && moved[i].0 == k && moved[i].1 == r[k];
      assert rows[i].0 == k && src[k] == rows[i].1;
    }
  }

  function Same<V>(): V -> V
  {
    (v: V) => v
  }

  lemma LoadJoinsSame<K(!new), V(!new)>(table: map<K, V>, src: map<K, V>, rows: seq<(K, V)>, refers: (K, V) -> bool,
                                        r: map<K, V>)
    requires Lists(rows, src) && Load(table, rows, refers) == Some(r)
    ensures Joined(table, src, Same(), r)
  {
    hide Load;
    LoadJoins(table, src, rows, Same(), rows, refers, r);
  }
}
