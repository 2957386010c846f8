/** What the import of a snapshot counts: the rows of each table of the library it was taken from. */
module SnapshotCounts {
  import opened Text
  import opened Library
  import opened Snapshots

  function TableSizes(t: Tables): ApplyResult
  {
    ApplyResult(|t.books|, |t.sessions|, |t.progress|, |t.tags|, |t.notes|, |t.reviews|, |t.settings|)
  }

  lemma ListedRowsCount(t: Tables, s: Snapshot)
    requires SnapshotOf(t, s) && TagsAreFolded(t.tags)
    ensures RowsSeen(s) == TableSizes(t)
  {
    assert ExportBooks(t.books).Keys == t.books.Keys;
    ListCounts(s.books, ExportBooks(t.books));
    assert |ExportBooks(t.books)| == |t.books.Keys| == |t.books|;
    ListCounts(s.sessions, t.sessions);
    ListCounts(s.progress, t.progress);
    TagsCount(s.tags, t.tags);
    ListCounts(s.notes, t.notes);
    ListCounts(s.reviews, t.reviews);
    ListCounts(s.settings, t.settings);
    hide Lists, ListsTags, ListsLinks, ExportBooks, TagsAreFolded;
  }

  lemma ListCounts<K(!new), V(!new)>(rows: seq<(K, V)>, table: map<K, V>)
    requires Lists(rows, table)
    ensures |rows| == |table|
  {
    KeysCount(rows, table.Keys);
    assert |table| == |table.Keys|;
  }

  /** No two rows are of the same tag. */
  lemma TagsCount(rows: Rows<TagRow>, tags: map<TagKey, Tag>)
    requires ListsTags(rows, tags) && TagsAreFolded(tags)
    ensures |rows| == |tags|
  {
    hide LowerCase;
    var keyed := seq(|rows|, i requires 0 <= i < |rows| => (KeyOfRow(rows[i]), rows[i].0));
    forall i, j | 0 <= i < j < |keyed| ensures keyed[i].0 != keyed[j].0 {
      assert IsTagRow(rows[i], tags) && IsTagRow(rows[j], tags);
    }
    forall i | 0 <= i < |keyed| ensures keyed[i].0 in tags.Keys {
      assert IsTagRow(rows[i], tags);
    }
    forall k | k in tags.Keys ensures exists i :: 0 <= i < |keyed| && keyed[i].0 == k {
      var i :| 0 <= i < |rows| && rows[i] == (tags[k].id, TagRow(tags[k].name, k.tagType));
      assert keyed[i].0 == k;
    }
    KeysCount(keyed, tags.Keys);
    assert |tags| == |tags.Keys|;
  }

  /** A list with pairwise different keys is as long as its keys are many. */
  lemma {:induction false} KeysCount<K(!new), V>(rows: seq<(K, V)>, keys: set<K>)
    requires forall i, j :: 0 <= i < j < |rows| ==> rows[i].0 != rows[j].0
    requires forall i :: 0 <= i < |rows| ==> rows[i].0 in keys
    requires forall k :: k in keys ==> exists i :: 0 <= i < |rows| && rows[i].0 == k
    ensures |rows| == |keys|
  {
    if rows == [] {
      assert keys == {};
    } else {
      var init, last := rows[..|rows| - 1], rows[|rows| - 1].0;
      forall k | k in keys - {last} ensures exists i :: 0 <= i < |init| && init[i].0 == k {
        var i :| 0 <= i < |rows| && rows[i].0 == k;
        assert init[i].0 == k;
      }
      KeysCount(init, keys - {last});
    }
  }
}
