/** What a merge restore leaves in the link tables of the catalog, row by row. */
module RestoredLinks {
  import opened Wrappers
  import opened Library
  import opened Snapshots
  import opened SnapshotAuthors
  import opened Catalogs

  /** All rows of `table` as they are, and those of `src` under their moved keys. */
  ghost predicate KeysJoined<K(!new), V(!new)>(table: map<K, V>, src: map<K, V>, move: K -> K, r: map<K, V>)
  {
    && (forall k :: k in table ==> k in r && r[k] == table[k])
    && (forall j :: j in src ==> move(j) in r)
    && (forall k :: k in r && k !in table ==> exists j :: j in src && move(j) == k && r[k] == src[j])
  }

  ghost predicate HaveMovedKeys<K(!new), V(!new)>(rows: seq<(K, V)>, move: K -> K, moved: seq<(K, V)>)
  {
    |moved| == |rows| && forall i :: 0 <= i < |rows| ==> moved[i] == (move(rows[i].0), rows[i].1)
  }

  lemma LoadJoinsKeys<K(!new), V(!new)>(table: map<K, V>, src: map<K, V>, rows: seq<(K, V)>, move: K -> K,
                                        moved: seq<(K, V)>, refers: (K, V) -> bool, r: map<K, V>)
    requires Lists(rows, src) && HaveMovedKeys(rows, move, moved) && Load(table, moved, refers) == Some(r)
    ensures KeysJoined(table, src, move, r)
  {
    hide Load;
    LoadFacts(table, moved, refers, r);
    forall j | j in src ensures move(j) in r {
      var i :| 0 <= i < |rows| && rows[i].0 == j;
      assert moved[i].0 in r;
    }
    forall k | k in r && k !in table ensures exists j :: j in src && move(j) == k && r[k] == src[j] {
      var i :| 0 <= i < |moved| && moved[i].0 == k && moved[i].1 == r[k];
      assert move(rows[i].0) == k && src[rows[i].0] == rows[i].1;
    }
  }

  function MoveCredit(ids: IdMap): Credit -> Credit
  {
    (c: Credit) => (Resolve(ids, c.0), c.1, c.2)
  }

  function MoveVolume(ids: IdMap): ((Id, Id)) -> (Id, Id)
  {
    (k: (Id, Id)) => (Resolve(ids, k.0), k.1)
  }

  function MoveImport(ids: IdMap): ((Id, Id)) -> (Id, Id)
  {
    (k: (Id, Id)) => (k.0, Resolve(ids, k.1))
  }

  /** Credits, volumes and import entries of the library stay, and those of the backup follow their book. */
  lemma RestoredLinkRows(c: Catalog, src: Catalog, d: CatalogRows, ids: IdMap, books: set<Id>, r: Catalog)
    requires ListsCatalog(d, src) && RestoreCatalog(c, d, ids, books) == Some(r)
    ensures KeysJoined(c.credits, src.credits, MoveCredit(ids), r.credits)
    ensures KeysJoined(c.volumes, src.volumes, MoveVolume(ids), r.volumes)
    ensures KeysJoined(c.imports, src.imports, MoveImport(ids), r.imports)
  {
    CatalogUnfold(c, d, ids, books, r);
    hide RestoreCatalog, Load, KeysJoined, Lists, Resolve, CreditRefers, VolumeRefers, FileRefers, ImportRefers;
    LoadJoinsKeys(c.credits, src.credits, d.credits, MoveCredit(ids), RemapCredits(d.credits, ids),
                  CreditRefers(books, r.authors), r.credits);
    LoadJoinsKeys(c.volumes, src.volumes, d.volumes, MoveVolume(ids), RemapVolumes(d.volumes, ids),
                  VolumeRefers(books, r.series), r.volumes);
    LoadJoinsKeys(c.imports, src.imports, d.imports, MoveImport(ids), RemapImports(d.imports, ids),
                  ImportRefers(books, r.importLogs), r.imports);
  }
}
