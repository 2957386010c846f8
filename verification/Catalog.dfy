/** The tables around the books: authors, works, series, files and import logs. A restore inserts their
    rows where they are absent, with the ids of books remapped. */
module Catalogs {
  import opened Wrappers
  import opened Library
  import opened SnapshotAuthors
  import opened Snapshots

  datatype Work = Work(title: string, originalLanguage: Option<string>, firstPublished: Option<string>,
                       createdAt: string)

  datatype Series = Series(name: string, totalBooks: Option<int>)

  datatype StoredFile = StoredFile(bookId: Id, path: string, format: string, sizeBytes: int, checksum: string,
                                   source: string,
                                   sourceRef: Option<string>, createdAt: string, updatedAt: string)

  datatype ImportLog = ImportLog(source: string, filePath: string, startedAt: string, finishedAt: Option<string>,
                                 totalRows: int, imported: int, skipped: int, errors: int)

  /** `credits` and `volumes` link books to authors and series, with a position; `imports` links import
      logs to books. */
  datatype Catalog = Catalog(
    authors: map<Id, Author>,
    works: map<Id, Work>,
    series: map<Id, Series>,
    credits: map<Credit, int>,
    volumes: map<(Id, Id), Option<string>>,
    files: map<Id, StoredFile>,
    importLogs: map<Id, ImportLog>,
    imports: map<(Id, Id), ()>)

  const EMPTY_CATALOG: Catalog := Catalog(map[], map[], map[], map[], map[], map[], map[], map[])

  /** The same tables as lists of rows. */
  datatype CatalogRows = CatalogRows(
    authors: Rows<Author>,
    works: Rows<Work>,
    series: Rows<Series>,
    credits: seq<(Credit, int)>,
    volumes: seq<((Id, Id), Option<string>)>,
    files: Rows<StoredFile>,
    importLogs: Rows<ImportLog>,
    imports: seq<((Id, Id), ())>)

  const NO_CATALOG_ROWS: CatalogRows := CatalogRows([], [], [], [], [], [], [], [])

  /** A remap of ids; an id that was never set stands for itself. */
  type IdMap = map<Id, Id>

  function Resolve(ids: IdMap, id: Id): Id
  {
    if id in ids then ids[id] else id
  }

  // ---------------------------------------------------------------------------
  // References
  // ---------------------------------------------------------------------------

  /** A row that refers to nothing. */
  function Free<K, V>(): (K, V) -> bool
  {
    (k: K, v: V) => true
  }

  function CreditRefers(books: set<Id>, authors: map<Id, Author>): (Credit, int) -> bool
  {
    (k: Credit, position: int) => k.0 in books && k.1 in authors
  }

  function VolumeRefers(books: set<Id>, series: map<Id, Series>): ((Id, Id), Option<string>) -> bool
  {
    (k: (Id, Id), position: Option<string>) => k.0 in books && k.1 in series
  }

  function FileRefers(books: set<Id>): (Id, StoredFile) -> bool
  {
    (id: Id, f: StoredFile) => f.bookId in books
  }

  function ImportRefers(books: set<Id>, logs: map<Id, ImportLog>): ((Id, Id), ()) -> bool
  {
    (k: (Id, Id), nothing: ()) => k.0 in logs && k.1 in books
  }

  function RemapCredits(rows: seq<(Credit, int)>, ids: IdMap): seq<(Credit, int)>
  {
    seq(|rows|, i requires 0 <= i < |rows| => ((Resolve(ids, rows[i].0.0), rows[i].0.1, rows[i].0.2), rows[i].1))
  }

  function RemapVolumes(rows: seq<((Id, Id), Option<string>)>, ids: IdMap): seq<((Id, Id), Option<string>)>
  {
    seq(|rows|, i requires 0 <= i < |rows| => ((Resolve(ids, rows[i].0.0), rows[i].0.1), rows[i].1))
  }

  function RemapFiles(rows: Rows<StoredFile>, ids: IdMap): Rows<StoredFile>
  {
    seq(|rows|, i requires 0 <= i < |rows| => (rows[i].0, rows[i].1.(bookId := Resolve(ids, rows[i].1.bookId))))
  }

  function RemapImports(rows: seq<((Id, Id), ())>, ids: IdMap): seq<((Id, Id), ())>
  {
    seq(|rows|, i requires 0 <= i < |rows| => ((rows[i].0.0, Resolve(ids, rows[i].0.1)), rows[i].1))
  }

  // ---------------------------------------------------------------------------
  // The rule
  // ---------------------------------------------------------------------------

  /** The catalog after a restore into a library with the given books, or nothing when a reference
      dangles. */
  function RestoreCatalog(c: Catalog, d: CatalogRows, ids: IdMap, books: set<Id>): Option<Catalog>
  {
    match (Load(c.authors, d.authors, Free()), Load(c.works, d.works, Free()), Load(c.series, d.series, Free()),
           Load(c.files, RemapFiles(d.files, ids), FileRefers(books)), Load(c.importLogs, d.importLogs, Free()))
    case (Some(authors), Some(works), Some(series), Some(files), Some(logs)) =>
      (match (Load(c.credits, RemapCredits(d.credits, ids), CreditRefers(books, authors)),
              Load(c.volumes, RemapVolumes(d.volumes, ids), VolumeRefers(books, series)),
              Load(c.imports, RemapImports(d.imports, ids), ImportRefers(books, logs)))
       case (Some(credits), Some(volumes), Some(imports)) =>
         Some(Catalog(authors, works, series, credits, volumes, files, logs, imports))
       case _ => None)
    case _ => None
  }

  /** `r` has the tables that the rule gives. */
  ghost predicate CatalogOf(c: Catalog, d: CatalogRows, ids: IdMap, books: set<Id>, r: Catalog)
  {
    && Load(c.authors, d.authors, Free()) == Some(r.authors)
    && Load(c.works, d.works, Free()) == Some(r.works)
    && Load(c.series, d.series, Free()) == Some(r.series)
    && Load(c.credits, RemapCredits(d.credits, ids), CreditRefers(books, r.authors)) == Some(r.credits)
    && Load(c.volumes, RemapVolumes(d.volumes, ids), VolumeRefers(books, r.series)) == Some(r.volumes)
    && Load(c.files, RemapFiles(d.files, ids), FileRefers(books)) == Some(r.files)
    && Load(c.importLogs, d.importLogs, Free()) == Some(r.importLogs)
    && Load(c.imports, RemapImports(d.imports, ids), ImportRefers(books, r.importLogs)) == Some(r.imports)
  }

  lemma CatalogUnfold(c: Catalog, d: CatalogRows, ids: IdMap, books: set<Id>, r: Catalog)
    ensures RestoreCatalog(c, d, ids, books) == Some(r) <==> CatalogOf(c, d, ids, books, r)
  {
    hide Load, Free, RemapCredits, RemapVolumes, RemapFiles, RemapImports, CreditRefers, VolumeRefers, FileRefers;
    hide ImportRefers;
  }

  // ---------------------------------------------------------------------------
  // Constraints
  // ---------------------------------------------------------------------------

  ghost predicate AllRefer<K(!new), V(!new)>(table: map<K, V>, refers: (K, V) -> bool)
  {
    forall k :: k in table ==> refers(k, table[k])
  }

  /** The reference constraints. */
  ghost predicate CatalogConsistent(c: Catalog, books: set<Id>)
  {
    && AllRefer(c.credits, CreditRefers(books, c.authors))
    && AllRefer(c.volumes, VolumeRefers(books, c.series))
    && AllRefer(c.files, FileRefers(books))
    && AllRefer(c.imports, ImportRefers(books, c.importLogs))
  }

  ghost predicate ListsCatalog(d: CatalogRows, c: Catalog)
  {
    && Lists(d.authors, c.authors) && Lists(d.works, c.works) && Lists(d.series, c.series)
    && Lists(d.credits, c.credits) && Lists(d.volumes, c.volumes)
    && Lists(d.files, c.files) && Lists(d.importLogs, c.importLogs) && Lists(d.imports, c.imports)
  }

  // ---------------------------------------------------------------------------
  // Twice is once
  // ---------------------------------------------------------------------------

  lemma CatalogTwice(c: Catalog, d: CatalogRows, ids: IdMap, books: set<Id>, r: Catalog)
    requires RestoreCatalog(c, d, ids, books) == Some(r)
    ensures RestoreCatalog(r, d, ids, books) == Some(r)
  {
    hide Load, Free, RemapCredits, RemapVolumes, RemapFiles, RemapImports, CreditRefers, VolumeRefers, FileRefers;
    hide ImportRefers, RestoreCatalog;
    CatalogUnfold(c, d, ids, books, r);
    LoadTwice(c.authors, d.authors, Free(), r.authors);
    LoadTwice(c.works, d.works, Free(), r.works);
    LoadTwice(c.series, d.series, Free(), r.series);
    LoadTwice(c.credits, RemapCredits(d.credits, ids), CreditRefers(books, r.authors), r.credits);
    LoadTwice(c.volumes, RemapVolumes(d.volumes, ids), VolumeRefers(books, r.series), r.volumes);
    LoadTwice(c.files, RemapFiles(d.files, ids), FileRefers(books), r.files);
    LoadTwice(c.importLogs, d.importLogs, Free(), r.importLogs);
    LoadTwice(c.imports, RemapImports(d.imports, ids), ImportRefers(books, r.importLogs), r.imports);
    CatalogUnfold(r, d, ids, books, r);
  }

  // ---------------------------------------------------------------------------
  // References resolve and stay
  // ---------------------------------------------------------------------------

  lemma ListedRowsRefer<K(!new), V(!new)>(rows: seq<(K, V)>, table: map<K, V>, refers: (K, V) -> bool, i: nat)
    requires Lists(rows, table) && AllRefer(table, refers) && i < |rows|
    ensures refers(rows[i].0, rows[i].1)
  {
  }

  /** Loading a listed table leaves all its keys in place. */
  lemma ListedKeysLoad<K(!new), V(!new)>(start: map<K, V>, rows: seq<(K, V)>, table: map<K, V>, refers: (K, V) -> bool,
                         r: map<K, V>)
    requires Lists(rows, table) && Load(start, rows, refers) == Some(r)
    ensures forall k :: k in table || k in start ==> k in r
  {
    hide Load;
    LoadFacts(start, rows, refers, r);
    forall k | k in table ensures k in r {
      var i :| 0 <= i < |rows| && rows[i].0 == k;
      assert rows[i].0 in r;
    }
  }

  /** Every book of the source resolves to a stored one. */
  ghost predicate Resolves(source: set<Id>, ids: IdMap, books: set<Id>)
  {
    forall id :: id in source ==> Resolve(ids, id) in books
  }

  lemma FreeLoads<K(!new), V(!new)>(table: map<K, V>, rows: seq<(K, V)>)
    ensures Load(table, rows, Free()).Some?
  {
    LoadSucceeds(table, rows, Free());
  }

  lemma CreditsLoad(c: Catalog, src: Catalog, d: CatalogRows, source: set<Id>, ids: IdMap, books: set<Id>,
                    authors: map<Id, Author>)
    requires Lists(d.credits, src.credits) && AllRefer(src.credits, CreditRefers(source, src.authors))
    requires Resolves(source, ids, books)
    requires forall id :: id in src.authors ==> id in authors
    ensures Load(c.credits, RemapCredits(d.credits, ids), CreditRefers(books, authors)).Some?
  {
    hide Load, AllRefer, Lists, Resolve;
    var rows, refers := RemapCredits(d.credits, ids), CreditRefers(books, authors);
    forall i | 0 <= i < |rows| ensures refers(rows[i].0, rows[i].1) {
      ListedRowsRefer(d.credits, src.credits, CreditRefers(source, src.authors), i);
    }
    LoadSucceeds(c.credits, rows, refers);
  }

  lemma VolumesLoad(c: Catalog, src: Catalog, d: CatalogRows, source: set<Id>, ids: IdMap, books: set<Id>,
                    series: map<Id, Series>)
    requires Lists(d.volumes, src.volumes) && AllRefer(src.volumes, VolumeRefers(source, src.series))
    requires Resolves(source, ids, books)
    requires forall id :: id in src.series ==> id in series
    ensures Load(c.volumes, RemapVolumes(d.volumes, ids), VolumeRefers(books, series)).Some?
  {
    hide Load, AllRefer, Lists, Resolve;
    var rows, refers := RemapVolumes(d.volumes, ids), VolumeRefers(books, series);
    forall i | 0 <= i < |rows| ensures refers(rows[i].0, rows[i].1) {
      ListedRowsRefer(d.volumes, src.volumes, VolumeRefers(source, src.series), i);
    }
    LoadSucceeds(c.volumes, rows, refers);
  }

  lemma FilesLoad(c: Catalog, src: Catalog, d: CatalogRows, source: set<Id>, ids: IdMap, books: set<Id>)
    requires Lists(d.files, src.files) && AllRefer(src.files, FileRefers(source)) && Resolves(source, ids, books)
    ensures Load(c.files, RemapFiles(d.files, ids), FileRefers(books)).Some?
  {
    hide Load, AllRefer, Lists, Resolve;
    var rows, refers := RemapFiles(d.files, ids), FileRefers(books);
    forall i | 0 <= i < |rows| ensures refers(rows[i].0, rows[i].1) {
      ListedRowsRefer(d.files, src.files, FileRefers(source), i);
    }
    LoadSucceeds(c.files, rows, refers);
  }

  lemma ImportsLoad(c: Catalog, src: Catalog, d: CatalogRows, source: set<Id>, ids: IdMap, books: set<Id>,
                    logs: map<Id, ImportLog>)
    requires Lists(d.imports, src.imports) && AllRefer(src.imports, ImportRefers(source, src.importLogs))
    requires Resolves(source, ids, books)
    requires forall id :: id in src.importLogs ==> id in logs
    ensures Load(c.imports, RemapImports(d.imports, ids), ImportRefers(books, logs)).Some?
  {
    hide Load, AllRefer, Lists, Resolve;
    var rows, refers := RemapImports(d.imports, ids), ImportRefers(books, logs);
    forall i | 0 <= i < |rows| ensures refers(rows[i].0, rows[i].1) {
      ListedRowsRefer(d.imports, src.imports, ImportRefers(source, src.importLogs), i);
    }
    LoadSucceeds(c.imports, rows, refers);
  }

  /** A listed catalog without dangling references can be restored wherever its books resolve. */
  lemma CatalogSucceeds(c: Catalog, src: Catalog, d: CatalogRows, source: set<Id>, ids: IdMap, books: set<Id>)
    requires CatalogConsistent(src, source) && ListsCatalog(d, src) && Resolves(source, ids, books)
    ensures RestoreCatalog(c, d, ids, books).Some?
  {
    hide Load, Free, RemapCredits, RemapVolumes, RemapFiles, RemapImports, CreditRefers, VolumeRefers, FileRefers;
    hide ImportRefers;
    hide Lists, AllRefer, Resolves;
    FreeLoads(c.authors, d.authors);
    FreeLoads(c.works, d.works);
    FreeLoads(c.series, d.series);
    FreeLoads(c.importLogs, d.importLogs);
    FilesLoad(c, src, d, source, ids, books);
    var authors := Load(c.authors, d.authors, Free()).value;
    var series := Load(c.series, d.series, Free()).value;
    var logs := Load(c.importLogs, d.importLogs, Free()).value;
    ListedKeysLoad(c.authors, d.authors, src.authors, Free(), authors);
    ListedKeysLoad(c.series, d.series, src.series, Free(), series);
    ListedKeysLoad(c.importLogs, d.importLogs, src.importLogs, Free(), logs);
    CreditsLoad(c, src, d, source, ids, books, authors);
    VolumesLoad(c, src, d, source, ids, books, series);
    ImportsLoad(c, src, d, source, ids, books, logs);
  }

  /** What refers stays referring when the tables referred to grow. */
  lemma LoadKeepsReferences<K(!new), V(!new)>(table: map<K, V>, rows: seq<(K, V)>, before: (K, V) -> bool,
                              after: (K, V) -> bool, r: map<K, V>)
    requires Load(table, rows, after) == Some(r) && AllRefer(table, before)
    requires forall k, v :: before(k, v) ==> after(k, v)
    ensures AllRefer(r, after)
  {
    hide Load;
    LoadFacts(table, rows, after, r);
  }

  lemma CatalogStaysConsistent(c: Catalog, d: CatalogRows, ids: IdMap, before: set<Id>, books: set<Id>, r: Catalog)
    requires RestoreCatalog(c, d, ids, books) == Some(r) && CatalogConsistent(c, before) && before <= books
    ensures CatalogConsistent(r, books)
  {
    hide Load, Free, RemapCredits, RemapVolumes, RemapFiles, RemapImports, AllRefer, RestoreCatalog;
    CatalogUnfold(c, d, ids, books, r);
    LoadFacts(c.authors, d.authors, Free(), r.authors);
    LoadFacts(c.series, d.series, Free(), r.series);
    LoadFacts(c.importLogs, d.importLogs, Free(), r.importLogs);
    LoadKeepsReferences(c.credits, RemapCredits(d.credits, ids), CreditRefers(before, c.authors),
                        CreditRefers(books, r.authors), r.credits);
    LoadKeepsReferences(c.volumes, RemapVolumes(d.volumes, ids), VolumeRefers(before, c.series),
                        VolumeRefers(books, r.series), r.volumes);
    LoadKeepsReferences(c.files, RemapFiles(d.files, ids), FileRefers(before), FileRefers(books), r.files);
    LoadKeepsReferences(c.imports, RemapImports(d.imports, ids), ImportRefers(before, c.importLogs),
                        ImportRefers(books, r.importLogs), r.imports);
  }

  // ---------------------------------------------------------------------------
  // Into an empty library
  // ---------------------------------------------------------------------------

  /** Ids are mapped to themselves. */
  ghost predicate Identity(ids: IdMap)
  {
    forall id :: id in ids ==> ids[id] == id
  }

  lemma IdentityRemaps(d: CatalogRows, ids: IdMap)
    requires Identity(ids)
    ensures RemapCredits(d.credits, ids) == d.credits && RemapVolumes(d.volumes, ids) == d.volumes
    ensures RemapFiles(d.files, ids) == d.files && RemapImports(d.imports, ids) == d.imports
  {
    assert forall id :: Resolve(ids, id) == id;
    assert forall i :: 0 <= i < |d.credits| ==> RemapCredits(d.credits, ids)[i] == d.credits[i];
    assert forall i :: 0 <= i < |d.volumes| ==> RemapVolumes(d.volumes, ids)[i] == d.volumes[i];
    assert forall i :: 0 <= i < |d.files| ==> RemapFiles(d.files, ids)[i] == d.files[i];
    assert forall i :: 0 <= i < |d.imports| ==> RemapImports(d.imports, ids)[i] == d.imports[i];
  }

  /** Restoring a listed catalog into an empty one gives it back. */
  lemma CatalogReplaced(src: Catalog, d: CatalogRows, ids: IdMap, books: set<Id>)
    requires CatalogConsistent(src, books) && ListsCatalog(d, src) && Identity(ids)
    ensures RestoreCatalog(EMPTY_CATALOG, d, ids, books) == Some(src)
  {
    hide Load, RemapCredits, RemapVolumes, RemapFiles, RemapImports, CreditRefers, VolumeRefers, FileRefers;
    hide ImportRefers, Lists, Identity, RestoreCatalog;
    IdentityRemaps(d, ids);
    ListedRowsLoad(src.authors, d.authors, Free());
    ListedRowsLoad(src.works, d.works, Free());
    ListedRowsLoad(src.series, d.series, Free());
    ListedRowsLoad(src.credits, d.credits, CreditRefers(books, src.authors));
    ListedRowsLoad(src.volumes, d.volumes, VolumeRefers(books, src.series));
    ListedRowsLoad(src.files, d.files, FileRefers(books));
    ListedRowsLoad(src.importLogs, d.importLogs, Free());
    ListedRowsLoad(src.imports, d.imports, ImportRefers(books, src.importLogs));
    CatalogUnfold(EMPTY_CATALOG, d, ids, books, src);
  }
}
