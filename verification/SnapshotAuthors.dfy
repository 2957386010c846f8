/** Authors in a snapshot: one row for each credit, with its author beside it. Authors that no book credits
    are not carried. */
module SnapshotAuthors {
  import opened Wrappers
  import opened Library

  datatype Author = Author(name: string, sortName: Option<string>)

  /** Book, author and role. */
  type Credit = (Id, Id, string)

  /** The author tables: `credits` links books to authors, with a position. */
  datatype People = People(authors: map<Id, Author>, credits: map<Credit, int>)

  const NOBODY: People := People(map[], map[])

  /** A row of the join of both tables. */
  datatype CreditRow = CreditRow(credit: Credit, position: int, author: Author)

  ghost predicate CreditsRefer(p: People, books: set<Id>)
  {
    forall c :: c in p.credits ==> c.0 in books && c.1 in p.authors
  }

  function RowOf(p: People, c: Credit): CreditRow
    requires c in p.credits && c.1 in p.authors
  {
    CreditRow(c, p.credits[c], p.authors[c.1])
  }

  /** The rows are the join: every credit once, with its author. */
  ghost predicate ListsCredits(rows: seq<CreditRow>, p: People)
  {
    && (forall i, j :: 0 <= i < j < |rows| ==> rows[i].credit != rows[j].credit)
    && (forall i :: 0 <= i < |rows| ==>
        rows[i].credit in p.credits && rows[i].credit.1 in p.authors && rows[i] == RowOf(p, rows[i].credit))
    && (forall c :: c in p.credits && c.1 in p.authors ==> exists i :: 0 <= i < |rows| && rows[i].credit == c)
  }

  method ExportCredits(p: People) returns (rows: seq<CreditRow>)
    ensures ListsCredits(rows, p)
  {
    rows := [];
    var left := p.credits.Keys;
    while left != {}
      invariant left <= p.credits.Keys
      invariant forall i, j :: 0 <= i < j < |rows| ==> rows[i].credit != rows[j].credit
      invariant forall i :: 0 <= i < |rows| ==>
        && rows[i].credit in p.credits && rows[i].credit !in left && rows[i].credit.1 in p.authors
        && rows[i] == RowOf(p, rows[i].credit)
      invariant forall c :: c in p.credits && c !in left && c.1 in p.authors ==>
        exists i :: 0 <= i < |rows| && rows[i].credit == c
      decreases |left|
    {
      var c :| c in left;
      left := left - {c};
      if c.1 in p.authors {
        ghost var before := rows;
        rows := rows + [RowOf(p, c)];
        forall d | d in p.credits && d !in left && d.1 in p.authors
          ensures exists i :: 0 <= i < |rows| && rows[i].credit == d
        {
          if d == c {
            assert rows[|before|].credit == d;
          } else {
            var i :| 0 <= i < |before| && before[i].credit == d;
            assert rows[i].credit == d;
          }
        }
      }
    }
  }

  /** One row: its author, then its credit, each inserted if absent. A credit of an unknown book fails. */
  function LoadCredit(p: People, row: CreditRow, books: set<Id>): Option<People>
  {
    var authors := if row.credit.1 in p.authors then p.authors else p.authors[row.credit.1 := row.author];
    if row.credit in p.credits then Some(People(authors, p.credits))
    else if row.credit.0 !in books then None
    else Some(People(authors, p.credits[row.credit := row.position]))
  }

  /** After the first `n` rows. */
  function LoadCredits(p: People, rows: seq<CreditRow>, books: set<Id>, n: nat): Option<People>
    requires n <= |rows|
  {
    if n == 0 then Some(p) else
    match LoadCredits(p, rows, books, n - 1)
    case None => None
    case Some(q) => LoadCredit(q, rows[n - 1], books)
  }

  lemma {:induction false} FailedCreditsStay(p: People, rows: seq<CreditRow>, books: set<Id>, n: nat, m: nat)
    requires n <= m <= |rows| && LoadCredits(p, rows, books, n).None?
    ensures LoadCredits(p, rows, books, m).None?
    decreases m
  {
    if n < m {
      FailedCreditsStay(p, rows, books, n, m - 1);
    }
  }

  method InsertCredits(p: People, rows: seq<CreditRow>, books: set<Id>) returns (r: Option<People>)
    ensures r == LoadCredits(p, rows, books, |rows|)
  {
    hide LoadCredit;
    var current := p;
    for i := 0 to |rows|
      invariant LoadCredits(p, rows, books, i) == Some(current)
    {
      var next := LoadCredit(current, rows[i], books);
      if next.None? {
        FailedCreditsStay(p, rows, books, i + 1, |rows|);
        return None;
      }
      current := next.value;
    }
    r := Some(current);
  }

  predicate IsCredited(p: People, author: Id)
  {
    exists c :: c in p.credits && c.1 == author
  }

  /** The author tables without the authors that no book credits. */
  function Credited(p: People): People
  {
    People(map a | a in p.authors && IsCredited(p, a) :: p.authors[a], p.credits)
  }

  ghost predicate HoldsCredits(credits: map<Credit, int>, rows: seq<CreditRow>, p: People, n: nat)
    requires n <= |rows|
  {
    && (forall c :: c in credits <==> exists i :: 0 <= i < n && rows[i].credit == c)
    && (forall c :: c in credits ==> c in p.credits && credits[c] == p.credits[c])
  }

  ghost predicate HoldsAuthors(authors: map<Id, Author>, rows: seq<CreditRow>, p: People, n: nat)
    requires n <= |rows|
  {
    && (forall a :: a in authors <==> exists i :: 0 <= i < n && rows[i].credit.1 == a)
    && (forall a :: a in authors ==> a in p.authors && authors[a] == p.authors[a])
  }

  /** `q` holds the first `n` rows of the list and nothing else. */
  ghost predicate HoldsRows(q: People, rows: seq<CreditRow>, p: People, n: nat)
    requires n <= |rows|
  {
    HoldsCredits(q.credits, rows, p, n) && HoldsAuthors(q.authors, rows, p, n)
  }

  lemma NextCredit(credits: map<Credit, int>, rows: seq<CreditRow>, p: People, n: nat)
    requires n < |rows| && ListsCredits(rows, p) && HoldsCredits(credits, rows, p, n)
    ensures rows[n].credit !in credits && HoldsCredits(credits[rows[n].credit := rows[n].position], rows, p, n + 1)
  {
    var next := credits[rows[n].credit := rows[n].position];
    forall c ensures c in next <==> exists i :: 0 <= i < n + 1 && rows[i].credit == c {
      if c in credits {
        var i :| 0 <= i < n && rows[i].credit == c;
        assert 0 <= i < n + 1;
      }
    }
  }

  lemma NextAuthor(authors: map<Id, Author>, rows: seq<CreditRow>, p: People, n: nat)
    requires n < |rows| && HoldsAuthors(authors, rows, p, n)
    requires rows[n].credit.1 in p.authors && rows[n].author == p.authors[rows[n].credit.1]
    ensures var a := rows[n].credit.1;
      HoldsAuthors(if a in authors then authors else authors[a := rows[n].author], rows, p, n + 1)
  {
    var next := if rows[n].credit.1 in authors then authors else authors[rows[n].credit.1 := rows[n].author];
    forall a ensures a in next <==> exists i :: 0 <= i < n + 1 && rows[i].credit.1 == a {
      if a in authors {
        var i :| 0 <= i < n && rows[i].credit.1 == a;
        assert 0 <= i < n + 1;
      }
    }
  }

  lemma ListedCredit(rows: seq<CreditRow>, p: People, books: set<Id>, n: nat)
    requires n < |rows| && ListsCredits(rows, p) && CreditsRefer(p, books)
    ensures rows[n].credit.0 in books && rows[n].credit.1 in p.authors && rows[n].author == p.authors[rows[n].credit.1]
  {
  }

  lemma {:induction false} CreditsLoad(p: People, rows: seq<CreditRow>, books: set<Id>, n: nat)
    requires n <= |rows| && ListsCredits(rows, p) && CreditsRefer(p, books)
    ensures LoadCredits(NOBODY, rows, books, n).Some?
    ensures HoldsRows(LoadCredits(NOBODY, rows, books, n).value, rows, p, n)
  {
    hide ListsCredits, CreditsRefer, HoldsCredits, HoldsAuthors;
    if n == 0 {
      NoRows(rows, p);
    } else {
      CreditsLoad(p, rows, books, n - 1);
      var q := LoadCredits(NOBODY, rows, books, n - 1).value;
      NextCredit(q.credits, rows, p, n - 1);
      ListedCredit(rows, p, books, n - 1);
      NextAuthor(q.authors, rows, p, n - 1);
    }
  }

  lemma NoRows(rows: seq<CreditRow>, p: People)
    ensures HoldsRows(NOBODY, rows, p, 0)
  {
  }

  /** Importing the exported rows into empty tables gives back the credits and exactly the credited authors. */
  lemma CreditsReload(p: People, rows: seq<CreditRow>, books: set<Id>)
    requires ListsCredits(rows, p) && CreditsRefer(p, books)
    ensures LoadCredits(NOBODY, rows, books, |rows|) == Some(Credited(p))
    ensures Credited(p) == p <==> forall a :: a in p.authors ==> IsCredited(p, a)
  {
    hide LoadCredits, ListsCredits, CreditsRefer, HoldsCredits, HoldsAuthors, IsCredited;
    CreditsLoad(p, rows, books, |rows|);
    var q := LoadCredits(NOBODY, rows, books, |rows|).value;
    AllCredits(q.credits, rows, p, books);
    AllAuthors(q.authors, rows, p, books);
    if forall a :: a in p.authors ==> IsCredited(p, a) {
      assert Credited(p).authors == p.authors;
    }
  }

  lemma AllCredits(credits: map<Credit, int>, rows: seq<CreditRow>, p: People, books: set<Id>)
    requires ListsCredits(rows, p) && CreditsRefer(p, books) && HoldsCredits(credits, rows, p, |rows|)
    ensures credits == p.credits
  {
    assert credits.Keys == p.credits.Keys;
  }

  lemma AllAuthors(authors: map<Id, Author>, rows: seq<CreditRow>, p: People, books: set<Id>)
    requires ListsCredits(rows, p) && CreditsRefer(p, books) && HoldsAuthors(authors, rows, p, |rows|)
    ensures authors == Credited(p).authors
  {
    forall a ensures a in authors <==> a in p.authors && IsCredited(p, a) {
      if c :| c in p.credits && c.1 == a {
        var i :| 0 <= i < |rows| && rows[i].credit == c;
        assert rows[i].credit.1 == a;
      }
    }
  }
}
