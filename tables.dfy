module Wrappers {
  datatype Option<T> = None | Some(value: T)
}

/** The two records of the catalogue as the application sees them. */
module Catalog {
  import opened Wrappers

  /** An author, identified by its url. */
  datatype Author = Author(url: string, name: string)

  /** A book, identified by its isbn; `subjects` is a set of subject names. */
  datatype Book = Book(
    url: string,
    isbn: string,
    title: string,
    subtitle: Option<string>,
    authors: seq<Author>,
    subjects: set<string>,
    coverUrl: Option<string>)
}

/**
 * The five tables of the store and the lookups on their unique keys.
 *
 * Every table is a sequence of rows in insertion order. Rows are never
 * updated or deleted, so the rowid the store hands out to a new row is one
 * more than the number of rows already there: `ValidDb` says that the row at
 * position i has id i + 1.
 */
module Tables {
  import opened Wrappers
  import opened Catalog

  datatype BookRow = BookRow(
    id: nat,
    url: string,
    isbn: string,
    title: string,
    subtitle: Option<string>,
    coverUrl: Option<string>)

  datatype AuthorRow = AuthorRow(id: nat, url: string, name: string)

  datatype SubjectRow = SubjectRow(id: nat, name: string)

  /** A row of `book_author` (otherId is an author id) or of `book_subject` (a subject id). */
  datatype Link = Link(bookId: nat, otherId: nat)

  datatype Db = Db(
    books: seq<BookRow>,
    authors: seq<AuthorRow>,
    subjects: seq<SubjectRow>,
    bookAuthor: seq<Link>,
    bookSubject: seq<Link>)

  /** The store just after the schema has been applied. */
  const EmptyDb := Db([], [], [], [], [])

  // The unique columns of the three entity tables.
  function IsbnOf(r: BookRow): string { r.isbn }
  function BookUrlOf(r: BookRow): string { r.url }
  function AuthorUrlOf(r: AuthorRow): string { r.url }
  function SubjectNameOf(r: SubjectRow): string { r.name }

  /**
   * `SELECT … WHERE key = ?`: the position of the first row whose key is k,
   * or None when no row has it.
   */
  function IndexOf<R>(rows: seq<R>, key: R -> string, k: string): (r: Option<nat>)
    ensures r.None? <==> forall i :: 0 <= i < |rows| ==> key(rows[i]) != k
    ensures r.Some? ==> r.value < |rows| && key(rows[r.value]) == k
    ensures r.Some? ==> forall j :: 0 <= j < r.value ==> key(rows[j]) != k
  {
    if rows == [] then None
    else if key(rows[0]) == k then Some(0)
    else match IndexOf(rows[1..], key, k)
      case None => None
      case Some(i) => Some(i + 1)
  }

  /** A row appended behind rows that already hold k does not change the lookup of k. */
  lemma IndexOfAppend<R>(rows: seq<R>, more: seq<R>, key: R -> string, k: string)
    requires IndexOf(rows, key, k).Some?
    ensures IndexOf(rows + more, key, k) == IndexOf(rows, key, k)
  {
    var i := IndexOf(rows, key, k).value;
    assert (rows + more)[i] == rows[i];
    assert forall j :: 0 <= j < i ==> (rows + more)[j] == rows[j];
  }

  /** Looking up the key of a row appended behind rows that lack it finds that row. */
  lemma IndexOfAppendNew<R>(rows: seq<R>, r: R, key: R -> string)
    requires IndexOf(rows, key, key(r)).None?
    ensures IndexOf(rows + [r], key, key(r)) == Some(|rows|)
  {
    assert (rows + [r])[|rows|] == r;
    assert forall j :: 0 <= j < |rows| ==> (rows + [r])[j] == rows[j];
  }

  /** A unique constraint: no two rows share a key. */
  predicate Unique<R>(rows: seq<R>, key: R -> string) {
    forall i, j :: 0 <= i < j < |rows| ==> key(rows[i]) != key(rows[j])
  }

  /** Referential integrity of a link table: both ends name existing rows. */
  predicate LinksInto(links: seq<Link>, nBooks: nat, nOthers: nat) {
    forall k :: 0 <= k < |links| ==> 1 <= links[k].bookId <= nBooks && 1 <= links[k].otherId <= nOthers
  }

  /** The unique constraint on the (b_id, other id) pair of a link table. */
  predicate NoDuplicates(links: seq<Link>) {
    forall i, j :: 0 <= i < j < |links| ==> links[i] != links[j]
  }

  predicate BookIds(rows: seq<BookRow>) { forall i :: 0 <= i < |rows| ==> rows[i].id == i + 1 }
  predicate AuthorIds(rows: seq<AuthorRow>) { forall i :: 0 <= i < |rows| ==> rows[i].id == i + 1 }
  predicate SubjectIds(rows: seq<SubjectRow>) { forall i :: 0 <= i < |rows| ==> rows[i].id == i + 1 }

  /** The schema's constraints, which every reachable state of the store satisfies. */
  predicate ValidDb(db: Db) {
    && BookIds(db.books) && AuthorIds(db.authors) && SubjectIds(db.subjects)
    && Unique(db.books, IsbnOf) && Unique(db.books, BookUrlOf)
    && Unique(db.authors, AuthorUrlOf) && Unique(db.subjects, SubjectNameOf)
    && LinksInto(db.bookAuthor, |db.books|, |db.authors|)
    && LinksInto(db.bookSubject, |db.books|, |db.subjects|)
    && NoDuplicates(db.bookAuthor) && NoDuplicates(db.bookSubject)
  }

  /**
   * `INSERT INTO <link table> … ON CONFLICT DO NOTHING`: a pair already
   * present leaves the table as it is, a new pair goes at the end, and the
   * pair constraint keeps holding.
   */
  function InsertLinkIgnore(links: seq<Link>, l: Link): (r: seq<Link>)
    ensures l in r && links <= r
    ensures forall x :: x in r ==> x in links || x == l
    ensures l in links ==> r == links
    ensures l !in links ==> r == links + [l]
    ensures NoDuplicates(links) ==> NoDuplicates(r)
  {
    if l in links then links else links + [l]
  }

  /** A table that only grew behind row i still holds row i, and its key still finds it. */
  lemma PrefixKeepsLookup<R>(rows: seq<R>, rows': seq<R>, key: R -> string, i: nat)
    requires Unique(rows, key) && i < |rows| && rows <= rows'
    ensures rows'[i] == rows[i] && IndexOf(rows', key, key(rows[i])) == Some(i)
  {
    UniqueIndexOf(rows, key, i);
    assert rows' == rows + rows'[|rows|..];
    IndexOfAppend(rows, rows'[|rows|..], key, key(rows[i]));
  }

  /** Under the unique constraint a key is found exactly at the one row that carries it. */
  lemma UniqueIndexOf<R>(rows: seq<R>, key: R -> string, i: nat)
    requires Unique(rows, key) && i < |rows|
    ensures IndexOf(rows, key, key(rows[i])) == Some(i)
  {
  }
}
