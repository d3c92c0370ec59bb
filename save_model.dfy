/**
 * `Book.save` as a function from the old store to the new one.
 *
 * The statements run in the order of `Book.save` in `library.py`: the book
 * row is found by isbn or inserted, then every author of the book is found
 * or created by url and linked, then every subject is found or created by
 * name and linked.
 * The subjects are a set whose iteration order the program does not fix, so
 * the order is a parameter here (`Enumerates` says which orders are possible).
 */
module SaveModel {
  import opened Wrappers
  import opened Catalog
  import opened Tables

  /** How a save ends: normally, or on the isbn-is-new-but-url-is-taken path. */
  datatype SaveOutcome = Saved | UrlConflict

  datatype SaveResult = SaveResult(db: Db, outcome: SaveOutcome)

  /** The outcome of the first statement group of a save. */
  datatype BookStep = Resolved(db: Db, bookId: nat) | Conflict

  /** `order` lists every element of `s` exactly once. */
  predicate Enumerates(order: seq<string>, s: set<string>) {
    && (forall i, j :: 0 <= i < j < |order| ==> order[i] != order[j])
    && (forall x :: x in order ==> x in s)
    && (forall x :: x in s ==> x in order)
  }

  /**
   * Find the book row by isbn; when there is none, insert one, doing nothing
   * when the url is already taken by another row.
   */
  function ResolveBook(db: Db, b: Book): (r: BookStep)
    ensures r.Conflict? <==> IndexOf(db.books, IsbnOf, b.isbn).None? && IndexOf(db.books, BookUrlOf, b.url).Some?
    ensures r.Resolved? ==>
      && r.db.authors == db.authors && r.db.subjects == db.subjects
      && r.db.bookAuthor == db.bookAuthor && r.db.bookSubject == db.bookSubject
      && db.books <= r.db.books && |r.db.books| <= |db.books| + 1
    ensures r.Resolved? ==>
      && IndexOf(r.db.books, IsbnOf, b.isbn).Some?
      && r.db.books[IndexOf(r.db.books, IsbnOf, b.isbn).value].id == r.bookId
  {
    match IndexOf(db.books, IsbnOf, b.isbn)
    case Some(i) => Resolved(db, db.books[i].id)
    case None =>
      if IndexOf(db.books, BookUrlOf, b.url).Some? then Conflict
      else
        var id := |db.books| + 1;
        var row := BookRow(id, b.url, b.isbn, b.title, b.subtitle, b.coverUrl);
        IndexOfAppendNew(db.books, row, IsbnOf);
        Resolved(db.(books := db.books + [row]), id)
  }

  /** Find or create the author by url, then link it to book `bId`. */
  function AuthorStep(db: Db, bId: nat, a: Author): (r: Db)
    ensures r.books == db.books && r.subjects == db.subjects && r.bookSubject == db.bookSubject
    ensures db.authors <= r.authors && db.bookAuthor <= r.bookAuthor
    ensures |r.authors| <= |db.authors| + 1 && |r.bookAuthor| <= |db.bookAuthor| + 1
  {
    match IndexOf(db.authors, AuthorUrlOf, a.url)
    case Some(i) =>
      db.(bookAuthor := InsertLinkIgnore(db.bookAuthor, Link(bId, db.authors[i].id)))
    case None =>
      var id := |db.authors| + 1;
      db.(authors := db.authors + [AuthorRow(id, a.url, a.name)],
          bookAuthor := InsertLinkIgnore(db.bookAuthor, Link(bId, id)))
  }

  /** The loop over `self.authors`, in list order. */
  function AuthorsStep(db: Db, bId: nat, authors: seq<Author>): (r: Db)
    ensures r.books == db.books && r.subjects == db.subjects && r.bookSubject == db.bookSubject
    ensures db.authors <= r.authors && db.bookAuthor <= r.bookAuthor
  {
    if authors == [] then db
    else AuthorStep(AuthorsStep(db, bId, authors[..|authors| - 1]), bId, authors[|authors| - 1])
  }

  /** Find or create the subject by name, then link it to book `bId`. */
  function SubjectStep(db: Db, bId: nat, s: string): (r: Db)
    ensures r.books == db.books && r.authors == db.authors && r.bookAuthor == db.bookAuthor
    ensures db.subjects <= r.subjects && db.bookSubject <= r.bookSubject
    ensures |r.subjects| <= |db.subjects| + 1 && |r.bookSubject| <= |db.bookSubject| + 1
  {
    match IndexOf(db.subjects, SubjectNameOf, s)
    case Some(i) =>
      db.(bookSubject := InsertLinkIgnore(db.bookSubject, Link(bId, db.subjects[i].id)))
    case None =>
      var id := |db.subjects| + 1;
      db.(subjects := db.subjects + [SubjectRow(id, s)],
          bookSubject := InsertLinkIgnore(db.bookSubject, Link(bId, id)))
  }

  /** The loop over `self.subjects`, in the iteration order `order`. */
  function SubjectsStep(db: Db, bId: nat, order: seq<string>): (r: Db)
    ensures r.books == db.books && r.authors == db.authors && r.bookAuthor == db.bookAuthor
    ensures db.subjects <= r.subjects && db.bookSubject <= r.bookSubject
  {
    if order == [] then db
    else SubjectStep(SubjectsStep(db, bId, order[..|order| - 1]), bId, order[|order| - 1])
  }

  /**
   * The whole save. On the url-conflict path `Book.save` goes on with a stale
   * row id; the model stops there and reports the conflict.
   */
  function Save(db: Db, b: Book, order: seq<string>): (r: SaveResult)
    ensures db.books <= r.db.books && db.authors <= r.db.authors && db.subjects <= r.db.subjects
    ensures db.bookAuthor <= r.db.bookAuthor && db.bookSubject <= r.db.bookSubject
  {
    match ResolveBook(db, b)
    case Conflict => SaveResult(db, UrlConflict)
    case Resolved(db1, bId) => SaveResult(SubjectsStep(AuthorsStep(db1, bId, b.authors), bId, order), Saved)
  }
}
