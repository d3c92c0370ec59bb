/**
 * What a save preserves and what it establishes: the schema's constraints,
 * the reuse of existing rows, and the links a save leaves behind.
 */
module SaveLaws {
  import opened Wrappers
  import opened Catalog
  import opened Tables
  import opened SaveModel

  lemma AuthorStepValid(db: Db, bId: nat, a: Author)
    requires ValidDb(db) && 1 <= bId <= |db.books|
    ensures ValidDb(AuthorStep(db, bId, a))
  {
    var r := AuthorStep(db, bId, a);
    match IndexOf(db.authors, AuthorUrlOf, a.url)
    case Some(i) =>
      assert r.bookAuthor == InsertLinkIgnore(db.bookAuthor, Link(bId, i + 1));
    case None =>
      var row := AuthorRow(|db.authors| + 1, a.url, a.name);
      assert r.authors == db.authors + [row];
      assert r.bookAuthor == InsertLinkIgnore(db.bookAuthor, Link(bId, |db.authors| + 1));
      assert Unique(r.authors, AuthorUrlOf) by {
        forall i, j | 0 <= i < j < |r.authors|
          ensures AuthorUrlOf(r.authors[i]) != AuthorUrlOf(r.authors[j])
        {
          if j == |db.authors| {
            assert r.authors[i] == db.authors[i];
          }
        }
      }
  }

  lemma {:induction false} AuthorsStepValid(db: Db, bId: nat, authors: seq<Author>)
    requires ValidDb(db) && 1 <= bId <= |db.books|
    ensures ValidDb(AuthorsStep(db, bId, authors))
  {
    if authors != [] {
      var p := authors[..|authors| - 1];
      AuthorsStepValid(db, bId, p);
      AuthorStepValid(AuthorsStep(db, bId, p), bId, authors[|authors| - 1]);
    }
  }

  lemma SubjectStepValid(db: Db, bId: nat, s: string)
    requires ValidDb(db) && 1 <= bId <= |db.books|
    ensures ValidDb(SubjectStep(db, bId, s))
  {
    var r := SubjectStep(db, bId, s);
    match IndexOf(db.subjects, SubjectNameOf, s)
    case Some(i) =>
      assert r.bookSubject == InsertLinkIgnore(db.bookSubject, Link(bId, i + 1));
    case None =>
      var row := SubjectRow(|db.subjects| + 1, s);
      assert r.subjects == db.subjects + [row];
      assert r.bookSubject == InsertLinkIgnore(db.bookSubject, Link(bId, |db.subjects| + 1));
      assert Unique(r.subjects, SubjectNameOf) by {
        forall i, j | 0 <= i < j < |r.subjects|
          ensures SubjectNameOf(r.subjects[i]) != SubjectNameOf(r.subjects[j])
        {
          if j == |db.subjects| {
            assert r.subjects[i] == db.subjects[i];
          }
        }
      }
  }

  lemma {:induction false} SubjectsStepValid(db: Db, bId: nat, order: seq<string>)
    requires ValidDb(db) && 1 <= bId <= |db.books|
    ensures ValidDb(SubjectsStep(db, bId, order))
  {
    if order != [] {
      var p := order[..|order| - 1];
      SubjectsStepValid(db, bId, p);
      SubjectStepValid(SubjectsStep(db, bId, p), bId, order[|order| - 1]);
    }
  }

  /**
   * The first statement group of a save keeps the schema's constraints and
   * yields the id of the row that now carries the book's isbn.
   */
  lemma ResolveBookValid(db: Db, b: Book)
    requires ValidDb(db)
    ensures ResolveBook(db, b).Resolved? ==>
      var s := ResolveBook(db, b);
      && ValidDb(s.db)
      && 1 <= s.bookId <= |s.db.books|
      && IndexOf(s.db.books, IsbnOf, b.isbn) == Some(s.bookId - 1)
  {
    match IndexOf(db.books, IsbnOf, b.isbn)
    case Some(i) =>
    case None =>
      if IndexOf(db.books, BookUrlOf, b.url).None? {
        var row := BookRow(|db.books| + 1, b.url, b.isbn, b.title, b.subtitle, b.coverUrl);
        var books := db.books + [row];
        assert ResolveBook(db, b) == Resolved(db.(books := books), |db.books| + 1);
        IndexOfAppendNew(db.books, row, IsbnOf);
        forall i, j | 0 <= i < j < |books|
          ensures IsbnOf(books[i]) != IsbnOf(books[j]) && BookUrlOf(books[i]) != BookUrlOf(books[j])
        {
          if j == |db.books| {
            assert books[i] == db.books[i];
          }
        }
      }
  }

  /**
   * Every save keeps the schema's constraints: one book row per isbn and per
   * url, one author row per url, one subject row per name, link ends that
   * name existing rows, and no duplicate link pair.
   */
  lemma SavePreservesValid(db: Db, b: Book, order: seq<string>)
    requires ValidDb(db)
    ensures ValidDb(Save(db, b, order).db)
  {
    ResolveBookValid(db, b);
    match ResolveBook(db, b)
    case Conflict =>
    case Resolved(db1, bId) =>
      AuthorsStepValid(db1, bId, b.authors);
      SubjectsStepValid(AuthorsStep(db1, bId, b.authors), bId, order);
  }

  /**
   * The book table after a save: a new row exactly when neither the isbn nor
   * the url is stored, the store untouched when only the url is, and the old
   * rows otherwise; no old row ever changes.
   */
  lemma SaveBookRow(db: Db, b: Book, order: seq<string>)
    ensures var r := Save(db, b, order);
      && (IndexOf(db.books, IsbnOf, b.isbn).Some? ==> r.outcome == Saved && r.db.books == db.books)
      && (IndexOf(db.books, IsbnOf, b.isbn).None? && IndexOf(db.books, BookUrlOf, b.url).Some? ==>
            r == SaveResult(db, UrlConflict))
      && (IndexOf(db.books, IsbnOf, b.isbn).None? && IndexOf(db.books, BookUrlOf, b.url).None? ==>
            r.outcome == Saved &&
            r.db.books == db.books + [BookRow(|db.books| + 1, b.url, b.isbn, b.title, b.subtitle, b.coverUrl)])
  {
  }

  /** An author url already stored resolves to the same row after a save, and that row is unchanged. */
  lemma SaveReusesAuthor(db: Db, b: Book, order: seq<string>, i: nat)
    requires ValidDb(db) && i < |db.authors|
    ensures var r := Save(db, b, order).db;
      r.authors[i] == db.authors[i] && IndexOf(r.authors, AuthorUrlOf, db.authors[i].url) == Some(i)
  {
    PrefixKeepsLookup(db.authors, Save(db, b, order).db.authors, AuthorUrlOf, i);
  }

  /** A subject name already stored resolves to the same row after a save, and that row is unchanged. */
  lemma SaveReusesSubject(db: Db, b: Book, order: seq<string>, i: nat)
    requires ValidDb(db) && i < |db.subjects|
    ensures var r := Save(db, b, order).db;
      r.subjects[i] == db.subjects[i] && IndexOf(r.subjects, SubjectNameOf, db.subjects[i].name) == Some(i)
  {
    PrefixKeepsLookup(db.subjects, Save(db, b, order).db.subjects, SubjectNameOf, i);
  }

  /** `SELECT id FROM book WHERE isbn = ?`; 0, which no row has, when there is none. */
  function BookIdOf(db: Db, isbn: string): nat {
    match IndexOf(db.books, IsbnOf, isbn)
    case Some(i) => db.books[i].id
    case None => 0
  }

  /** The author with this url is stored and linked to book `bId`. */
  predicate AuthorLinked(db: Db, bId: nat, url: string) {
    match IndexOf(db.authors, AuthorUrlOf, url)
    case None => false
    case Some(i) => Link(bId, db.authors[i].id) in db.bookAuthor
  }

  /** The subject with this name is stored and linked to book `bId`. */
  predicate SubjectLinked(db: Db, bId: nat, name: string) {
    match IndexOf(db.subjects, SubjectNameOf, name)
    case None => false
    case Some(i) => Link(bId, db.subjects[i].id) in db.bookSubject
  }

  /** A link, once present, stays present in a store whose tables only grew. */
  lemma AuthorLinkedGrows(db: Db, db': Db, bId: nat, url: string)
    requires AuthorLinked(db, bId, url)
    requires db.authors <= db'.authors && db.bookAuthor <= db'.bookAuthor
    ensures AuthorLinked(db', bId, url)
  {
    assert db'.authors == db.authors + db'.authors[|db.authors|..];
    IndexOfAppend(db.authors, db'.authors[|db.authors|..], AuthorUrlOf, url);
  }

  lemma SubjectLinkedGrows(db: Db, db': Db, bId: nat, name: string)
    requires SubjectLinked(db, bId, name)
    requires db.subjects <= db'.subjects && db.bookSubject <= db'.bookSubject
    ensures SubjectLinked(db', bId, name)
  {
    assert db'.subjects == db.subjects + db'.subjects[|db.subjects|..];
    IndexOfAppend(db.subjects, db'.subjects[|db.subjects|..], SubjectNameOf, name);
  }

  lemma AuthorStepLinks(db: Db, bId: nat, a: Author)
    ensures AuthorLinked(AuthorStep(db, bId, a), bId, a.url)
  {
    match IndexOf(db.authors, AuthorUrlOf, a.url)
    case Some(i) =>
    case None =>
      IndexOfAppendNew(db.authors, AuthorRow(|db.authors| + 1, a.url, a.name), AuthorUrlOf);
  }

  lemma SubjectStepLinks(db: Db, bId: nat, s: string)
    ensures SubjectLinked(SubjectStep(db, bId, s), bId, s)
  {
    match IndexOf(db.subjects, SubjectNameOf, s)
    case Some(i) =>
    case None =>
      IndexOfAppendNew(db.subjects, SubjectRow(|db.subjects| + 1, s), SubjectNameOf);
  }

  /** After the author loop every author of the list is stored and linked to the book. */
  lemma {:induction false} AuthorsStepLinks(db: Db, bId: nat, authors: seq<Author>)
    ensures forall a :: a in authors ==> AuthorLinked(AuthorsStep(db, bId, authors), bId, a.url)
  {
    if authors != [] {
      var p, last := authors[..|authors| - 1], authors[|authors| - 1];
      var dbp := AuthorsStep(db, bId, p);
      var r := AuthorStep(dbp, bId, last);
      AuthorsStepLinks(db, bId, p);
      AuthorStepLinks(dbp, bId, last);
      forall a | a in authors ensures AuthorLinked(r, bId, a.url) {
        if a != last {
          assert a in p by {
            var k :| 0 <= k < |authors| && authors[k] == a;
            assert p[k] == a;
          }
          AuthorLinkedGrows(dbp, r, bId, a.url);
        }
      }
    }
  }

  /** After the subject loop every subject iterated is stored and linked to the book. */
  lemma {:induction false} SubjectsStepLinks(db: Db, bId: nat, order: seq<string>)
    ensures forall s :: s in order ==> SubjectLinked(SubjectsStep(db, bId, order), bId, s)
  {
    if order != [] {
      var p, last := order[..|order| - 1], order[|order| - 1];
      var dbp := SubjectsStep(db, bId, p);
      var r := SubjectStep(dbp, bId, last);
      SubjectsStepLinks(db, bId, p);
      SubjectStepLinks(dbp, bId, last);
      forall s | s in order ensures SubjectLinked(r, bId, s) {
        if s != last {
          assert s in p by {
            var k :| 0 <= k < |order| && order[k] == s;
            assert p[k] == s;
          }
          SubjectLinkedGrows(dbp, r, bId, s);
        }
      }
    }
  }

  /** The author loop changes nothing when every author is already stored and linked. */
  lemma {:induction false} AuthorsStepNoop(db: Db, bId: nat, authors: seq<Author>)
    requires forall a :: a in authors ==> AuthorLinked(db, bId, a.url)
    ensures AuthorsStep(db, bId, authors) == db
  {
    if authors != [] {
      var p := authors[..|authors| - 1];
      assert forall a :: a in p ==> a in authors;
      AuthorsStepNoop(db, bId, p);
    }
  }

  /** The subject loop changes nothing when every subject is already stored and linked. */
  lemma {:induction false} SubjectsStepNoop(db: Db, bId: nat, order: seq<string>)
    requires forall s :: s in order ==> SubjectLinked(db, bId, s)
    ensures SubjectsStep(db, bId, order) == db
  {
    if order != [] {
      var p := order[..|order| - 1];
      assert forall s :: s in p ==> s in order;
      SubjectsStepNoop(db, bId, p);
      assert SubjectLinked(db, bId, order[|order| - 1]);
    }
  }

  /**
   * An author whose url appears earlier in the list adds no row and no link:
   * the author loop over `authors + [a]` ends where the loop over `authors` does.
   */
  lemma RepeatedAuthorAddsNothing(db: Db, bId: nat, authors: seq<Author>, a: Author, k: nat)
    requires k < |authors| && authors[k].url == a.url
    ensures AuthorsStep(db, bId, authors + [a]) == AuthorsStep(db, bId, authors)
  {
    var all := authors + [a];
    assert all[..|all| - 1] == authors;
    AuthorsStepLinks(db, bId, authors);
    assert AuthorLinked(AuthorsStep(db, bId, authors), bId, authors[k].url);
  }

  /**
   * After a save that did not hit the url conflict, the isbn names a book row
   * and every author and every iterated subject is stored and linked to it.
   */
  lemma SaveLinks(db: Db, b: Book, order: seq<string>)
    requires Save(db, b, order).outcome == Saved
    ensures IndexOf(Save(db, b, order).db.books, IsbnOf, b.isbn).Some?
    ensures forall a :: a in b.authors ==>
      AuthorLinked(Save(db, b, order).db, BookIdOf(Save(db, b, order).db, b.isbn), a.url)
    ensures forall s :: s in order ==>
      SubjectLinked(Save(db, b, order).db, BookIdOf(Save(db, b, order).db, b.isbn), s)
  {
    match ResolveBook(db, b)
    case Resolved(db1, bId) =>
      if IndexOf(db.books, IsbnOf, b.isbn).None? {
        IndexOfAppendNew(db.books, BookRow(|db.books| + 1, b.url, b.isbn, b.title, b.subtitle, b.coverUrl), IsbnOf);
      }
      var db2 := AuthorsStep(db1, bId, b.authors);
      var r := SubjectsStep(db2, bId, order);
      AuthorsStepLinks(db1, bId, b.authors);
      SubjectsStepLinks(db2, bId, order);
      forall a | a in b.authors ensures AuthorLinked(r, bId, a.url) {
        AuthorLinkedGrows(db2, r, bId, a.url);
      }
  }

  /** A save keeps the id under which an already stored isbn is found. */
  lemma SaveKeepsBookId(db: Db, b: Book, order: seq<string>, isbn: string)
    requires IndexOf(db.books, IsbnOf, isbn).Some?
    ensures BookIdOf(Save(db, b, order).db, isbn) == BookIdOf(db, isbn)
  {
    var r := Save(db, b, order).db;
    assert r.books == db.books + r.books[|db.books|..];
    IndexOfAppend(db.books, r.books[|db.books|..], IsbnOf, isbn);
  }

  /** A save keeps every author link already present. */
  lemma SaveKeepsAuthorLinked(db: Db, b: Book, order: seq<string>, bId: nat, url: string)
    requires AuthorLinked(db, bId, url)
    ensures AuthorLinked(Save(db, b, order).db, bId, url)
  {
    AuthorLinkedGrows(db, Save(db, b, order).db, bId, url);
  }

  /** A save keeps every subject link already present. */
  lemma SaveKeepsSubjectLinked(db: Db, b: Book, order: seq<string>, bId: nat, name: string)
    requires SubjectLinked(db, bId, name)
    ensures SubjectLinked(Save(db, b, order).db, bId, name)
  {
    SubjectLinkedGrows(db, Save(db, b, order).db, bId, name);
  }

  /**
   * Idempotence: saving the same book again, whatever order its subjects are
   * iterated in, leaves all five tables as the first save left them.
   */
  lemma SaveIdempotent(db: Db, b: Book, order1: seq<string>, order2: seq<string>)
    requires Enumerates(order1, b.subjects) && Enumerates(order2, b.subjects)
    ensures Save(Save(db, b, order1).db, b, order2) == Save(db, b, order1)
  {
    var first := Save(db, b, order1);
    if first.outcome == Saved {
      var r := first.db;
      SaveLinks(db, b, order1);
      var bId := BookIdOf(r, b.isbn);
      assert ResolveBook(r, b) == Resolved(r, bId);
      AuthorsStepNoop(r, bId, b.authors);
      SubjectsStepNoop(r, bId, order2);
    } else {
      assert ResolveBook(db, b) == Conflict;
    }
  }
}
