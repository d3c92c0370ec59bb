/**
 * What `from_db` returns after a save: the round trip, the url-conflict
 * policy, and authors shared between books.
 */
module LoadLaws {
  import opened Wrappers
  import opened Catalog
  import opened Tables
  import opened SaveModel
  import opened LoadModel
  import opened SaveLaws

  function UrlsOf(authors: seq<Author>): set<string> {
    set a | a in authors :: a.url
  }

  /** No entry before position k has the url of entry k. */
  predicate FirstOfUrl(authors: seq<Author>, k: nat)
    requires k < |authors|
  {
    forall j :: 0 <= j < k ==> authors[j].url != authors[k].url
  }

  /**
   * The authors a store keeps for a list: the first entry for every url,
   * since a later entry with a url already stored adds no row. With the urls
   * of the result distinct, the entry kept for a url is its first occurrence.
   */
  function DistinctByUrl(authors: seq<Author>): (r: seq<Author>)
    ensures forall a :: a in r ==> a in authors
    ensures UrlsOf(r) == UrlsOf(authors)
    ensures forall i, j :: 0 <= i < j < |r| ==> r[i].url != r[j].url
    ensures forall k :: 0 <= k < |authors| && FirstOfUrl(authors, k) ==> authors[k] in r
  {
    if authors == [] then []
    else
      var p, a := authors[..|authors| - 1], authors[|authors| - 1];
      var d := DistinctByUrl(p);
      assert authors == p + [a];
      DistinctStep(p, a, d);
      FirstOfUrlStep(p, a, d);
      if a.url in UrlsOf(p) then d else d + [a]
  }

  /** The first three clauses of DistinctByUrl, carried over one more entry. */
  lemma DistinctStep(p: seq<Author>, a: Author, d: seq<Author>)
    requires forall x :: x in d ==> x in p
    requires UrlsOf(d) == UrlsOf(p)
    requires forall i, j :: 0 <= i < j < |d| ==> d[i].url != d[j].url
    ensures var r := if a.url in UrlsOf(p) then d else d + [a];
      && (forall x :: x in r ==> x in p + [a])
      && UrlsOf(r) == UrlsOf(p + [a])
      && (forall i, j :: 0 <= i < j < |r| ==> r[i].url != r[j].url)
  {
    assert UrlsOf(p + [a]) == UrlsOf(p) + {a.url};
    if a.url !in UrlsOf(p) {
      assert UrlsOf(d + [a]) == UrlsOf(d) + {a.url};
      assert forall i :: 0 <= i < |d| ==> d[i].url in UrlsOf(d);
    }
  }

  /** The first-occurrence clause of DistinctByUrl, carried over one more entry. */
  lemma FirstOfUrlStep(p: seq<Author>, a: Author, d: seq<Author>)
    requires forall k :: 0 <= k < |p| && FirstOfUrl(p, k) ==> p[k] in d
    ensures forall k :: 0 <= k < |p| + 1 && FirstOfUrl(p + [a], k) ==>
      (p + [a])[k] in (if a.url in UrlsOf(p) then d else d + [a])
  {
    var all := p + [a];
    forall k | 0 <= k < |all| && FirstOfUrl(all, k)
      ensures all[k] in (if a.url in UrlsOf(p) then d else d + [a])
    {
      if k < |p| {
        assert all[k] == p[k];
        assert forall j :: 0 <= j < k ==> all[j] == p[j];
        assert FirstOfUrl(p, k);
      } else {
        assert all[k] == a;
        assert a.url !in UrlsOf(p) by {
          forall x | x in p
            ensures x.url != a.url
          {
            var j :| 0 <= j < |p| && p[j] == x;
            assert all[j] == x;
          }
        }
      }
    }
  }

  /** Links of other books add nothing to the subjects of `bId`. */
  lemma {:induction false} LinkedSubjectsNone(links: seq<Link>, rows: seq<SubjectRow>, bId: nat)
    requires forall k :: 0 <= k < |links| ==> links[k].bookId != bId
    ensures LinkedSubjects(links, rows, bId) == {}
  {
    if links != [] {
      LinkedSubjectsNone(links[..|links| - 1], rows, bId);
    }
  }

  /** Every author row the author loop adds carries the url of an author of the list. */
  lemma {:induction false} AuthorsStepNewRows(db: Db, bId: nat, authors: seq<Author>)
    ensures forall k :: |db.authors| <= k < |AuthorsStep(db, bId, authors).authors| ==>
      AuthorsStep(db, bId, authors).authors[k].url in UrlsOf(authors)
  {
    if authors != [] {
      var p, a := authors[..|authors| - 1], authors[|authors| - 1];
      AuthorsStepNewRows(db, bId, p);
      assert UrlsOf(authors) == UrlsOf(p) + {a.url} by {
        assert authors == p + [a];
      }
      var dbp := AuthorsStep(db, bId, p);
      var r := AuthorStep(dbp, bId, a);
      assert a.url in UrlsOf(authors);
      match IndexOf(dbp.authors, AuthorUrlOf, a.url)
      case Some(_) =>
        assert r.authors == dbp.authors;
      case None =>
        assert r.authors == dbp.authors + [AuthorRow(|dbp.authors| + 1, a.url, a.name)];
        forall k | |db.authors| <= k < |r.authors| ensures r.authors[k].url in UrlsOf(authors) {
          if k < |dbp.authors| {
            assert r.authors[k] == dbp.authors[k];
            assert dbp.authors[k].url in UrlsOf(p);
          } else {
            assert r.authors[k].url == a.url;
          }
        }
    }
  }

  /** Linking an author whose url is not stored adds exactly that author to the book's join. */
  lemma AuthorStepNewUrl(db: Db, bId: nat, a: Author)
    requires LinksInto(db.bookAuthor, |db.books|, |db.authors|)
    requires IndexOf(db.authors, AuthorUrlOf, a.url).None?
    ensures var r := AuthorStep(db, bId, a);
      LinkedAuthors(r.bookAuthor, r.authors, bId) == LinkedAuthors(db.bookAuthor, db.authors, bId) + [a]
  {
    var r := AuthorStep(db, bId, a);
    var id := |db.authors| + 1;
    var row := AuthorRow(id, a.url, a.name);
    var l := Link(bId, id);
    assert l !in db.bookAuthor;
    assert r.authors == db.authors + [row];
    assert r.bookAuthor == db.bookAuthor + [l];
    assert r.bookAuthor[..|r.bookAuthor| - 1] == db.bookAuthor;
    LinkedAuthorsMoreRows(db.bookAuthor, db.authors, [row], bId);
    assert r.authors[id - 1] == row;
  }

  /** Linking an author already stored and linked changes nothing. */
  lemma AuthorStepLinkedUrl(db: Db, bId: nat, a: Author)
    requires AuthorLinked(db, bId, a.url)
    ensures AuthorStep(db, bId, a) == db
  {
  }

  /**
   * For a book with no links yet, and authors none of whose urls are stored,
   * the author loop links exactly the first author of every url, in order.
   */
  lemma {:induction false} AuthorsRoundTrip(db: Db, bId: nat, authors: seq<Author>)
    requires ValidDb(db) && 1 <= bId <= |db.books|
    requires LinkedAuthors(db.bookAuthor, db.authors, bId) == []
    requires forall a :: a in authors ==> IndexOf(db.authors, AuthorUrlOf, a.url).None?
    ensures var r := AuthorsStep(db, bId, authors);
      LinkedAuthors(r.bookAuthor, r.authors, bId) == DistinctByUrl(authors)
  {
    if authors != [] {
      var p, a := authors[..|authors| - 1], authors[|authors| - 1];
      assert forall x :: x in p ==> x in authors;
      AuthorsRoundTrip(db, bId, p);
      AuthorsStepValid(db, bId, p);
      var dbp := AuthorsStep(db, bId, p);
      if a.url in UrlsOf(p) {
        var x :| x in p && x.url == a.url;
        AuthorsStepLinks(db, bId, p);
        AuthorStepLinkedUrl(dbp, bId, a);
      } else {
        AuthorsStepNewRows(db, bId, p);
        assert IndexOf(dbp.authors, AuthorUrlOf, a.url).None? by {
          forall k | 0 <= k < |dbp.authors| ensures AuthorUrlOf(dbp.authors[k]) != a.url {
            if k < |db.authors| {
              assert dbp.authors[k] == db.authors[k];
            }
          }
        }
        AuthorStepNewUrl(dbp, bId, a);
      }
    }
  }

  /** Linking a subject adds exactly its name to the book's subjects. */
  lemma SubjectStepAdds(db: Db, bId: nat, s: string)
    requires SubjectIds(db.subjects) && LinksInto(db.bookSubject, |db.books|, |db.subjects|)
    ensures var r := SubjectStep(db, bId, s);
      LinkedSubjects(r.bookSubject, r.subjects, bId) == LinkedSubjects(db.bookSubject, db.subjects, bId) + {s}
  {
    match IndexOf(db.subjects, SubjectNameOf, s)
    case Some(i) => SubjectStepAddsStored(db, bId, s, i);
    case None => SubjectStepAddsNew(db, bId, s);
  }

  /** SubjectStepAdds for a name already stored at row i. */
  lemma SubjectStepAddsStored(db: Db, bId: nat, s: string, i: nat)
    requires SubjectIds(db.subjects) && IndexOf(db.subjects, SubjectNameOf, s) == Some(i)
    ensures var r := SubjectStep(db, bId, s);
      LinkedSubjects(r.bookSubject, r.subjects, bId) == LinkedSubjects(db.bookSubject, db.subjects, bId) + {s}
  {
    var r := SubjectStep(db, bId, s);
    var l := Link(bId, i + 1);
    if l in db.bookSubject {
      LinkedSubjectsHas(db.bookSubject, db.subjects, bId, l);
    } else {
      assert r.bookSubject == db.bookSubject + [l];
      assert r.bookSubject[..|r.bookSubject| - 1] == db.bookSubject;
    }
  }

  /** SubjectStepAdds for a name not stored yet. */
  lemma SubjectStepAddsNew(db: Db, bId: nat, s: string)
    requires LinksInto(db.bookSubject, |db.books|, |db.subjects|)
    requires IndexOf(db.subjects, SubjectNameOf, s).None?
    ensures var r := SubjectStep(db, bId, s);
      LinkedSubjects(r.bookSubject, r.subjects, bId) == LinkedSubjects(db.bookSubject, db.subjects, bId) + {s}
  {
    var r := SubjectStep(db, bId, s);
    var id := |db.subjects| + 1;
    var row := SubjectRow(id, s);
    var l := Link(bId, id);
    assert l !in db.bookSubject;
    assert r.subjects == db.subjects + [row];
    assert r.bookSubject == db.bookSubject + [l];
    assert r.bookSubject[..|r.bookSubject| - 1] == db.bookSubject;
    LinkedSubjectsMoreRows(db.bookSubject, db.subjects, [row], bId);
    assert r.subjects[id - 1] == row;
  }

  /** The subject loop adds exactly the iterated names to the subjects linked to `bId`. */
  lemma {:induction false} SubjectsRoundTrip(db: Db, bId: nat, order: seq<string>)
    requires ValidDb(db) && 1 <= bId <= |db.books|
    ensures var r := SubjectsStep(db, bId, order);
      LinkedSubjects(r.bookSubject, r.subjects, bId)
        == LinkedSubjects(db.bookSubject, db.subjects, bId) + (set s | s in order)
  {
    if order != [] {
      var p, s := order[..|order| - 1], order[|order| - 1];
      assert (set x | x in order) == (set x | x in p) + {s} by {
        assert order == p + [s];
      }
      SubjectsRoundTrip(db, bId, p);
      SubjectsStepValid(db, bId, p);
      SubjectStepAdds(SubjectsStep(db, bId, p), bId, s);
    }
  }

  /**
   * Round trip: a book whose isbn and url are both new and whose author urls
   * are not yet stored loads back with the same url, isbn, title, subtitle,
   * cover url and subjects, and with one author per distinct url, up to order.
   */
  lemma RoundTrip(db: Db, b: Book, order: seq<string>)
    requires ValidDb(db) && Enumerates(order, b.subjects)
    requires IndexOf(db.books, IsbnOf, b.isbn).None? && IndexOf(db.books, BookUrlOf, b.url).None?
    requires forall a :: a in b.authors ==> IndexOf(db.authors, AuthorUrlOf, a.url).None?
    ensures Save(db, b, order).outcome == Saved
    ensures LoadView(Save(db, b, order).db, b.isbn) == Some(ViewOf(b.(authors := DistinctByUrl(b.authors))))
  {
    var bId := |db.books| + 1;
    var row := BookRow(bId, b.url, b.isbn, b.title, b.subtitle, b.coverUrl);
    var db1 := db.(books := db.books + [row]);
    assert ResolveBook(db, b) == Resolved(db1, bId);
    ResolveBookValid(db, b);
    NewBookJoins(db, db1, bId, b, order);
    var r := SubjectsStep(AuthorsStep(db1, bId, b.authors), bId, order);
    assert Save(db, b, order) == SaveResult(r, Saved);
    IndexOfAppendNew(db.books, row, IsbnOf);
    assert IndexOf(r.books, IsbnOf, b.isbn) == Some(|db.books|) && r.books[|db.books|] == row;
  }

  /** The joins of a book row just appended, once the author and subject loops have run. */
  lemma NewBookJoins(db: Db, db1: Db, bId: nat, b: Book, order: seq<string>)
    requires ValidDb(db) && ValidDb(db1) && Enumerates(order, b.subjects)
    requires bId == |db.books| + 1 && db1 == db.(books := db1.books) && |db1.books| == bId
    requires forall a :: a in b.authors ==> IndexOf(db.authors, AuthorUrlOf, a.url).None?
    ensures var r := SubjectsStep(AuthorsStep(db1, bId, b.authors), bId, order);
      && LinkedAuthors(r.bookAuthor, r.authors, bId) == DistinctByUrl(b.authors)
      && LinkedSubjects(r.bookSubject, r.subjects, bId) == b.subjects
  {
    assert LinksInto(db.bookAuthor, |db.books|, |db.authors|);
    assert LinksInto(db.bookSubject, |db.books|, |db.subjects|);
    LinkedAuthorsNone(db1.bookAuthor, db1.authors, bId);
    LinkedSubjectsNone(db1.bookSubject, db1.subjects, bId);
    AuthorsRoundTrip(db1, bId, b.authors);
    AuthorsStepValid(db1, bId, b.authors);
    SubjectsRoundTrip(AuthorsStep(db1, bId, b.authors), bId, order);
    assert (set s | s in order) == b.subjects;
  }

  /**
   * The url-conflict policy: a save whose isbn is new but whose url is taken
   * leaves the store as it was, so the new isbn still loads nothing.
   */
  lemma SaveUrlConflict(db: Db, b: Book, order: seq<string>)
    requires IndexOf(db.books, IsbnOf, b.isbn).None? && IndexOf(db.books, BookUrlOf, b.url).Some?
    ensures Save(db, b, order) == SaveResult(db, UrlConflict)
    ensures LoadView(Save(db, b, order).db, b.isbn).None?
  {
    SaveBookRow(db, b, order);
  }

  /**
   * Two books that share an author url: after both are saved, the url has a
   * single author row, and it is linked to each of the two books.
   */
  lemma SharedAuthorLinkedToBoth(db: Db, b1: Book, order1: seq<string>, b2: Book, order2: seq<string>, url: string)
    requires ValidDb(db)
    requires Save(db, b1, order1).outcome == Saved
    requires Save(Save(db, b1, order1).db, b2, order2).outcome == Saved
    requires url in UrlsOf(b1.authors) && url in UrlsOf(b2.authors)
    ensures Unique(Save(Save(db, b1, order1).db, b2, order2).db.authors, AuthorUrlOf)
    ensures AuthorLinked(Save(Save(db, b1, order1).db, b2, order2).db,
                         BookIdOf(Save(Save(db, b1, order1).db, b2, order2).db, b1.isbn), url)
    ensures AuthorLinked(Save(Save(db, b1, order1).db, b2, order2).db,
                         BookIdOf(Save(Save(db, b1, order1).db, b2, order2).db, b2.isbn), url)
  {
    var mid := Save(db, b1, order1).db;
    assert ValidDb(Save(mid, b2, order2).db) by {
      SavePreservesValid(db, b1, order1);
      SavePreservesValid(mid, b2, order2);
    }
    SaveLinks(db, b1, order1);
    SaveLinks(mid, b2, order2);
    var a1 :| a1 in b1.authors && a1.url == url;
    var a2 :| a2 in b2.authors && a2.url == url;
    SaveKeepsBookId(mid, b2, order2, b1.isbn);
    SaveKeepsAuthorLinked(mid, b2, order2, BookIdOf(mid, b1.isbn), a1.url);
  }

  /**
   * Two books that share a subject name: after both are saved, the name has a
   * single subject row, and it is linked to each of the two books.
   */
  lemma SharedSubjectLinkedToBoth(db: Db, b1: Book, order1: seq<string>, b2: Book, order2: seq<string>, name: string)
    requires ValidDb(db)
    requires Enumerates(order1, b1.subjects) && Enumerates(order2, b2.subjects)
    requires Save(db, b1, order1).outcome == Saved
    requires Save(Save(db, b1, order1).db, b2, order2).outcome == Saved
    requires name in b1.subjects && name in b2.subjects
    ensures Unique(Save(Save(db, b1, order1).db, b2, order2).db.subjects, SubjectNameOf)
    ensures SubjectLinked(Save(Save(db, b1, order1).db, b2, order2).db,
                          BookIdOf(Save(Save(db, b1, order1).db, b2, order2).db, b1.isbn), name)
    ensures SubjectLinked(Save(Save(db, b1, order1).db, b2, order2).db,
                          BookIdOf(Save(Save(db, b1, order1).db, b2, order2).db, b2.isbn), name)
  {
    var mid := Save(db, b1, order1).db;
    assert ValidDb(Save(mid, b2, order2).db) by {
      SavePreservesValid(db, b1, order1);
      SavePreservesValid(mid, b2, order2);
    }
    SaveLinks(db, b1, order1);
    SaveLinks(mid, b2, order2);
    assert name in order1 && name in order2;
    SaveKeepsBookId(mid, b2, order2, b1.isbn);
    SaveKeepsSubjectLinked(mid, b2, order2, BookIdOf(mid, b1.isbn), name);
  }
}
