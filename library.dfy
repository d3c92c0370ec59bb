/**
 * The catalogue store and the two operations of `Book` that use it: `save`
 * and `from_db`. The store's five tables are fields that the methods
 * reassign; each method is proved against the functions of SaveModel and
 * LoadModel.
 */
module Library {
  import opened Wrappers
  import opened Catalog
  import opened Tables
  import opened SaveModel
  import opened LoadModel
  import SaveLaws

  /** `from_db`'s result: the book, or `BookNotInDatabaseError(isbn)`. */
  datatype LoadResult = Found(book: Book) | NotFound(isbn: string)

  class Store {
    var books: seq<BookRow>
    var authors: seq<AuthorRow>
    var subjects: seq<SubjectRow>
    var bookAuthor: seq<Link>
    var bookSubject: seq<Link>

    function State(): Db
      reads this
    {
      Db(books, authors, subjects, bookAuthor, bookSubject)
    }

    predicate Valid()
      reads this
    {
      ValidDb(State())
    }

    /** A store whose schema has just been applied. */
    constructor ()
      ensures Valid() && State() == EmptyDb
    {
      books, authors, subjects, bookAuthor, bookSubject := [], [], [], [], [];
    }

    /**
     * `Book.save`. The ghost `order` is the order in which the subject set
     * happened to be iterated.
     */
    method Save(b: Book) returns (outcome: SaveOutcome, ghost order: seq<string>)
      requires Valid()
      modifies this
      ensures Valid()
      ensures outcome == Saved ==> Enumerates(order, b.subjects)
      ensures SaveResult(State(), outcome) == SaveModel.Save(old(State()), b, order)
    {
      order := [];
      var resolved := ResolveBookRow(b);
      if resolved.None? {
        return UrlConflict, order;
      }
      var bId := resolved.value;
      LinkAuthors(bId, b.authors);
      order := LinkSubjects(bId, b.subjects);
      outcome := Saved;
    }

    /** The author loop of `save`, in list order. */
    method LinkAuthors(bId: nat, list: seq<Author>)
      requires Valid() && 1 <= bId <= |books|
      modifies this
      ensures Valid()
      ensures State() == AuthorsStep(old(State()), bId, list)
    {
      ghost var db1 := State();
      var i := 0;
      while i < |list|
        invariant 0 <= i <= |list|
        invariant Valid() && books == db1.books
        invariant State() == AuthorsStep(db1, bId, list[..i])
      {
        LinkAuthor(bId, list[i]);
        assert list[..i + 1][..i] == list[..i];
        i := i + 1;
      }
      assert list[..i] == list;
    }

    /** The subject loop of `save`; `order` is the order the set was iterated in. */
    method LinkSubjects(bId: nat, names: set<string>) returns (ghost order: seq<string>)
      requires Valid() && 1 <= bId <= |books|
      modifies this
      ensures Valid()
      ensures Enumerates(order, names)
      ensures State() == SubjectsStep(old(State()), bId, order)
    {
      ghost var db2 := State();
      order := [];
      var remaining := names;
      while remaining != {}
        invariant remaining <= names
        invariant forall x :: x in order ==> x in names && x !in remaining
        invariant forall x :: x in names ==> x in order || x in remaining
        invariant forall p, q :: 0 <= p < q < |order| ==> order[p] != order[q]
        invariant Valid() && books == db2.books
        invariant State() == SubjectsStep(db2, bId, order)
        decreases remaining
      {
        var s :| s in remaining;
        LinkSubject(bId, s);
        assert (order + [s])[..|order|] == order;
        order := order + [s];
        remaining := remaining - {s};
      }
    }

    /**
     * The first statement group of `save`: the id of the book row with the
     * isbn; when there is none, a new row inserted in one transaction, or
     * None when the insert is ignored because the url is taken.
     */
    method ResolveBookRow(b: Book) returns (bId: Option<nat>)
      requires Valid()
      modifies this
      ensures Valid()
      ensures bId.Some? ==> 1 <= bId.value <= |books|
      ensures bId.None? ==> State() == old(State()) && ResolveBook(old(State()), b) == Conflict
      ensures bId.Some? ==> ResolveBook(old(State()), b) == Resolved(State(), bId.value)
    {
      SaveLaws.ResolveBookValid(State(), b);
      var found := IndexOf(books, IsbnOf, b.isbn);
      if found.Some? {
        return Some(books[found.value].id);
      }
      if IndexOf(books, BookUrlOf, b.url).Some? {
        return None;
      }
      var id := |books| + 1;
      books := books + [BookRow(id, b.url, b.isbn, b.title, b.subtitle, b.coverUrl)];
      return Some(id);
    }

    /** One pass of the author loop of `save`: find or create the author by url, then link it. */
    method LinkAuthor(bId: nat, a: Author)
      requires Valid() && 1 <= bId <= |books|
      modifies this
      ensures Valid()
      ensures State() == AuthorStep(old(State()), bId, a)
    {
      SaveLaws.AuthorStepValid(State(), bId, a);
      var aId: nat;
      var stored := IndexOf(authors, AuthorUrlOf, a.url);
      if stored.Some? {
        aId := authors[stored.value].id;
      } else {
        aId := |authors| + 1;
        authors := authors + [AuthorRow(aId, a.url, a.name)];
      }
      if Link(bId, aId) !in bookAuthor {
        bookAuthor := bookAuthor + [Link(bId, aId)];
      }
    }

    /** One pass of the subject loop of `save`: find or create the subject by name, then link it. */
    method LinkSubject(bId: nat, s: string)
      requires Valid() && 1 <= bId <= |books|
      modifies this
      ensures Valid()
      ensures State() == SubjectStep(old(State()), bId, s)
    {
      SaveLaws.SubjectStepValid(State(), bId, s);
      var sId: nat;
      var stored := IndexOf(subjects, SubjectNameOf, s);
      if stored.Some? {
        sId := subjects[stored.value].id;
      } else {
        sId := |subjects| + 1;
        subjects := subjects + [SubjectRow(sId, s)];
      }
      if Link(bId, sId) !in bookSubject {
        bookSubject := bookSubject + [Link(bId, sId)];
      }
    }

    /**
     * `Book.from_db`: the book whose isbn is given, with its linked authors
     * and subjects, or NotFound when no row has the isbn. Changes nothing.
     */
    method Load(isbn: string) returns (r: LoadResult)
      requires Valid()
      ensures r.NotFound? <==> LoadView(State(), isbn).None?
      ensures r.NotFound? ==> r.isbn == isbn
      ensures r.Found? ==> LoadView(State(), isbn) == Some(ViewOf(r.book))
    {
      var found := IndexOf(books, IsbnOf, isbn);
      if found.None? {
        return NotFound(isbn);
      }
      var row := books[found.value];

      var linked := JoinAuthors(row.id);
      var names := JoinSubjects(row.id);
      r := Found(Book(row.url, row.isbn, row.title, row.subtitle, linked, names, row.coverUrl));
    }
  
    /** The author query of `from_db`: the authors linked to book `bId`, in link-table order. */
    method JoinAuthors(bId: nat) returns (linked: seq<Author>)
      requires LinksInto(bookAuthor, |books|, |authors|)
      ensures linked == LinkedAuthors(bookAuthor, authors, bId)
    {
      linked := [];
      var k := 0;
      while k < |bookAuthor|
        invariant 0 <= k <= |bookAuthor|
        invariant linked == LinkedAuthors(bookAuthor[..k], authors, bId)
      {
        var l := bookAuthor[k];
        if l.bookId == bId {
          var ar := authors[l.otherId - 1];
          linked := linked + [Author(ar.url, ar.name)];
        }
        assert bookAuthor[..k + 1][..k] == bookAuthor[..k];
        k := k + 1;
      }
      assert bookAuthor[..k] == bookAuthor;
    }

    /** The subject query of `from_db`: the names of the subjects linked to book `bId`. */
    method JoinSubjects(bId: nat) returns (names: set<string>)
      requires LinksInto(bookSubject, |books|, |subjects|)
      ensures names == LinkedSubjects(bookSubject, subjects, bId)
    {
      names := {};
      var k := 0;
      while k < |bookSubject|
        invariant 0 <= k <= |bookSubject|
        invariant names == LinkedSubjects(bookSubject[..k], subjects, bId)
      {
        var l := bookSubject[k];
        if l.bookId == bId {
          names := names + {subjects[l.otherId - 1].name};
        }
        assert bookSubject[..k + 1][..k] == bookSubject[..k];
        k := k + 1;
      }
      assert bookSubject[..k] == bookSubject;
    }
  }
}
