/**
 * `Book.from_db` as a function of the store: the book row found by isbn and
 * the two joins through the link tables.
 */
module LoadModel {
  import opened Wrappers
  import opened Catalog
  import opened Tables

  function AuthorOf(row: AuthorRow): Author { Author(row.url, row.name) }

  /** Link `l` belongs to book `bId` and its other end names one of `n` rows. */
  predicate Joins(l: Link, bId: nat, n: nat) {
    l.bookId == bId && 1 <= l.otherId <= n
  }

  /** The authors the join can produce: one for every link of `bId` whose author row exists. */
  function JoinedAuthors(links: seq<Link>, rows: seq<AuthorRow>, bId: nat): set<Author> {
    set k | 0 <= k < |links| && Joins(links[k], bId, |rows|) :: AuthorOf(rows[links[k].otherId - 1])
  }

  /** The positions of the links that join book `bId` with one of `n` rows. */
  function JoiningLinks(links: seq<Link>, bId: nat, n: nat): set<nat> {
    set k: nat | k < |links| && Joins(links[k], bId, n)
  }

  /** The subject names the join can produce. */
  function JoinedSubjects(links: seq<Link>, rows: seq<SubjectRow>, bId: nat): set<string> {
    set k | 0 <= k < |links| && Joins(links[k], bId, |rows|) :: rows[links[k].otherId - 1].name
  }

  /**
   * `SELECT url, name FROM author JOIN book_author … WHERE b_id = ?`, one
   * result row per link of book `bId`, in link-table order. A link whose
   * author id names no row joins with nothing.
   */
  function LinkedAuthors(links: seq<Link>, rows: seq<AuthorRow>, bId: nat): (r: seq<Author>)
    ensures |r| <= |links|
    ensures |r| == |JoiningLinks(links, bId, |rows|)|
    ensures (set a | a in r) == JoinedAuthors(links, rows, bId)
  {
    if links == [] then
      assert JoiningLinks(links, bId, |rows|) == {};
      []
    else
      var p, l := links[..|links| - 1], links[|links| - 1];
      var d := LinkedAuthors(p, rows, bId);
      var e := if Joins(l, bId, |rows|) then [AuthorOf(rows[l.otherId - 1])] else [];
      assert links == p + [l];
      JoinedAuthorsSnoc(p, l, rows, bId);
      JoiningLinksSnoc(p, l, bId, |rows|);
      assert (set a | a in d + e) == (set a | a in d) + (set a | a in e);
      d + e
  }

  /** `SELECT sub_name FROM subject JOIN book_subject … WHERE b_id = ?`, gathered into a set. */
  function LinkedSubjects(links: seq<Link>, rows: seq<SubjectRow>, bId: nat): (r: set<string>)
    ensures r == JoinedSubjects(links, rows, bId)
  {
    if links == [] then {}
    else
      var p, l := links[..|links| - 1], links[|links| - 1];
      JoinedSubjectsSnoc(p, l, rows, bId);
      LinkedSubjects(p, rows, bId)
        + (if Joins(l, bId, |rows|) then {rows[l.otherId - 1].name} else {})
  }

  /** One more link adds to the authors the join can produce exactly what that link joins with. */
  lemma JoinedAuthorsSnoc(p: seq<Link>, l: Link, rows: seq<AuthorRow>, bId: nat)
    ensures JoinedAuthors(p + [l], rows, bId)
      == JoinedAuthors(p, rows, bId) + (if Joins(l, bId, |rows|) then {AuthorOf(rows[l.otherId - 1])} else {})
  {
    var all := p + [l];
    assert forall k :: 0 <= k < |p| ==> all[k] == p[k];
    assert all[|p|] == l;
  }

  /** One more link adds its own position to the joining links exactly when it joins. */
  lemma JoiningLinksSnoc(p: seq<Link>, l: Link, bId: nat, n: nat)
    ensures |JoiningLinks(p + [l], bId, n)| == |JoiningLinks(p, bId, n)| + (if Joins(l, bId, n) then 1 else 0)
  {
    var all := p + [l];
    assert forall k :: 0 <= k < |p| ==> all[k] == p[k];
    assert all[|p|] == l;
    assert |p| !in JoiningLinks(p, bId, n);
    if Joins(l, bId, n) {
      assert JoiningLinks(all, bId, n) == JoiningLinks(p, bId, n) + {|p|};
    } else {
      assert JoiningLinks(all, bId, n) == JoiningLinks(p, bId, n);
    }
  }

  /** The subject counterpart of JoinedAuthorsSnoc. */
  lemma JoinedSubjectsSnoc(p: seq<Link>, l: Link, rows: seq<SubjectRow>, bId: nat)
    ensures JoinedSubjects(p + [l], rows, bId)
      == JoinedSubjects(p, rows, bId) + (if Joins(l, bId, |rows|) then {rows[l.otherId - 1].name} else {})
  {
    var all := p + [l];
    assert forall k :: 0 <= k < |p| ==> all[k] == p[k];
    assert all[|p|] == l;
  }

  /**
   * A book as far as the store determines it: the query has no ORDER BY, so
   * the authors are a multiset.
   */
  datatype BookView = BookView(
    url: string,
    isbn: string,
    title: string,
    subtitle: Option<string>,
    coverUrl: Option<string>,
    authors: multiset<Author>,
    subjects: set<string>)

  function ViewOf(b: Book): BookView {
    BookView(b.url, b.isbn, b.title, b.subtitle, b.coverUrl, multiset(b.authors), b.subjects)
  }

  /** What `from_db(isbn)` returns, up to author order; None where it raises. */
  function LoadView(db: Db, isbn: string): (r: Option<BookView>)
    ensures r.None? <==> forall i :: 0 <= i < |db.books| ==> db.books[i].isbn != isbn
    ensures r.Some? ==> r.value.isbn == isbn
  {
    match IndexOf(db.books, IsbnOf, isbn)
    case None => None
    case Some(i) =>
      var row := db.books[i];
      Some(BookView(row.url, row.isbn, row.title, row.subtitle, row.coverUrl,
                    multiset(LinkedAuthors(db.bookAuthor, db.authors, row.id)),
                    LinkedSubjects(db.bookSubject, db.subjects, row.id)))
  }

  /**
   * With link pairs and author urls unique, the author join lists every
   * linked author once.
   */
  lemma {:induction false} LinkedAuthorsDistinct(links: seq<Link>, rows: seq<AuthorRow>, bId: nat)
    requires NoDuplicates(links) && Unique(rows, AuthorUrlOf)
    ensures forall i, j :: 0 <= i < j < |LinkedAuthors(links, rows, bId)| ==>
      LinkedAuthors(links, rows, bId)[i] != LinkedAuthors(links, rows, bId)[j]
  {
    if links != [] {
      var p, l := links[..|links| - 1], links[|links| - 1];
      assert forall k :: 0 <= k < |p| ==> p[k] == links[k];
      LinkedAuthorsDistinct(p, rows, bId);
      var d := LinkedAuthors(p, rows, bId);
      if Joins(l, bId, |rows|) {
        var a := AuthorOf(rows[l.otherId - 1]);
        forall x | x in d
          ensures x != a
        {
          assert x in (set y | y in d);
          assert x in JoinedAuthors(p, rows, bId);
          var k :| 0 <= k < |p| && Joins(p[k], bId, |rows|) && AuthorOf(rows[p[k].otherId - 1]) == x;
          assert links[k] != links[|p|];
          assert p[k].otherId != l.otherId;
        }
        var r := d + [a];
        assert LinkedAuthors(links, rows, bId) == r;
        forall i, j | 0 <= i < j < |r|
          ensures r[i] != r[j]
        {
          if j == |d| {
            assert r[i] in d;
          }
        }
      }
    }
  }

  /** Links of other books add nothing to the authors of `bId`. */
  lemma {:induction false} LinkedAuthorsNone(links: seq<Link>, rows: seq<AuthorRow>, bId: nat)
    requires forall k :: 0 <= k < |links| ==> links[k].bookId != bId
    ensures LinkedAuthors(links, rows, bId) == []
  {
    if links != [] {
      LinkedAuthorsNone(links[..|links| - 1], rows, bId);
    }
  }

  /** Rows appended to the author table do not change the join of links that point below them. */
  lemma {:induction false} LinkedAuthorsMoreRows(links: seq<Link>, rows: seq<AuthorRow>, more: seq<AuthorRow>, bId: nat)
    requires forall k :: 0 <= k < |links| ==> links[k].otherId <= |rows|
    ensures LinkedAuthors(links, rows + more, bId) == LinkedAuthors(links, rows, bId)
  {
    if links != [] {
      var l := links[|links| - 1];
      LinkedAuthorsMoreRows(links[..|links| - 1], rows, more, bId);
      if 1 <= l.otherId <= |rows| {
        assert (rows + more)[l.otherId - 1] == rows[l.otherId - 1];
      }
    }
  }

  /** The subject-table counterpart of LinkedAuthorsMoreRows. */
  lemma {:induction false} LinkedSubjectsMoreRows(links: seq<Link>, rows: seq<SubjectRow>, more: seq<SubjectRow>, bId: nat)
    requires forall k :: 0 <= k < |links| ==> links[k].otherId <= |rows|
    ensures LinkedSubjects(links, rows + more, bId) == LinkedSubjects(links, rows, bId)
  {
    if links != [] {
      var l := links[|links| - 1];
      LinkedSubjectsMoreRows(links[..|links| - 1], rows, more, bId);
      if 1 <= l.otherId <= |rows| {
        assert (rows + more)[l.otherId - 1] == rows[l.otherId - 1];
      }
    }
  }

  /** Every link of `bId` to an existing subject row contributes that subject's name. */
  lemma {:induction false} LinkedSubjectsHas(links: seq<Link>, rows: seq<SubjectRow>, bId: nat, l: Link)
    requires l in links && l.bookId == bId && 1 <= l.otherId <= |rows|
    ensures rows[l.otherId - 1].name in LinkedSubjects(links, rows, bId)
  {
    if links[|links| - 1] != l {
      assert l in links[..|links| - 1] by {
        var k :| 0 <= k < |links| && links[k] == l;
        assert links[..|links| - 1][k] == l;
      }
      LinkedSubjectsHas(links[..|links| - 1], rows, bId, l);
    }
  }
}
