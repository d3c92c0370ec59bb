# ol-ocr catalogue store in Dafny

ol-ocr keeps a local SQLite catalogue of books looked up on Open Library.
This project models the part of `src/ol_ocr/library.py` that writes a `Book`
(with its `Author`s and subjects) into that catalogue and reads it back:
`Book.save` and `Book.from_db`.

The store has five tables:
- `book`, unique by isbn and by url;
- `author`, unique by url;
- `subject`, unique by name;
- `book_author` and `book_subject`, each unique by pair.

These constraints have different origins:
- The url and name constraints are the targets of the `ON CONFLICT (url)`
  and `ON CONFLICT (sub_name)` clauses.
- No clause covers the book isbn. It stays unique because `save` looks the
  isbn up first and inserts only when it is absent (library.py:105-107). In
  the model this is an invariant proved of every save, not a constraint
  assumed.
- Pair uniqueness of the link tables is inferred from their target-less
  `ON CONFLICT DO NOTHING`.
- That every link names existing rows follows the `foreign_keys` pragma of
  the connection.

Each table is a sequence of rows. A row's id is its position plus one. SQLite
hands out the next rowid after the largest one, and the program never
deletes, so the two agree.

Files and modules:
- `tables.dfy`:
  - `Wrappers`: the `Option` type;
  - `Catalog`: the `Author` and `Book` records;
  - `Tables`: rows, the store value `Db`, lookup by key (`IndexOf`), the
    ignore-on-conflict link insert, and `ValidDb`. `ValidDb` says each table
    is unique on its key, the ids are consecutive, and every link points at
    existing rows.
- `save_model.dfy` (`SaveModel`): `save` as a function of the old store.
  It finds the book row or inserts it, then runs the author loop in list
  order, then the subject loop. A Python set has no fixed iteration order,
  so the subject order is a parameter, limited to orders that list the set
  exactly once (`Enumerates`).
- `load_model.dfy` (`LoadModel`): `from_db` as a function of the store. It
  finds the row by isbn, then joins through both link tables. The author
  query has no `ORDER BY`, so `LoadView` gives the authors as a multiset.
- `save_laws.dfy` (`SaveLaws`): what a save guarantees. It keeps the store
  valid, it treats the book row by isbn and url in the three cases of
  `SaveBookRow`, it reuses stored rows, and it links every author and
  subject. A repeated author adds nothing, and saving the same book twice equals saving it once.
- `load_laws.dfy` (`LoadLaws`): how load and save fit together. A new book
  reads back as it was saved, with authors de-duplicated by url. In the
  model a url conflict stops the save with nothing stored, so the isbn stays
  unknown. The partial writes `Book.save` makes on that path are listed under
  "Left out". An author or a subject shared by two books is stored once and
  linked to both.
- `library.dfy` (`Library`): the imperative store.
  - `Library.Store` is a class whose table fields are reassigned by its
    methods.
  - `Save` runs the same statement groups as `Book.save`, in the same order,
    and is proved equal to `SaveModel.Save`.
  - `Load` runs the two join loops and is proved equal to
    `LoadModel.LoadView`.

## Model

| member | source | states |
|---|---|---|
| Tables.IndexOf | src/ol_ocr/library.py:105-106 | `SELECT … WHERE key = ?` then `fetchone`. The result is None exactly when no row has the key. Otherwise it is the first row with that key. |
| Tables.InsertLinkIgnore | src/ol_ocr/library.py:137-141 | `INSERT … ON CONFLICT DO NOTHING` into a link table. A pair already present leaves the table unchanged. A new pair is appended at the end. Nothing is removed, and the pair constraint keeps holding. |
| Tables.UniqueIndexOf | src/ol_ocr/library.py:105-106 | In a table unique on its key, a lookup finds the one row that carries the key. |
| SaveModel.ResolveBook | src/ol_ocr/library.py:105-122 | The book statement group. It is a conflict exactly when the isbn is absent and the url is taken. Otherwise only the book table changes, by at most one appended row, and the isbn then finds a row carrying the returned id. |
| SaveModel.AuthorStep | src/ol_ocr/library.py:125-141 | One pass of the author loop changes only the author and book_author tables. It appends at most one row and at most one link. |
| SaveModel.SubjectStep | src/ol_ocr/library.py:144-159 | One pass of the subject loop changes only the subject and book_subject tables. It appends at most one row and at most one link. |
| SaveModel.AuthorsStep | src/ol_ocr/library.py:124-141 | The author loop changes only the author and book_author tables, and only by appending. |
| SaveModel.SubjectsStep | src/ol_ocr/library.py:143-159 | The subject loop changes only the subject and book_subject tables, and only by appending. |
| SaveModel.Save | src/ol_ocr/library.py:102-160 | A save never removes or rewrites a row: every old table is a prefix of the new one. |
| LoadModel.LinkedAuthors | src/ol_ocr/library.py:79-88 | The author join has exactly one entry per link that joins the book with an existing author row (`JoiningLinks`). Its entries are exactly the authors those links name (`JoinedAuthors`). |
| LoadModel.LinkedAuthorsDistinct | src/ol_ocr/library.py:79-88 | With link pairs unique and author urls unique, the join lists every linked author once. |
| LoadModel.LinkedSubjects | src/ol_ocr/library.py:90-98 | The subject set equals the names of the subject rows named by the links of the book, wherever that row exists (`JoinedSubjects`). |
| LoadModel.LoadView | src/ol_ocr/library.py:69-77 | `from_db` finds nothing exactly when no book row has the isbn. When it finds a book, the book has that isbn. |
| SaveLaws.AuthorsStepValid | src/ol_ocr/library.py:124-141 | The author loop keeps the store valid: urls stay unique, ids consecutive, links unique and pointing at existing rows. |
| SaveLaws.SubjectsStepValid | src/ol_ocr/library.py:143-159 | The subject loop keeps the store valid. |
| SaveLaws.ResolveBookValid | src/ol_ocr/library.py:105-122 | The book step keeps the store valid. When it yields a book id, that id belongs to the row (old or new) that the isbn now finds. |
| SaveLaws.SavePreservesValid | src/ol_ocr/library.py:102-160 | A save keeps the store valid. |
| SaveLaws.SaveBookRow | src/ol_ocr/library.py:105-122 | There are three cases. A stored isbn leaves the book table unchanged. A new isbn with a taken url is a conflict that changes nothing. Otherwise exactly one row is appended, holding the book's fields. |
| SaveLaws.SaveReusesAuthor | src/ol_ocr/library.py:125-135 | A stored author row is never rewritten by a later save, and its url still finds it. A later save under a different name keeps the stored name. |
| SaveLaws.SaveReusesSubject | src/ol_ocr/library.py:144-154 | A stored subject row is never rewritten, and its name still finds it. |
| SaveLaws.AuthorStepLinks | src/ol_ocr/library.py:125-141 | After one pass of the author loop, the author's url is stored and linked to the book. |
| SaveLaws.SubjectStepLinks | src/ol_ocr/library.py:144-159 | After one pass of the subject loop, the subject is stored and linked to the book. |
| SaveLaws.AuthorsStepLinks | src/ol_ocr/library.py:124-141 | After the author loop, every author of the list is stored and linked to the book. |
| SaveLaws.SubjectsStepLinks | src/ol_ocr/library.py:143-159 | After the subject loop, every subject iterated is stored and linked to the book. |
| SaveLaws.AuthorLinkedGrows | src/ol_ocr/library.py:124-159 | A link stays in place when the author and link tables only grow. |
| SaveLaws.SubjectLinkedGrows | src/ol_ocr/library.py:124-159 | A link stays in place when the subject and link tables only grow. |
| SaveLaws.AuthorsStepNoop | src/ol_ocr/library.py:124-141 | When every author is already stored and linked, the author loop changes nothing. |
| SaveLaws.SubjectsStepNoop | src/ol_ocr/library.py:143-159 | When every subject is already stored and linked, the subject loop changes nothing. |
| SaveLaws.RepeatedAuthorAddsNothing | src/ol_ocr/library.py:124-141 | An author whose url already appeared earlier in the list adds no row and no link. |
| SaveLaws.SaveLinks | src/ol_ocr/library.py:102-160 | After a save that does not conflict, the isbn is stored. Every author and every subject is linked to the book row the isbn finds. |
| SaveLaws.SaveKeepsBookId | src/ol_ocr/library.py:105-122 | An isbn already stored keeps its book id across any later save. |
| SaveLaws.SaveKeepsAuthorLinked | src/ol_ocr/library.py:124-141 | A later save never removes an author link. |
| SaveLaws.SaveKeepsSubjectLinked | src/ol_ocr/library.py:143-159 | A later save never removes a subject link. |
| SaveLaws.SaveIdempotent | src/ol_ocr/library.py:102-160 | Saving the same book a second time, in any subject order, changes nothing and has the same outcome. |
| LoadLaws.DistinctByUrl | src/ol_ocr/library.py:124-135 | The authors the loop stores, one per url. Each comes from the list, every url of the list appears, and no url appears twice. The first occurrence of every url is kept, so a later entry with the same url but a different name is dropped. |
| LoadLaws.LinkedSubjectsNone | src/ol_ocr/library.py:90-98 | Links of other books add no subject to a book. |
| LoadLaws.AuthorsStepNewRows | src/ol_ocr/library.py:127-133 | Every author row the loop creates carries the url of an author of the list. |
| LoadLaws.AuthorStepNewUrl | src/ol_ocr/library.py:127-141 | Linking an author whose url is not stored puts exactly that author at the end of the book's author join. |
| LoadLaws.AuthorStepLinkedUrl | src/ol_ocr/library.py:134-141 | Linking an author that is already stored and linked changes nothing. |
| LoadLaws.AuthorsRoundTrip | src/ol_ocr/library.py:79-88 | For a fresh book with new author urls, after the author loop the book's authors read back are the list de-duplicated by url. |
| LoadLaws.SubjectStepAdds | src/ol_ocr/library.py:143-159 | One pass of the subject loop adds exactly that name to the subjects read back. |
| LoadLaws.SubjectsRoundTrip | src/ol_ocr/library.py:90-98 | The subject loop adds exactly the iterated names to the subjects read back. |
| LoadLaws.NewBookJoins | src/ol_ocr/library.py:79-98 | For a freshly inserted book row, both joins read back what the two loops wrote. |
| LoadLaws.RoundTrip | src/ol_ocr/library.py:61-160 | Saving a book with a new isbn, url and author urls succeeds. Loading the isbn afterwards gives back its url, title, subtitle, cover, subjects, and its authors de-duplicated by url (up to order). |
| LoadLaws.SaveUrlConflict | src/ol_ocr/library.py:107-120 | A new isbn with a url already taken leaves the store unchanged, and the isbn still cannot be loaded. |
| LoadLaws.SharedAuthorLinkedToBoth | src/ol_ocr/library.py:124-141 | Saving two books that share an author url stores one author row for that url, linked to both books. |
| LoadLaws.SharedSubjectLinkedToBoth | src/ol_ocr/library.py:143-159 | Saving two books that share a subject name stores one subject row for that name, linked to both books. |
| Library.Store.constructor | src/ol_ocr/database.py:67-73 | A store whose schema has just been created is empty and valid. |
| Library.Store.Save | src/ol_ocr/library.py:102-160 | The method's new state and outcome are those of `SaveModel.Save` for some order of the subject set. It keeps the store valid. |
| Library.Store.ResolveBookRow | src/ol_ocr/library.py:105-122 | The book statement group, on a valid store. It returns the book id and new state of `SaveModel.ResolveBook`, or nothing, with the state unchanged, on a url conflict. It keeps the store valid, and a returned id names an existing book row. |
| Library.Store.LinkAuthors | src/ol_ocr/library.py:124-141 | The author loop, step by step, equal to `SaveModel.AuthorsStep`. It is called with the id of an existing book row on a valid store, and it keeps the store valid. |
| Library.Store.LinkAuthor | src/ol_ocr/library.py:125-141 | One pass of the author loop, equal to `SaveModel.AuthorStep`. It is called for an existing book row of a valid store, and it keeps the store valid. |
| Library.Store.LinkSubjects | src/ol_ocr/library.py:143-159 | The subject loop over the set. The order it picks enumerates the set, and the new state is `SaveModel.SubjectsStep` for that order. It is called for an existing book row of a valid store, and it keeps the store valid. |
| Library.Store.LinkSubject | src/ol_ocr/library.py:144-159 | One pass of the subject loop, equal to `SaveModel.SubjectStep`. It is called for an existing book row of a valid store, and it keeps the store valid. |
| Library.Store.JoinAuthors | src/ol_ocr/library.py:79-88 | The author query and its loop, equal to `LoadModel.LinkedAuthors`. |
| Library.Store.JoinSubjects | src/ol_ocr/library.py:90-98 | The subject query and its loop, equal to `LoadModel.LinkedSubjects`. |
| Library.Store.Load | src/ol_ocr/library.py:61-100 | `from_db`: NotFound, carrying the isbn, exactly when `LoadView` finds nothing. Otherwise the book built from the row and both joins, equal to `LoadView` up to author order. |

## Left out

- `Book.from_openlibrary` and `fetch_openlibrary_book` are not modelled, because they depend on an HTTP request to Open Library.
- `find_isbn` is not modelled, because it calls into `isbnlib`.
- The conversion of an `isbnlib.Isbn` argument to its canonical string at the start of `from_db` is not modelled. The model takes the string.
- The module-level `DB_FILE` and its `print` are not modelled (I/O).
- `src/ol_ocr/database.py` is modelled only as the empty, valid store left once the schema has been created (`Library.Store.constructor`, database.py:67-73). The rest is not modelled: the file location, the journal and synchronisation pragmas, and the `transaction` helper. `schema.sql` is not part of this model. The constraints the model relies on, and where each comes from, are listed at the top of this file.
- `src/ol_ocr/main.py` is not modelled (command-line entry point).
- Concurrent writers are not modelled: the model assumes one writer at a time. For authors and subjects, the `ON CONFLICT … DO NOTHING` branch of the insert (library.py:128-133, 147-152) can only be taken when another writer stores the same url or name between the SELECT and the INSERT. On that path `cur.lastrowid` is stale, and the link goes to whatever id the connection last inserted. SaveModel.AuthorStep and SaveModel.SubjectStep always append the new row after a failed lookup, which is right only for a single writer. Neither that race nor its stale-id link is modelled.
- Atomicity, rollback and crashes are not modelled. The connection runs in autocommit mode, so only the book insert is in a transaction; each author and subject statement commits on its own, and a save that fails halfway leaves the rows written before the failure.
- Library.Store.Save: on a url conflict the model stops and returns `UrlConflict` as an ordinary outcome, with the store unchanged. `Book.save` instead goes on with `cur.lastrowid` of the insert that did nothing (library.py:120). `save` opens a fresh connection for every call (library.py:104, database.py:21), and before that point the connection has run only pragmas and a SELECT, so that rowid is 0, and no book row has id 0. With at least one author or subject, the first link insert (library.py:137-141 or 155-159) then breaks the foreign key on `b_id`, which `ON CONFLICT DO NOTHING` does not cover. That insert raises `sqlite3.IntegrityError`, after at most one new author or subject row has been committed by the autocommit connection. With no authors and no subjects, `save` writes nothing and returns normally. The model captures neither the exception nor that possible single committed row. The foreign keys themselves are declared in `schema.sql`, which is not part of this model.
- SaveModel.Save: the same stop-on-conflict decision as Store.Save. The model does not look the book up by url after a conflict. No such follow-up lookup appears in `library.py`, so the model follows the code.
- LoadModel.LoadView and Library.Store.Load: these give the authors only up to order (a multiset), because the author query has no `ORDER BY`. The model does not claim the list order of the database.
- Row ids are positions plus one, because the program never deletes rows.
