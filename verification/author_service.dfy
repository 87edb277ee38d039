/** `AuthorService`: lookups, creation (the store enforces the unique name), the
    partial update, and deletion (the store refuses an author a book still names).

    An author's book set is the inverse side of the book's author relation: the
    store keeps no column for it, so every lookup reads it back from the book
    rows and no write of an author ever changes it. */
module AuthorService {
  import opened Ids
  import opened Wrappers
  import opened Catalog
  import opened Store
  import Text
  import Reconciler

  /** The author row `id` as the store loads it, its book set read back from the books. */
  function Loaded(db: Db, id: Uuid): Author
    requires id in db.authors
  {
    db.authors[id].(books := AuthorBooks(db, id))
  }

  /** The author with the given id, or the author not-found exception. */
  function FindById(db: Db, id: Uuid): (r: Result<Author, ServiceError>)
    ensures r.Success? <==> id in db.authors
    ensures r.Success? ==> r.value == Loaded(db, id)
    ensures r.Success? ==> forall k :: k in r.value.books <==> k in db.books && id in db.books[k].authors
    ensures r.Failure? ==> r.error == ServiceException(AuthorAggregate, NotFoundById(id))
  {
    if id in db.authors then Success(Loaded(db, id))
    else Failure(ServiceException(AuthorAggregate, NotFoundById(id)))
  }

  /** The authors whose name contains the text, ignoring case. */
  function FindByName(db: Db, text: string): (r: set<Author>)
    ensures forall a :: a in r <==> (exists k :: k in db.authors && Loaded(db, k) == a) && Text.ContainsIgnoreCase(a.name, text)
  {
    set k | k in db.authors && Text.ContainsIgnoreCase(db.authors[k].name, text) :: Loaded(db, k)
  }

  /** An empty search text finds every author. */
  lemma FindByEmptyNameFindsAll(db: Db)
    ensures forall k :: k in db.authors ==> Loaded(db, k) in FindByName(db, "")
  {
    forall k | k in db.authors ensures Loaded(db, k) in FindByName(db, "") {
      Text.EmptyTextMatchesAll(db.authors[k].name);
    }
  }

  /** Creation: the service itself checks nothing; the store refuses a name
      another author holds. Otherwise the author is stored under the fresh id,
      without the book set it came with, which the store does not write. */
  function Save(db: Db, author: Author, newId: Uuid): (r: Result<(Db, Author), ServiceError>)
    requires newId !in db.authors
    ensures r.Success? <==> AuthorNameFree(db, author.(id := newId))
    ensures r.Failure? ==> r.error == ConstraintViolation(AuthorName)
    ensures r.Success? ==> r.value.1 == author.(id := newId)
    ensures r.Success? ==> r.value.0 == db.(authors := db.authors[newId := r.value.1.(books := {})])
    ensures r.Success? && UniqueColumns(db) ==> UniqueColumns(r.value.0)
    ensures r.Success? && Keyed(db) ==> Keyed(r.value.0)
    ensures r.Success? && Linked(db) ==> Linked(r.value.0)
  {
    var saved := author.(id := newId);
    var db' :- PutAuthor(db, saved.(books := {}));
    Success((db', saved))
  }

  /** A newly saved author has no books while every book's authors exist. */
  lemma SavedAuthorHasNoBooks(db: Db, author: Author, newId: Uuid)
    requires newId !in db.authors && Linked(db)
    requires Save(db, author, newId).Success?
    ensures FindById(Save(db, author, newId).value.0, newId).value.books == {}
  {
    var db' := Save(db, author, newId).value.0;
    forall k | k in db'.books ensures newId !in db'.books[k].authors {
      assert LinksExist(db, db.books[k]);
    }
  }

  /** Partial update: the author not-found exception for an unknown id;
      otherwise the loaded author merged with the incoming one is written back
      (the store may still reject a taken name) and returned. The merged book
      set is only in the returned value: the stored row keeps its own. */
  function Update(db: Db, id: Uuid, incoming: Author): (r: Result<(Db, Author), ServiceError>)
    ensures id !in db.authors ==> r == Failure(ServiceException(AuthorAggregate, NotFoundById(id)))
    ensures r.Success? <==> id in db.authors && AuthorNameFree(db, Reconciler.MergeAuthor(Loaded(db, id), incoming))
    ensures r.Success? ==> r.value.1 == Reconciler.MergeAuthor(Loaded(db, id), incoming)
    ensures r.Success? ==> r.value.1.id == db.authors[id].id
    ensures r.Success? ==> r.value.0 == db.(authors := db.authors[r.value.1.id := r.value.1.(books := db.authors[id].books)])
    ensures r.Success? && UniqueColumns(db) ==> UniqueColumns(r.value.0)
    ensures r.Success? && Keyed(db) ==> r.value.1.id == id && Keyed(r.value.0)
    ensures r.Success? && Linked(db) ==> Linked(r.value.0)
  {
    if id !in db.authors then Failure(ServiceException(AuthorAggregate, NotFoundById(id)))
    else
      var merged := Reconciler.MergeAuthor(Loaded(db, id), incoming);
      var db' :- PutAuthor(db, merged.(books := db.authors[id].books));
      Success((db', merged))
  }

  /** What an update returns is what a later lookup finds, except for the book
      set, which the lookup reads back unchanged from the books. */
  lemma UpdateDoesNotLinkBooks(db: Db, id: Uuid, incoming: Author)
    requires Keyed(db) && Update(db, id, incoming).Success?
    ensures var (db', merged) := Update(db, id, incoming).value;
            FindById(db', id) == Success(merged.(books := FindById(db, id).value.books))
  {
  }

  /** A book listed only in the incoming author is in the returned author but
      not linked: a later lookup does not show it. */
  lemma IncomingBookNotLinked(db: Db, id: Uuid, incoming: Author, b: Uuid)
    requires Keyed(db) && id in db.authors && b in incoming.books
    requires b in db.books && id !in db.books[b].authors
    requires Update(db, id, incoming).Success?
    ensures var (db', merged) := Update(db, id, incoming).value;
            b in merged.books && b !in FindById(db', id).value.books
  {
    Reconciler.MergeAuthorIsRekeyedUnion(Loaded(db, id), incoming);
  }

  /** Deletion by id, a no-op for an unknown id. The store refuses to delete an
      author some book still names; otherwise no book names it afterwards. */
  function Delete(db: Db, id: Uuid): (r: Result<Db, ServiceError>)
    ensures id !in db.authors ==> r == Success(db)
    ensures id in db.authors ==> (r.Success? <==> AuthorBooks(db, id) == {})
    ensures r.Failure? ==> r.error == ForeignKeyViolation(BookAuthor)
    ensures r.Success? ==> r.value == db.(authors := db.authors - {id})
    ensures r.Success? && id in db.authors ==> forall k :: k in r.value.books ==> id !in r.value.books[k].authors
    ensures r.Success? && UniqueColumns(db) ==> UniqueColumns(r.value)
    ensures r.Success? && Keyed(db) ==> Keyed(r.value)
    ensures r.Success? && Linked(db) ==> Linked(r.value)
  {
    if id !in db.authors then Success(db)
    else if AuthorBooks(db, id) != {} then Failure(ForeignKeyViolation(BookAuthor))
    else Success(db.(authors := db.authors - {id}))
  }

  /** After a successful deletion the author is no longer found. */
  lemma DeleteThenFindFails(db: Db, id: Uuid)
    requires Delete(db, id).Success?
    ensures FindById(Delete(db, id).value, id) == Failure(ServiceException(AuthorAggregate, NotFoundById(id)))
  {
  }

  /** Writing back the loaded author changes nothing when names are unique. */
  lemma UpdateWithStoredIsNoOp(db: Db, id: Uuid)
    requires Keyed(db) && id in db.authors && UniqueColumns(db)
    ensures Update(db, id, Loaded(db, id)) == Success((db, Loaded(db, id)))
  {
    Reconciler.MergeAuthorNoOp(Loaded(db, id));
    assert db.authors[id := db.authors[id]] == db.authors;
  }

  /** The create-update-delete walk through one author: saved with no books,
      renamed to a name no other author holds, then deleted and no longer found. */
  lemma LifecycleScenario(db: Db, newId: Uuid, name: string, newName: string, bio: string, image: string)
    requires Keyed(db) && UniqueColumns(db) && Linked(db) && newId !in db.authors
    requires forall k :: k in db.authors ==> db.authors[k].name != name && db.authors[k].name != newName
    ensures var saved := Save(db, Author(0, name, bio, Some(image), {}), newId);
            && saved.Success?
            && saved.value.1.books == {}
            && var (db1, a) := saved.value;
               var updated := Update(db1, newId, a.(name := newName));
               && updated.Success?
               && updated.value.1 == Author(newId, newName, bio, Some(image), {})
               && var deleted := Delete(updated.value.0, newId);
                  && deleted.Success?
                  && FindById(deleted.value, newId).Failure?
  {
    var saved := Save(db, Author(0, name, bio, Some(image), {}), newId);
    var (db1, a) := saved.value;
    assert db1.authors[newId] == a;
    SavedAuthorHasNoBooks(db, Author(0, name, bio, Some(image), {}), newId);
    assert Loaded(db1, newId) == a;
    var db2 := Update(db1, newId, a.(name := newName)).value.0;
    assert db2.books == db1.books;
    assert AuthorBooks(db2, newId) == AuthorBooks(db1, newId);
  }
}
