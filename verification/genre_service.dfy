/** `GenreService`: lookups, unconditional creation, the partial update, and
    deletion (the store refuses a genre a book still names).

    A genre's book set is the inverse side of the book's genre relation: every
    lookup reads it back from the book rows and no write of a genre changes it. */
module GenreService {
  import opened Ids
  import opened Wrappers
  import opened Catalog
  import opened Store
  import Text
  import Reconciler

  /** The genre row `id` as the store loads it, its book set read back from the books. */
  function Loaded(db: Db, id: Uuid): Genre
    requires id in db.genres
  {
    db.genres[id].(books := GenreBooks(db, id))
  }

  /** The genre with the given id, or the genre not-found exception. */
  function FindById(db: Db, id: Uuid): (r: Result<Genre, ServiceError>)
    ensures r.Success? <==> id in db.genres
    ensures r.Success? ==> r.value == Loaded(db, id)
    ensures r.Success? ==> forall k :: k in r.value.books <==> k in db.books && id in db.books[k].genres
    ensures r.Failure? ==> r.error == ServiceException(GenreAggregate, NotFoundById(id))
  {
    if id in db.genres then Success(Loaded(db, id))
    else Failure(ServiceException(GenreAggregate, NotFoundById(id)))
  }

  /** The genres whose name contains the text, ignoring case. */
  function FindByName(db: Db, text: string): (r: set<Genre>)
    ensures forall g :: g in r <==> (exists k :: k in db.genres && Loaded(db, k) == g) && Text.ContainsIgnoreCase(g.name, text)
  {
    set k | k in db.genres && Text.ContainsIgnoreCase(db.genres[k].name, text) :: Loaded(db, k)
  }

  /** The search ignores the case of its text: an upper-cased query finds the same genres. */
  lemma FindByNameIgnoresQueryCase(db: Db, text: string)
    ensures FindByName(db, Text.Upper(text)) == FindByName(db, text)
  {
    forall k | k in db.genres {
      Text.QueryCaseIrrelevant(db.genres[k].name, text);
    }
  }

  /** Creation: always succeeds and stores the genre under the fresh id,
      without the book set it came with, which the store does not write. */
  function Save(db: Db, genre: Genre, newId: Uuid): (r: (Db, Genre))
    requires newId !in db.genres
    ensures r.1 == genre.(id := newId)
    ensures r.0 == db.(genres := db.genres[newId := r.1.(books := {})])
    ensures UniqueColumns(db) ==> UniqueColumns(r.0)
    ensures Keyed(db) ==> Keyed(r.0)
    ensures Linked(db) ==> Linked(r.0)
  {
    var saved := genre.(id := newId);
    (db.(genres := db.genres[newId := saved.(books := {})]), saved)
  }

  /** Partial update: the genre not-found exception for an unknown id; otherwise
      the loaded genre merged with the incoming one is written back and
      returned. The merged book set is only in the returned value. */
  function Update(db: Db, id: Uuid, incoming: Genre): (r: Result<(Db, Genre), ServiceError>)
    ensures r.Success? <==> id in db.genres
    ensures r.Failure? ==> r.error == ServiceException(GenreAggregate, NotFoundById(id))
    ensures r.Success? ==> r.value.1 == Reconciler.MergeGenre(Loaded(db, id), incoming)
    ensures r.Success? ==> r.value.1.id == db.genres[id].id
    ensures r.Success? ==> r.value.0 == db.(genres := db.genres[r.value.1.id := r.value.1.(books := db.genres[id].books)])
    ensures r.Success? && UniqueColumns(db) ==> UniqueColumns(r.value.0)
    ensures r.Success? && Keyed(db) ==> r.value.1.id == id && Keyed(r.value.0)
    ensures r.Success? && Linked(db) ==> Linked(r.value.0)
  {
    if id !in db.genres then Failure(ServiceException(GenreAggregate, NotFoundById(id)))
    else
      var merged := Reconciler.MergeGenre(Loaded(db, id), incoming);
      Success((db.(genres := db.genres[merged.id := merged.(books := db.genres[id].books)]), merged))
  }

  /** What an update returns is what a later lookup finds, except for the book
      set, which the lookup reads back unchanged from the books. */
  lemma UpdateDoesNotLinkBooks(db: Db, id: Uuid, incoming: Genre)
    requires Keyed(db) && Update(db, id, incoming).Success?
    ensures var (db', merged) := Update(db, id, incoming).value;
            FindById(db', id) == Success(merged.(books := FindById(db, id).value.books))
  {
  }

  /** Deletion by id, a no-op for an unknown id. The store refuses to delete a
      genre some book still names; otherwise no book names it afterwards. */
  function Delete(db: Db, id: Uuid): (r: Result<Db, ServiceError>)
    ensures id !in db.genres ==> r == Success(db)
    ensures id in db.genres ==> (r.Success? <==> GenreBooks(db, id) == {})
    ensures r.Failure? ==> r.error == ForeignKeyViolation(BookGenre)
    ensures r.Success? ==> r.value == db.(genres := db.genres - {id})
    ensures r.Success? && id in db.genres ==> forall k :: k in r.value.books ==> id !in r.value.books[k].genres
    ensures r.Success? && UniqueColumns(db) ==> UniqueColumns(r.value)
    ensures r.Success? && Keyed(db) ==> Keyed(r.value)
    ensures r.Success? && Linked(db) ==> Linked(r.value)
  {
    if id !in db.genres then Success(db)
    else if GenreBooks(db, id) != {} then Failure(ForeignKeyViolation(BookGenre))
    else Success(db.(genres := db.genres - {id}))
  }

  /** After a successful deletion the genre is no longer found. */
  lemma DeleteThenFindFails(db: Db, id: Uuid)
    requires Delete(db, id).Success?
    ensures FindById(Delete(db, id).value, id) == Failure(ServiceException(GenreAggregate, NotFoundById(id)))
  {
  }

  /** Writing back the loaded genre changes nothing. */
  lemma UpdateWithStoredIsNoOp(db: Db, id: Uuid)
    requires Keyed(db) && id in db.genres
    ensures Update(db, id, Loaded(db, id)) == Success((db, Loaded(db, id)))
  {
    Reconciler.MergeGenreNoOp(Loaded(db, id));
    assert db.genres[id := db.genres[id]] == db.genres;
  }
}
