/** `PublisherService`: lookups, unconditional creation, the partial update, and
    deletion (the store refuses a publisher a book still names; the publisher
    declares no cascade on its books).

    A publisher's book set is the inverse side of the book's publisher reference: every
    lookup reads it back from the book rows and no write of a publisher changes it. */
module PublisherService {
  import opened Ids
  import opened Wrappers
  import opened Catalog
  import opened Store
  import Text
  import Reconciler

  /** The publisher row `id` as the store loads it, its book set read back from the books. */
  function Loaded(db: Db, id: Uuid): Publisher
    requires id in db.publishers
  {
    db.publishers[id].(books := PublisherBooks(db, id))
  }

  /** The publisher with the given id, or the publisher not-found exception. */
  function FindById(db: Db, id: Uuid): (r: Result<Publisher, ServiceError>)
    ensures r.Success? <==> id in db.publishers
    ensures r.Success? ==> r.value == Loaded(db, id)
    ensures r.Success? ==> forall k :: k in r.value.books <==> k in db.books && db.books[k].publisher == Some(id)
    ensures r.Failure? ==> r.error == ServiceException(PublisherAggregate, NotFoundById(id))
  {
    if id in db.publishers then Success(Loaded(db, id))
    else Failure(ServiceException(PublisherAggregate, NotFoundById(id)))
  }

  /** The publishers whose name contains the text, ignoring case. */
  function FindByName(db: Db, text: string): (r: set<Publisher>)
    ensures forall p :: p in r <==> (exists k :: k in db.publishers && Loaded(db, k) == p) && Text.ContainsIgnoreCase(p.name, text)
  {
    set k | k in db.publishers && Text.ContainsIgnoreCase(db.publishers[k].name, text) :: Loaded(db, k)
  }

  /** The search ignores the case of its text: an upper-cased query finds the same
      publishers. */
  lemma FindByNameIgnoresQueryCase(db: Db, text: string)
    ensures FindByName(db, Text.Upper(text)) == FindByName(db, text)
  {
    forall k | k in db.publishers {
      Text.QueryCaseIrrelevant(db.publishers[k].name, text);
    }
  }

  /** Creation: always succeeds and stores the publisher under the fresh id,
      without the book set it came with, which the store does not write. */
  function Save(db: Db, publisher: Publisher, newId: Uuid): (r: (Db, Publisher))
    requires newId !in db.publishers
    ensures r.1 == publisher.(id := newId)
    ensures r.0 == db.(publishers := db.publishers[newId := r.1.(books := {})])
    ensures UniqueColumns(db) ==> UniqueColumns(r.0)
    ensures Keyed(db) ==> Keyed(r.0)
    ensures Linked(db) ==> Linked(r.0)
  {
    var saved := publisher.(id := newId);
    (db.(publishers := db.publishers[newId := saved.(books := {})]), saved)
  }

  /** Partial update: the publisher not-found exception for an unknown id; otherwise
      the loaded publisher merged with the incoming one is written back and
      returned. The merged book set is only in the returned value. */
  function Update(db: Db, id: Uuid, incoming: Publisher): (r: Result<(Db, Publisher), ServiceError>)
    ensures r.Success? <==> id in db.publishers
    ensures r.Failure? ==> r.error == ServiceException(PublisherAggregate, NotFoundById(id))
    ensures r.Success? ==> r.value.1 == Reconciler.MergePublisher(Loaded(db, id), incoming)
    ensures r.Success? ==> r.value.1.id == db.publishers[id].id
    ensures r.Success? ==> r.value.0 == db.(publishers := db.publishers[r.value.1.id := r.value.1.(books := db.publishers[id].books)])
    ensures r.Success? && UniqueColumns(db) ==> UniqueColumns(r.value.0)
    ensures r.Success? && Keyed(db) ==> r.value.1.id == id && Keyed(r.value.0)
    ensures r.Success? && Linked(db) ==> Linked(r.value.0)
  {
    if id !in db.publishers then Failure(ServiceException(PublisherAggregate, NotFoundById(id)))
    else
      var merged := Reconciler.MergePublisher(Loaded(db, id), incoming);
      Success((db.(publishers := db.publishers[merged.id := merged.(books := db.publishers[id].books)]), merged))
  }

  /** What an update returns is what a later lookup finds, except for the book
      set, which the lookup reads back unchanged from the books. */
  lemma UpdateDoesNotLinkBooks(db: Db, id: Uuid, incoming: Publisher)
    requires Keyed(db) && Update(db, id, incoming).Success?
    ensures var (db', merged) := Update(db, id, incoming).value;
            FindById(db', id) == Success(merged.(books := FindById(db, id).value.books))
  {
  }

  /** Deletion by id, a no-op for an unknown id. The store refuses to delete a
      publisher some book still names; otherwise no book names it afterwards. */
  function Delete(db: Db, id: Uuid): (r: Result<Db, ServiceError>)
    ensures id !in db.publishers ==> r == Success(db)
    ensures id in db.publishers ==> (r.Success? <==> PublisherBooks(db, id) == {})
    ensures r.Failure? ==> r.error == ForeignKeyViolation(BookPublisher)
    ensures r.Success? ==> r.value == db.(publishers := db.publishers - {id})
    ensures r.Success? ==> r.value.books == db.books
    ensures r.Success? && id in db.publishers ==> forall k :: k in r.value.books ==> r.value.books[k].publisher != Some(id)
    ensures r.Success? && UniqueColumns(db) ==> UniqueColumns(r.value)
    ensures r.Success? && Keyed(db) ==> Keyed(r.value)
    ensures r.Success? && Linked(db) ==> Linked(r.value)
  {
    if id !in db.publishers then Success(db)
    else if PublisherBooks(db, id) != {} then Failure(ForeignKeyViolation(BookPublisher))
    else Success(db.(publishers := db.publishers - {id}))
  }

  /** After a successful deletion the publisher is no longer found. */
  lemma DeleteThenFindFails(db: Db, id: Uuid)
    requires Delete(db, id).Success?
    ensures FindById(Delete(db, id).value, id) == Failure(ServiceException(PublisherAggregate, NotFoundById(id)))
  {
  }

  /** Writing back the loaded publisher changes nothing. */
  lemma UpdateWithStoredIsNoOp(db: Db, id: Uuid)
    requires Keyed(db) && id in db.publishers
    ensures Update(db, id, Loaded(db, id)) == Success((db, Loaded(db, id)))
  {
    Reconciler.MergePublisherNoOp(Loaded(db, id));
    assert db.publishers[id := db.publishers[id]] == db.publishers;
  }
}
