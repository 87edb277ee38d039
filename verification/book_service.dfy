/** `BookService`: lookups, creation, the partial update of the scalar fields
    and the author and genre relations, and deletion. The book is the owning
    side of its relations, so the store checks them on every write and refuses
    to delete a book a cart still holds. */
module BookService {
  import opened Ids
  import opened Wrappers
  import opened Catalog
  import opened Store
  import Text
  import Reconciler

  /** The book with the given id, or the book not-found exception. */
  function FindById(db: Db, id: Uuid): (r: Result<Book, ServiceError>)
    ensures r.Success? <==> id in db.books
    ensures r.Success? ==> r.value == db.books[id]
    ensures r.Failure? ==> r.error == ServiceException(BookAggregate, NotFoundById(id))
  {
    if id in db.books then Success(db.books[id])
    else Failure(ServiceException(BookAggregate, NotFoundById(id)))
  }

  /** The books whose title contains the text, ignoring case. */
  function FindByTitle(db: Db, text: string): (r: set<Book>)
    ensures forall b :: b in r <==> (exists k :: k in db.books && db.books[k] == b) && Text.ContainsIgnoreCase(b.title, text)
  {
    set k | k in db.books && Text.ContainsIgnoreCase(db.books[k].title, text) :: db.books[k]
  }

  /** Creation: the service checks nothing (no uniqueness, the isbn included);
      the store refuses a book naming a missing author, genre, publisher or
      seller. Otherwise the book is stored under the fresh id. */
  function Save(db: Db, book: Book, newId: Uuid): (r: Result<(Db, Book), ServiceError>)
    requires newId !in db.books
    ensures r.Success? <==> LinksExist(db, book)
    ensures r.Failure? ==> r.error.ForeignKeyViolation?
    ensures r.Success? ==> r.value.1 == book.(id := newId)
    ensures r.Success? ==> r.value.0 == db.(books := db.books[newId := r.value.1])
    ensures r.Success? && UniqueColumns(db) ==> UniqueColumns(r.value.0)
    ensures r.Success? && Keyed(db) ==> Keyed(r.value.0)
    ensures r.Success? && Linked(db) ==> Linked(r.value.0)
  {
    var saved := book.(id := newId);
    var db' :- PutBook(db, saved);
    Success((db', saved))
  }

  /** Partial update: the book not-found exception for an unknown id; otherwise
      the persisted book merged with the incoming one is written back, which
      the store refuses when the merged relations name a missing row. */
  function Update(db: Db, id: Uuid, incoming: Book): (r: Result<(Db, Book), ServiceError>)
    ensures id !in db.books ==> r == Failure(ServiceException(BookAggregate, NotFoundById(id)))
    ensures r.Success? <==> id in db.books && LinksExist(db, Reconciler.MergeBook(db.books[id], incoming))
    ensures id in db.books && r.Failure? ==> r.error.ForeignKeyViolation?
    ensures r.Success? ==> r.value.1 == Reconciler.MergeBook(db.books[id], incoming)
    ensures r.Success? ==> r.value.1.id == db.books[id].id
    ensures r.Success? ==> r.value.0 == db.(books := db.books[r.value.1.id := r.value.1])
    ensures r.Success? && UniqueColumns(db) ==> UniqueColumns(r.value.0)
    ensures r.Success? && Keyed(db) ==> r.value.1.id == id && Keyed(r.value.0)
    ensures r.Success? && Linked(db) ==> Linked(r.value.0)
  {
    if id !in db.books then Failure(ServiceException(BookAggregate, NotFoundById(id)))
    else
      var merged := Reconciler.MergeBook(db.books[id], incoming);
      var db' :- PutBook(db, merged);
      Success((db', merged))
  }

  /** Deletion by id, a no-op for an unknown id. The book owns its author and
      genre links, which go with it; the store refuses to delete a book some
      cart holds, and otherwise no cart holds it afterwards. */
  function Delete(db: Db, id: Uuid): (r: Result<Db, ServiceError>)
    ensures id !in db.books ==> r == Success(db)
    ensures id in db.books ==> (r.Success? <==> !InSomeCart(db, id))
    ensures r.Failure? ==> r.error == ForeignKeyViolation(CartItem)
    ensures r.Success? ==> r.value == db.(books := db.books - {id})
    ensures r.Success? && id in db.books ==> !InSomeCart(r.value, id)
    ensures r.Success? && UniqueColumns(db) ==> UniqueColumns(r.value)
    ensures r.Success? && Keyed(db) ==> Keyed(r.value)
    ensures r.Success? && Linked(db) ==> Linked(r.value)
  {
    if id !in db.books then Success(db)
    else if InSomeCart(db, id) then Failure(ForeignKeyViolation(CartItem))
    else Success(db.(books := db.books - {id}))
  }

  /** After a successful deletion the book is no longer found. */
  lemma DeleteThenFindFails(db: Db, id: Uuid)
    requires Delete(db, id).Success?
    ensures FindById(Delete(db, id).value, id) == Failure(ServiceException(BookAggregate, NotFoundById(id)))
  {
  }

  /** Updating never changes a stored book's price, language, publisher or
      seller, and never drops one of its authors or genres. */
  lemma UpdateKeepsPriceAndRelations(db: Db, id: Uuid, incoming: Book)
    requires Update(db, id, incoming).Success?
    ensures var b := Update(db, id, incoming).value.1;
            && b.price == db.books[id].price && b.language == db.books[id].language
            && b.publisher == db.books[id].publisher && b.seller == db.books[id].seller
            && db.books[id].authors <= b.authors && db.books[id].genres <= b.genres
  {
  }

  /** Adding one new author to a one-author book, with only the title edited,
      gives a book with two authors and the stored isbn and stock. */
  lemma AddAuthorScenario(db: Db, id: Uuid, first: Uuid, second: Uuid, title: string)
    requires Keyed(db) && Linked(db) && id in db.books && db.books[id].authors == {first} && first != second
    requires second in db.authors
    ensures var incoming := db.books[id].(title := title, authors := {first, second});
            var r := Update(db, id, incoming);
            r.Success? && |r.value.1.authors| == 2 && r.value.1.title == title
            && r.value.1.isbn == db.books[id].isbn && r.value.1.stock == db.books[id].stock
  {
    var incoming := db.books[id].(title := title, authors := {first, second});
    assert {first} + {first, second} == {first, second};
    assert LinksExist(db, db.books[id]);
  }

  /** Writing back the stored book changes nothing while its links hold. */
  lemma UpdateWithStoredIsNoOp(db: Db, id: Uuid)
    requires Keyed(db) && Linked(db) && id in db.books
    ensures Update(db, id, db.books[id]) == Success((db, db.books[id]))
  {
    Reconciler.MergeBookNoOp(db.books[id]);
    assert LinksExist(db, db.books[id]);
    assert db.books[id := db.books[id]] == db.books;
  }
}
