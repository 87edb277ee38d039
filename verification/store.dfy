/** The abstract store behind the six repositories: one table per aggregate,
    keyed by id. Owned sub-entities live inside their owner's row, so the
    credentials, address and cart tables are views over the owners. The store's
    `save` enforces the unique columns the entities declare, and its `deleteById`
    cascades to what the owner holds with cascade ALL. */
module Store {
  import opened Ids
  import opened Wrappers
  import opened Users
  import opened Catalog
  import opened Carts
  import opened Owners

  datatype Db = Db(
    clients: map<Uuid, Client>,
    sellers: map<Uuid, Seller>,
    books: map<Uuid, Book>,
    authors: map<Uuid, Author>,
    genres: map<Uuid, Genre>,
    publishers: map<Uuid, Publisher>)

  /** The aggregate whose service raised an error. */
  datatype Aggregate = ClientAggregate | SellerAggregate | BookAggregate
                     | AuthorAggregate | GenreAggregate | PublisherAggregate

  /** Why a service raised its own exception. */
  datatype Reason = NotFoundById(id: Uuid) | NotFoundByUsername(username: string) | AlreadyExists

  /** The unique columns the entities declare. */
  datatype UniqueColumn = SellerName | SellerPhone | AuthorName | Username

  /** The foreign keys the store enforces: the book's owning side of its
      author, genre, publisher and seller relations, and the cart-items join
      table that points at books. */
  datatype ForeignKey = BookAuthor | BookGenre | BookPublisher | BookSeller | CartItem

  /** A service's own exception (carrying the lookup key), or one of the store's
      errors no service catches: a unique-constraint violation, a foreign-key
      violation, or a single-row query that matched several rows. */
  datatype ServiceError =
    | ServiceException(aggregate: Aggregate, reason: Reason)
    | ConstraintViolation(column: UniqueColumn)
    | ForeignKeyViolation(key: ForeignKey)
    | NonUniqueResult

  /** Every row is filed under its own id. */
  ghost predicate Keyed(db: Db) {
    && (forall k :: k in db.clients ==> db.clients[k].id == k)
    && (forall k :: k in db.sellers ==> db.sellers[k].id == k)
    && (forall k :: k in db.books ==> db.books[k].id == k)
    && (forall k :: k in db.authors ==> db.authors[k].id == k)
    && (forall k :: k in db.genres ==> db.genres[k].id == k)
    && (forall k :: k in db.publishers ==> db.publishers[k].id == k)
  }

  /** The user table: the credentials of every client and seller. */
  function UserRows(db: Db): (users: set<Credentials>)
    ensures forall k :: k in db.clients ==> db.clients[k].credentials in users
    ensures forall k :: k in db.sellers ==> db.sellers[k].credentials in users
  {
    (set k | k in db.clients :: db.clients[k].credentials)
    + (set k | k in db.sellers :: db.sellers[k].credentials)
  }

  /** The address table: every seller's address and every client's addresses. */
  function AddressRows(db: Db): (rows: set<Address>)
    ensures forall k :: k in db.sellers ==> db.sellers[k].address in rows
    ensures forall k, a :: k in db.clients && a in db.clients[k].addresses ==> a in rows
  {
    (set k | k in db.sellers :: db.sellers[k].address)
    + (set k, a | k in db.clients && a in db.clients[k].addresses :: a)
  }

  /** The cart table: the carts of the clients that have one. */
  function CartRows(db: Db): (rows: set<Cart>)
    ensures forall k :: k in db.clients && db.clients[k].cart.Some? ==> db.clients[k].cart.value in rows
  {
    set k | k in db.clients && db.clients[k].cart.Some? :: db.clients[k].cart.value
  }

  /** No two users with different ids share a username. */
  ghost predicate UsernamesUnique(db: Db) {
    forall u, v :: u in UserRows(db) && v in UserRows(db) && u.id != v.id ==> u.username != v.username
  }

  /** No two sellers share a name or a phone. */
  ghost predicate SellerColumnsUnique(db: Db) {
    forall i, j :: i in db.sellers && j in db.sellers && i != j ==>
      db.sellers[i].name != db.sellers[j].name && db.sellers[i].phone != db.sellers[j].phone
  }

  /** No two authors share a name. */
  ghost predicate AuthorNamesUnique(db: Db) {
    forall i, j :: i in db.authors && j in db.authors && i != j ==> db.authors[i].name != db.authors[j].name
  }

  /** Every unique column the entities declare holds. */
  ghost predicate UniqueColumns(db: Db) {
    UsernamesUnique(db) && SellerColumnsUnique(db) && AuthorNamesUnique(db)
  }

  /** `u` can be written without clashing with the username of another user row. */
  predicate UsernameFree(db: Db, u: Credentials) {
    forall v :: v in UserRows(db) && v.id != u.id ==> v.username != u.username
  }

  /** `s` can be written without clashing with another seller's name or phone. */
  predicate SellerColumnsFree(db: Db, s: Seller) {
    forall k :: k in db.sellers && k != s.id ==> db.sellers[k].name != s.name && db.sellers[k].phone != s.phone
  }

  /** `a` can be written without clashing with another author's name. */
  predicate AuthorNameFree(db: Db, a: Author) {
    forall k :: k in db.authors && k != a.id ==> db.authors[k].name != a.name
  }

  /** The user rows after the client row `id` is replaced by `c`: those of the
      other rows, plus `c`'s. */
  lemma UserRowsAfterClientPut(db: Db, c: Client)
    ensures UserRows(db.(clients := db.clients[c.id := c])) <= UserRows(db) + {c.credentials}
  {
    var db' := db.(clients := db.clients[c.id := c]);
    forall u | u in UserRows(db') ensures u in UserRows(db) + {c.credentials} {
      if k :| k in db'.clients && k != c.id && db'.clients[k].credentials == u {
        assert db.clients[k].credentials == u;
      }
    }
  }

  /** The same for a seller row. */
  lemma UserRowsAfterSellerPut(db: Db, s: Seller)
    ensures UserRows(db.(sellers := db.sellers[s.id := s])) <= UserRows(db) + {s.credentials}
  {
    var db' := db.(sellers := db.sellers[s.id := s]);
    forall u | u in UserRows(db') ensures u in UserRows(db) + {s.credentials} {
      if k :| k in db'.sellers && k != s.id && db'.sellers[k].credentials == u {
        assert db.sellers[k].credentials == u;
      }
    }
  }

  /** Writing a client row: the store rejects a username another user holds. */
  function PutClient(db: Db, c: Client): (r: Result<Db, ServiceError>)
    ensures r.Success? <==> UsernameFree(db, c.credentials)
    ensures r.Failure? ==> r.error == ConstraintViolation(Username)
    ensures r.Success? ==> r.value == db.(clients := db.clients[c.id := c])
    ensures r.Success? && UniqueColumns(db) ==> UniqueColumns(r.value)
    ensures r.Success? && Keyed(db) ==> Keyed(r.value)
  {
    if UsernameFree(db, c.credentials) then
      var db' := db.(clients := db.clients[c.id := c]);
      UserRowsAfterClientPut(db, c);
      Success(db')
    else
      Failure(ConstraintViolation(Username))
  }

  /** Writing a seller row: the store rejects a name or phone another seller
      holds, and a username another user holds. */
  function PutSeller(db: Db, s: Seller): (r: Result<Db, ServiceError>)
    ensures r.Success? <==> SellerColumnsFree(db, s) && UsernameFree(db, s.credentials)
    ensures r.Failure? ==> r.error.ConstraintViolation?
    ensures r.Success? ==> r.value == db.(sellers := db.sellers[s.id := s])
    ensures r.Success? && UniqueColumns(db) ==> UniqueColumns(r.value)
    ensures r.Success? && Keyed(db) ==> Keyed(r.value)
    ensures r.Success? && Linked(db) ==> Linked(r.value)
  {
    if !SellerColumnsFree(db, s) then
      if exists k :: k in db.sellers && k != s.id && db.sellers[k].name == s.name then
        Failure(ConstraintViolation(SellerName))
      else
        Failure(ConstraintViolation(SellerPhone))
    else if !UsernameFree(db, s.credentials) then
      Failure(ConstraintViolation(Username))
    else
      var db' := db.(sellers := db.sellers[s.id := s]);
      UserRowsAfterSellerPut(db, s);
      Success(db')
  }

  /** Writing an author row: the store rejects a name another author holds. */
  function PutAuthor(db: Db, a: Author): (r: Result<Db, ServiceError>)
    ensures r.Success? <==> AuthorNameFree(db, a)
    ensures r.Failure? ==> r.error == ConstraintViolation(AuthorName)
    ensures r.Success? ==> r.value == db.(authors := db.authors[a.id := a])
    ensures r.Success? && UniqueColumns(db) ==> UniqueColumns(r.value)
    ensures r.Success? && Keyed(db) ==> Keyed(r.value)
  {
    if AuthorNameFree(db, a) then Success(db.(authors := db.authors[a.id := a]))
    else Failure(ConstraintViolation(AuthorName))
  }

  /** The single element of a one-element set. */
  function Only<T>(s: set<T>): (x: T)
    requires |s| == 1
    ensures s == {x}
  {
    var x :| x in s;
    assert |s - {x}| == 0;
    x
  }

  /** Removing rows never breaks a unique column: the user rows that remain are
      some of the old ones. */
  lemma UniqueColumnsAfterRemoval(db: Db, clients: set<Uuid>, sellers: set<Uuid>, authors: set<Uuid>,
                                  books: set<Uuid>, genres: set<Uuid>, publishers: set<Uuid>)
    ensures UniqueColumns(db) ==> UniqueColumns(db.(clients := db.clients - clients, sellers := db.sellers - sellers,
                              authors := db.authors - authors, books := db.books - books,
                              genres := db.genres - genres, publishers := db.publishers - publishers))
  {
    var db' := db.(clients := db.clients - clients, sellers := db.sellers - sellers,
                   authors := db.authors - authors, books := db.books - books,
                   genres := db.genres - genres, publishers := db.publishers - publishers);
    assert UserRows(db') <= UserRows(db) by {
      forall u | u in UserRows(db') ensures u in UserRows(db) {
        if k :| k in db'.clients && db'.clients[k].credentials == u {
          assert db.clients[k].credentials == u;
        } else {
          var k :| k in db'.sellers && db'.sellers[k].credentials == u;
          assert db.sellers[k].credentials == u;
        }
      }
    }
  }

  /** Deleting a client row together with some books keeps the unique columns. */
  lemma UniqueColumnsAfterClientDelete(db: Db, id: Uuid, books: set<Uuid>)
    ensures UniqueColumns(db) ==> UniqueColumns(db.(clients := db.clients - {id}, books := db.books - books))
  {
    UniqueColumnsAfterRemoval(db, {id}, {}, {}, books, {}, {});
    assert db.sellers - {} == db.sellers && db.authors - {} == db.authors;
    assert db.genres - {} == db.genres && db.publishers - {} == db.publishers;
  }

  /** Deleting a seller row together with some books keeps the unique columns. */
  lemma UniqueColumnsAfterSellerDelete(db: Db, id: Uuid, books: set<Uuid>)
    ensures UniqueColumns(db) ==> UniqueColumns(db.(sellers := db.sellers - {id}, books := db.books - books))
  {
    UniqueColumnsAfterRemoval(db, {}, {id}, {}, books, {}, {});
    assert db.clients - {} == db.clients && db.authors - {} == db.authors;
    assert db.genres - {} == db.genres && db.publishers - {} == db.publishers;
  }

  /** The ids of every sub-entity some client or seller owns: the ids the
      store's generator has already handed out to credentials, carts and addresses. */
  ghost function OwnedIdsInUse(db: Db): set<Uuid> {
    (set k, x | k in db.clients && x in ClientOwnedIds(db.clients[k]) :: x)
    + (set k, x | k in db.sellers && x in SellerOwnedIds(db.sellers[k]) :: x)
  }

  /** No two owners share a sub-entity: no credentials, cart or address is
      shared between two clients, two sellers, or a client and a seller. */
  ghost predicate OwnedExclusively(db: Db) {
    && (forall i, j :: i in db.clients && j in db.clients && i != j ==>
          ClientOwnedIds(db.clients[i]) !! ClientOwnedIds(db.clients[j]))
    && (forall i, j :: i in db.sellers && j in db.sellers && i != j ==>
          SellerOwnedIds(db.sellers[i]) !! SellerOwnedIds(db.sellers[j]))
    && (forall i, j :: i in db.clients && j in db.sellers ==>
          ClientOwnedIds(db.clients[i]) !! SellerOwnedIds(db.sellers[j]))
  }

  /** A client's sub-entity ids are among the ids in use. */
  lemma ClientIdsInUse(db: Db, k: Uuid)
    requires k in db.clients
    ensures ClientOwnedIds(db.clients[k]) <= OwnedIdsInUse(db)
  {
  }

  /** A seller's sub-entity ids are among the ids in use. */
  lemma SellerIdsInUse(db: Db, k: Uuid)
    requires k in db.sellers
    ensures SellerOwnedIds(db.sellers[k]) <= OwnedIdsInUse(db)
  {
  }

  /** Every user row's id is in use. */
  lemma UserIdInUse(db: Db, u: Credentials)
    requires u in UserRows(db)
    ensures u.id in OwnedIdsInUse(db)
  {
    if k :| k in db.clients && db.clients[k].credentials == u {
      assert u.id in ClientOwnedIds(db.clients[k]);
    } else {
      var k :| k in db.sellers && db.sellers[k].credentials == u;
      assert u.id in SellerOwnedIds(db.sellers[k]);
    }
  }

  /** Credentials under an id no user row has yet are free exactly when no user
      row holds their username. */
  lemma FreshUsernameFree(db: Db, u: Credentials)
    requires u.id !in OwnedIdsInUse(db)
    ensures UsernameFree(db, u) <==> forall v :: v in UserRows(db) ==> v.username != u.username
  {
    forall v | v in UserRows(db) ensures v.id != u.id {
      UserIdInUse(db, v);
    }
  }

  /** The books whose author set names `id`: an author's book set as the store
      loads it, since the author side of the relation is not stored. */
  function AuthorBooks(db: Db, id: Uuid): (ks: set<Uuid>)
    ensures forall k :: k in ks <==> k in db.books && id in db.books[k].authors
  {
    set k | k in db.books && id in db.books[k].authors
  }

  /** The books whose genre set names `id`. */
  function GenreBooks(db: Db, id: Uuid): (ks: set<Uuid>)
    ensures forall k :: k in ks <==> k in db.books && id in db.books[k].genres
  {
    set k | k in db.books && id in db.books[k].genres
  }

  /** The books whose publisher is `id`. */
  function PublisherBooks(db: Db, id: Uuid): (ks: set<Uuid>)
    ensures forall k :: k in ks <==> k in db.books && db.books[k].publisher == Some(id)
  {
    set k | k in db.books && db.books[k].publisher == Some(id)
  }

  /** The books whose seller is `id`. */
  function SellerBooks(db: Db, id: Uuid): (ks: set<Uuid>)
    ensures forall k :: k in ks <==> k in db.books && db.books[k].seller == Some(id)
  {
    set k | k in db.books && db.books[k].seller == Some(id)
  }

  /** The books some client's cart holds: those a row of the cart-items table points at. */
  function CartedBooks(db: Db): set<Uuid> {
    set k, b | k in db.clients && db.clients[k].cart.Some? && b in db.clients[k].cart.value.items :: b
  }

  /** Some client's cart holds book `b`. */
  predicate InSomeCart(db: Db, b: Uuid) {
    b in CartedBooks(db)
  }

  /** Every relation `b` holds names a stored row. */
  predicate LinksExist(db: Db, b: Book) {
    && b.authors <= db.authors.Keys
    && b.genres <= db.genres.Keys
    && (b.publisher.Some? ==> b.publisher.value in db.publishers)
    && (b.seller.Some? ==> b.seller.value in db.sellers)
  }

  /** Referential integrity of the book table: no book names a missing author,
      genre, publisher or seller. */
  ghost predicate Linked(db: Db) {
    forall k :: k in db.books ==> LinksExist(db, db.books[k])
  }

  /** Writing a book row: the store refuses a book naming a missing author,
      genre, publisher or seller. */
  function PutBook(db: Db, b: Book): (r: Result<Db, ServiceError>)
    ensures r.Success? <==> LinksExist(db, b)
    ensures r.Failure? ==> r.error.ForeignKeyViolation?
    ensures r.Success? ==> r.value == db.(books := db.books[b.id := b])
    ensures r.Success? && Keyed(db) ==> Keyed(r.value)
    ensures r.Success? && Linked(db) ==> Linked(r.value)
  {
    if !(b.authors <= db.authors.Keys) then Failure(ForeignKeyViolation(BookAuthor))
    else if !(b.genres <= db.genres.Keys) then Failure(ForeignKeyViolation(BookGenre))
    else if b.publisher.Some? && b.publisher.value !in db.publishers then Failure(ForeignKeyViolation(BookPublisher))
    else if b.seller.Some? && b.seller.value !in db.sellers then Failure(ForeignKeyViolation(BookSeller))
    else Success(db.(books := db.books[b.id := b]))
  }
}
