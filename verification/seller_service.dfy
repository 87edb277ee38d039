/** `SellerService`: the public listing, lookups, creation guarded by a
    case-insensitive name-containment test, the partial update that reaches into
    the seller's credentials and address, and deletion with the cascade to the
    seller's credentials, address and books. */
module SellerService {
  import opened Ids
  import opened Wrappers
  import opened Users
  import opened Catalog
  import opened Owners
  import opened Store
  import opened Paging
  import Text
  import Reconciler

  /** The public listing: the store's page of sellers (`rows` is the store's
      listing of stored sellers, loaded, in its sort order) with each seller
      projected to its public view, and the page metadata of the underlying
      query unchanged. */
  function FindAll(db: Db, rows: seq<Seller>, req: PageRequest): (r: Page<SellerView>)
    requires forall i :: 0 <= i < |rows| ==> rows[i].id in db.sellers && rows[i] == Loaded(db, rows[i].id)
    ensures r.totalElements == |rows|
    ensures forall i :: 0 <= i < |r.content| ==> r.content[i].id in db.sellers
    ensures forall i :: 0 <= i < |r.content| ==> r.content[i].books == SellerBooks(db, r.content[i].id)
    ensures r.number == req.number && r.size == req.size
    ensures |r.content| == |PageOf(rows, req).content|
    ensures forall i :: 0 <= i < |r.content| ==> r.content[i] == ToView(PageOf(rows, req).content[i])
  {
    var page := PageOf(rows, req);
    PageRowsLoaded(db, rows, req);
    Page(seq(|page.content|, i requires 0 <= i < |page.content| => ToView(page.content[i])),
         page.number, page.size, page.totalElements)
  }

  /** Every seller on a page of loaded rows is stored and carries its derived book set. */
  lemma PageRowsLoaded(db: Db, rows: seq<Seller>, req: PageRequest)
    requires forall i :: 0 <= i < |rows| ==> rows[i].id in db.sellers && rows[i] == Loaded(db, rows[i].id)
    ensures var content := PageOf(rows, req).content;
            forall i :: 0 <= i < |content| ==> content[i].id in db.sellers && content[i].books == SellerBooks(db, content[i].id)
  {
    var content := PageOf(rows, req).content;
    forall i | 0 <= i < |content|
      ensures content[i].id in db.sellers && content[i].books == SellerBooks(db, content[i].id)
    {
      var j := Offset(|rows|, req) + i;
      assert content[i] == rows[j];
    }
  }

  /** The seller row `id` as the store loads it, its book set read back from the
      books whose seller it is. */
  function Loaded(db: Db, id: Uuid): Seller
    requires id in db.sellers
  {
    db.sellers[id].(books := SellerBooks(db, id))
  }

  /** The seller with the given id, or the seller not-found exception. */
  function FindById(db: Db, id: Uuid): (r: Result<Seller, ServiceError>)
    ensures r.Success? <==> id in db.sellers
    ensures r.Success? ==> r.value == Loaded(db, id)
    ensures r.Success? ==> forall k :: k in r.value.books <==> k in db.books && db.books[k].seller == Some(id)
    ensures r.Failure? ==> r.error == ServiceException(SellerAggregate, NotFoundById(id))
  {
    if id in db.sellers then Success(Loaded(db, id))
    else Failure(ServiceException(SellerAggregate, NotFoundById(id)))
  }

  /** The sellers whose name contains the text, ignoring case. */
  function FindByName(db: Db, text: string): (r: set<Seller>)
    ensures forall s :: s in r <==> (exists k :: k in db.sellers && Loaded(db, k) == s) && Text.ContainsIgnoreCase(s.name, text)
  {
    set k | k in db.sellers && Text.ContainsIgnoreCase(db.sellers[k].name, text) :: Loaded(db, k)
  }

  /** Some stored seller's name contains `name`, ignoring case. */
  predicate NameClashes(db: Db, name: string) {
    exists k :: k in db.sellers && Text.ContainsIgnoreCase(db.sellers[k].name, name)
  }

  /** The new seller as written: under the fresh ids the store generates for it,
      its credentials and its address. */
  function WithIds(seller: Seller, newId: Uuid, credentialsId: Uuid, addressId: Uuid): Seller {
    seller.(id := newId, credentials := seller.credentials.(id := credentialsId),
            address := seller.address.(id := addressId))
  }

  /** Creation: rejected when the name search for the new seller's name finds
      anyone; otherwise stored under fresh ids together with its credentials and
      address, which the store may still reject for a taken name, phone or
      username. The book set is not written: it is read back from the books. */
  function Save(db: Db, seller: Seller, newId: Uuid, credentialsId: Uuid, addressId: Uuid): (r: Result<(Db, Seller), ServiceError>)
    requires newId !in db.sellers
    requires credentialsId !in OwnedIdsInUse(db) && addressId !in OwnedIdsInUse(db)
    ensures NameClashes(db, seller.name) ==> r == Failure(ServiceException(SellerAggregate, AlreadyExists))
    ensures r.Success? <==> && !NameClashes(db, seller.name)
                            && SellerColumnsFree(db, seller.(id := newId))
                            && forall u :: u in UserRows(db) ==> u.username != seller.credentials.username
    ensures r.Failure? && !NameClashes(db, seller.name) ==> r.error.ConstraintViolation?
    ensures r.Success? ==> r.value.1 == WithIds(seller, newId, credentialsId, addressId)
    ensures r.Success? ==> r.value.1.credentials.id == credentialsId && r.value.1.address.id == addressId
    ensures r.Success? ==> r.value.0 == db.(sellers := db.sellers[newId := r.value.1.(books := {})])
    ensures r.Success? && UniqueColumns(db) ==> UniqueColumns(r.value.0)
    ensures r.Success? && Keyed(db) ==> Keyed(r.value.0)
    ensures r.Success? && Linked(db) ==> Linked(r.value.0)
  {
    if NameClashes(db, seller.name) then Failure(ServiceException(SellerAggregate, AlreadyExists))
    else
      var saved := WithIds(seller, newId, credentialsId, addressId);
      FreshUsernameFree(db, saved.credentials);
      var db' :- PutSeller(db, saved.(books := {}));
      Success((db', saved))
  }

  /** The guard is containment, not equality: a new name that occurs inside a
      stored seller's name, in any mix of letter case, is refused. */
  lemma SaveRefusesContainedName(db: Db, seller: Seller, newId: Uuid, credentialsId: Uuid, addressId: Uuid, k: Uuid, i: int)
    requires newId !in db.sellers && credentialsId !in OwnedIdsInUse(db) && addressId !in OwnedIdsInUse(db)
    requires k in db.sellers
    requires Text.OccursAt(Text.Upper(seller.name), Text.Upper(db.sellers[k].name), i)
    ensures Save(db, seller, newId, credentialsId, addressId) == Failure(ServiceException(SellerAggregate, AlreadyExists))
  {
    Text.OccurrenceIsMatched(db.sellers[k].name, seller.name, i);
  }

  /** In particular a seller with the same name as a stored one is refused. */
  lemma SaveRefusesDuplicateName(db: Db, seller: Seller, newId: Uuid, credentialsId: Uuid, addressId: Uuid, k: Uuid)
    requires newId !in db.sellers && credentialsId !in OwnedIdsInUse(db) && addressId !in OwnedIdsInUse(db)
    requires k in db.sellers && db.sellers[k].name == seller.name
    ensures Save(db, seller, newId, credentialsId, addressId).Failure?
  {
    Text.ColumnMatchesItself(seller.name);
  }

  /** A seller whose username some client or seller already holds is refused,
      whatever the credentials object it arrives with. */
  lemma SaveRefusesTakenUsername(db: Db, seller: Seller, newId: Uuid, credentialsId: Uuid, addressId: Uuid, u: Credentials)
    requires newId !in db.sellers && credentialsId !in OwnedIdsInUse(db) && addressId !in OwnedIdsInUse(db)
    requires u in UserRows(db) && u.username == seller.credentials.username
    ensures Save(db, seller, newId, credentialsId, addressId).Failure?
  {
  }

  /** Partial update: the seller not-found exception for an unknown id;
      otherwise the loaded seller merged with the incoming one is written back
      (the store may still reject a taken name, phone or username). */
  function Update(db: Db, id: Uuid, incoming: Seller): (r: Result<(Db, Seller), ServiceError>)
    ensures id !in db.sellers ==> r == Failure(ServiceException(SellerAggregate, NotFoundById(id)))
    ensures r.Success? <==> id in db.sellers
                            && SellerColumnsFree(db, Reconciler.MergeSeller(Loaded(db, id), incoming))
                            && UsernameFree(db, Reconciler.MergeSeller(Loaded(db, id), incoming).credentials)
    ensures r.Success? ==> r.value.1 == Reconciler.MergeSeller(Loaded(db, id), incoming)
    ensures r.Success? ==> r.value.1.id == db.sellers[id].id
    ensures r.Success? ==> r.value.0 == db.(sellers := db.sellers[r.value.1.id := r.value.1.(books := db.sellers[id].books)])
    ensures r.Success? && UniqueColumns(db) ==> UniqueColumns(r.value.0)
    ensures r.Success? && Keyed(db) ==> r.value.1.id == id && Keyed(r.value.0)
    ensures r.Success? && Linked(db) ==> Linked(r.value.0)
  {
    if id !in db.sellers then Failure(ServiceException(SellerAggregate, NotFoundById(id)))
    else
      var merged := Reconciler.MergeSeller(Loaded(db, id), incoming);
      var db' :- PutSeller(db, merged.(books := db.sellers[id].books));
      Success((db', merged))
  }

  /** What an update returns is exactly what a later lookup finds: the merge
      keeps the loaded book set, and the books are not touched. */
  lemma UpdateThenFindAgrees(db: Db, id: Uuid, incoming: Seller)
    requires Keyed(db) && Update(db, id, incoming).Success?
    ensures var (db', merged) := Update(db, id, incoming).value;
            FindById(db', id) == Success(merged)
  {
  }

  /** Deletion by id, a no-op for an unknown id. The seller row goes with its
      credentials and address, and every book whose seller it is goes too; the
      store refuses the whole deletion when a cart holds one of those books.
      Afterwards no book names the seller. */
  function Delete(db: Db, id: Uuid): (r: Result<Db, ServiceError>)
    ensures id !in db.sellers ==> r == Success(db)
    ensures id in db.sellers ==> (r.Success? <==> forall b :: b in SellerBooks(db, id) ==> !InSomeCart(db, b))
    ensures r.Failure? ==> r.error == ForeignKeyViolation(CartItem)
    ensures r.Success? && id in db.sellers ==>
              r.value == db.(sellers := db.sellers - {id}, books := db.books - SellerBooks(db, id))
    ensures r.Success? && id in db.sellers ==> forall k :: k in r.value.books ==> r.value.books[k].seller != Some(id)
    ensures r.Success? && UniqueColumns(db) ==> UniqueColumns(r.value)
    ensures r.Success? && Keyed(db) ==> Keyed(r.value)
    ensures r.Success? && Linked(db) ==> Linked(r.value)
  {
    if id !in db.sellers then Success(db)
    else
      var gone := SellerBooks(db, id);
      if exists b :: b in gone && InSomeCart(db, b) then Failure(ForeignKeyViolation(CartItem))
      else
        UniqueColumnsAfterSellerDelete(db, id, gone);
        Success(db.(sellers := db.sellers - {id}, books := db.books - gone))
  }

  /** After a successful deletion the seller is no longer found. */
  lemma DeleteThenFindFails(db: Db, id: Uuid)
    requires Delete(db, id).Success?
    ensures FindById(Delete(db, id).value, id) == Failure(ServiceException(SellerAggregate, NotFoundById(id)))
  {
  }

  /** Once seller `id` is gone, no remaining user row has its credentials id. */
  lemma RemainingUsersMissSeller(db: Db, db': Db, id: Uuid)
    requires id in db.sellers && OwnedExclusively(db)
    requires db'.sellers == db.sellers - {id} && db'.clients == db.clients
    ensures forall u :: u in UserRows(db') ==> u.id != db.sellers[id].credentials.id
  {
    var s := db.sellers[id];
    forall u | u in UserRows(db') ensures u.id != s.credentials.id {
      if k :| k in db'.clients && db'.clients[k].credentials == u {
        assert u.id in ClientOwnedIds(db.clients[k]);
      } else {
        var k :| k in db'.sellers && db'.sellers[k].credentials == u;
        assert u.id in SellerOwnedIds(db.sellers[k]);
      }
    }
  }

  /** Once seller `id` is gone, no remaining address row has its address id. */
  lemma RemainingAddressesMissSeller(db: Db, db': Db, id: Uuid)
    requires id in db.sellers && OwnedExclusively(db)
    requires db'.sellers == db.sellers - {id} && db'.clients == db.clients
    ensures forall a :: a in AddressRows(db') ==> a.id != db.sellers[id].address.id
  {
    var s := db.sellers[id];
    forall a | a in AddressRows(db') ensures a.id != s.address.id {
      if k :| k in db'.sellers && db'.sellers[k].address == a {
        assert a.id in SellerOwnedIds(db.sellers[k]);
      } else {
        var k, b :| k in db'.clients && b in db'.clients[k].addresses && b == a;
        assert a.id in ClientOwnedIds(db.clients[k]);
      }
    }
  }

  /** Deleting a seller removes its credentials and its address from the user
      and address tables, when no other owner shares them. */
  lemma {:induction false} DeleteCascadesOwned(db: Db, id: Uuid)
    requires id in db.sellers && OwnedExclusively(db) && Delete(db, id).Success?
    ensures forall u :: u in UserRows(Delete(db, id).value) ==> u.id != db.sellers[id].credentials.id
    ensures forall a :: a in AddressRows(Delete(db, id).value) ==> a.id != db.sellers[id].address.id
  {
    var db' := Delete(db, id).value;
    RemainingUsersMissSeller(db, db', id);
    RemainingAddressesMissSeller(db, db', id);
  }

  /** Adding a seller whose sub-entity ids no owner uses yet keeps every
      owner's sub-entities its own. */
  lemma {:induction false} AddKeepsOwnershipExclusive(db: Db, s: Seller)
    requires s.id !in db.sellers && OwnedExclusively(db)
    requires SellerOwnedIds(s) !! OwnedIdsInUse(db)
    ensures OwnedExclusively(db.(sellers := db.sellers[s.id := s]))
  {
    var db' := db.(sellers := db.sellers[s.id := s]);
    forall i, j | i in db'.sellers && j in db'.sellers && i != j
      ensures SellerOwnedIds(db'.sellers[i]) !! SellerOwnedIds(db'.sellers[j])
    {
      if i == s.id {
        SellerIdsInUse(db, j);
      } else if j == s.id {
        SellerIdsInUse(db, i);
      }
    }
    forall i, j | i in db'.clients && j in db'.sellers
      ensures ClientOwnedIds(db'.clients[i]) !! SellerOwnedIds(db'.sellers[j])
    {
      if j == s.id {
        ClientIdsInUse(db, i);
      }
    }
  }

  /** A save under fresh credentials and address ids keeps every owner's
      sub-entities its own. */
  lemma SaveKeepsOwnershipExclusive(db: Db, seller: Seller, newId: Uuid, credentialsId: Uuid, addressId: Uuid)
    requires newId !in db.sellers && credentialsId !in OwnedIdsInUse(db) && addressId !in OwnedIdsInUse(db)
    requires OwnedExclusively(db) && Save(db, seller, newId, credentialsId, addressId).Success?
    ensures OwnedExclusively(Save(db, seller, newId, credentialsId, addressId).value.0)
  {
    var stored := WithIds(seller, newId, credentialsId, addressId).(books := {});
    assert SellerOwnedIds(stored) == {credentialsId, addressId};
    AddKeepsOwnershipExclusive(db, stored);
  }

  /** An update keeps every owner's sub-entities its own: the merge keeps the
      seller's credentials and address ids. */
  lemma {:induction false} UpdateKeepsOwnershipExclusive(db: Db, id: Uuid, incoming: Seller)
    requires Keyed(db) && OwnedExclusively(db) && Update(db, id, incoming).Success?
    ensures OwnedExclusively(Update(db, id, incoming).value.0)
  {
    var db' := Update(db, id, incoming).value.0;
    var stored := Reconciler.MergeSeller(Loaded(db, id), incoming).(books := db.sellers[id].books);
    assert db' == db.(sellers := db.sellers[id := stored]);
    assert SellerOwnedIds(stored) == SellerOwnedIds(db.sellers[id]);
    assert db'.sellers.Keys == db.sellers.Keys;
    assert forall k :: k in db'.sellers ==> SellerOwnedIds(db'.sellers[k]) == SellerOwnedIds(db.sellers[k]);
  }

  /** Writing back the loaded seller changes nothing when the unique columns
      hold: the update of an unedited seller is a no-op. */
  lemma UpdateWithStoredIsNoOp(db: Db, id: Uuid)
    requires Keyed(db) && id in db.sellers && UniqueColumns(db)
    ensures Update(db, id, Loaded(db, id)) == Success((db, Loaded(db, id)))
  {
    var s := Loaded(db, id);
    Reconciler.MergeSellerNoOp(s);
    assert db.sellers[id].credentials in UserRows(db);
    assert db.sellers[id := db.sellers[id]] == db.sellers;
  }

  /** A successful save keeps seller names unique even ignoring case of the
      new name: no stored name contains it. */
  lemma SaveKeepsNameDistinct(db: Db, seller: Seller, newId: Uuid, credentialsId: Uuid, addressId: Uuid)
    requires newId !in db.sellers && credentialsId !in OwnedIdsInUse(db) && addressId !in OwnedIdsInUse(db)
    requires Save(db, seller, newId, credentialsId, addressId).Success?
    ensures forall k :: k in db.sellers ==> !Text.ContainsIgnoreCase(db.sellers[k].name, seller.name)
    ensures forall k :: k in db.sellers ==> db.sellers[k].name != seller.name
  {
    forall k | k in db.sellers ensures db.sellers[k].name != seller.name {
      Text.ColumnMatchesItself(db.sellers[k].name);
    }
  }

  /** A saved seller's credentials and address are in the user and address
      tables, under the fresh ids. */
  lemma SaveStoresOwned(db: Db, seller: Seller, newId: Uuid, credentialsId: Uuid, addressId: Uuid)
    requires newId !in db.sellers && credentialsId !in OwnedIdsInUse(db) && addressId !in OwnedIdsInUse(db)
    requires Save(db, seller, newId, credentialsId, addressId).Success?
    ensures seller.credentials.(id := credentialsId) in UserRows(Save(db, seller, newId, credentialsId, addressId).value.0)
    ensures seller.address.(id := addressId) in AddressRows(Save(db, seller, newId, credentialsId, addressId).value.0)
  {
    var db' := Save(db, seller, newId, credentialsId, addressId).value.0;
    assert db'.sellers[newId].credentials == seller.credentials.(id := credentialsId);
  }

  /** Editing the name and the address line of a loaded seller: both change,
      while the zip, the creation instant, the books and the credentials stay. */
  lemma EditNameAndAddressLineScenario(db: Db, id: Uuid, name: string, line: string)
    requires id in db.sellers
    requires Update(db, id, Loaded(db, id).(name := name,
                                           address := Loaded(db, id).address.(addressLine := line))).Success?
    ensures var s := Loaded(db, id);
            var u := Update(db, id, s.(name := name, address := s.address.(addressLine := line))).value.1;
            && u.name == name && u.address.addressLine == line
            && u.address.zip == s.address.zip && u.createdAt == s.createdAt && u.books == s.books
            && u.credentials == s.credentials
  {
  }
}
