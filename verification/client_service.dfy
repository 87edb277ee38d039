/** `ClientService`: lookup by id and by username, creation guarded by the cpf,
    the partial update, and deletion with the cascade to the client's
    credentials, addresses, cart and the cart's books. */
module ClientService {
  import opened Ids
  import opened Wrappers
  import opened Users
  import opened Catalog
  import opened Carts
  import opened Owners
  import opened Store
  import Reconciler
  import BookService

  /** A cart as loaded: its items are join-table references, so each item the
      book table holds is read from its current row. */
  function LoadCart(db: Db, cart: Cart): (r: Cart)
    ensures r.id == cart.id && r.items.Keys == cart.items.Keys
    ensures forall k :: k in r.items && k in db.books ==> r.items[k] == db.books[k]
    ensures forall k :: k in r.items && k !in db.books ==> r.items[k] == cart.items[k]
  {
    cart.(items := map k | k in cart.items :: if k in db.books then db.books[k] else cart.items[k])
  }

  /** The stored client with its cart loaded eagerly. */
  function Loaded(db: Db, id: Uuid): (c: Client)
    requires id in db.clients
    ensures c == db.clients[id].(cart := c.cart)
    ensures db.clients[id].cart.None? <==> c.cart.None?
    ensures c.cart.Some? ==> c.cart.value == LoadCart(db, db.clients[id].cart.value)
  {
    var s := db.clients[id];
    if s.cart.Some? then s.(cart := Some(LoadCart(db, s.cart.value))) else s
  }

  /** The client with the given id, its cart items read from the book table,
      or the client not-found exception. */
  function FindById(db: Db, id: Uuid): (r: Result<Client, ServiceError>)
    ensures r.Success? <==> id in db.clients
    ensures r.Success? ==> r.value == Loaded(db, id)
    ensures r.Failure? ==> r.error == ServiceException(ClientAggregate, NotFoundById(id))
  {
    if id in db.clients then Success(Loaded(db, id))
    else Failure(ServiceException(ClientAggregate, NotFoundById(id)))
  }

  /** A cart whose items agree with the book table loads as stored. */
  lemma CurrentCartLoadsAsStored(db: Db, id: Uuid)
    requires id in db.clients
    requires db.clients[id].cart.Some?
    requires forall k :: k in db.clients[id].cart.value.items && k in db.books ==>
               db.clients[id].cart.value.items[k] == db.books[k]
    ensures FindById(db, id) == Success(db.clients[id])
  {
    var cart := db.clients[id].cart.value;
    assert LoadCart(db, cart).items == cart.items;
  }

  /** A book edited after it entered a cart is seen edited in the cart: the
      lookup of the client that holds it returns the book as updated. */
  lemma CartShowsUpdatedBook(db: Db, id: Uuid, bookId: Uuid, incoming: Book)
    requires Keyed(db)
    requires id in db.clients && db.clients[id].cart.Some?
    requires bookId in db.clients[id].cart.value.items
    requires BookService.Update(db, bookId, incoming).Success?
    ensures var (db', b) := BookService.Update(db, bookId, incoming).value;
            && FindById(db', id).Success?
            && FindById(db', id).value.cart.Some?
            && FindById(db', id).value.cart.value.items[bookId] == b
  {
    var (db', b) := BookService.Update(db, bookId, incoming).value;
    assert b.id == bookId && bookId in db'.books && db'.books[bookId] == b;
  }

  /** Ids of the clients whose credentials carry exactly this username. */
  function WithUsername(db: Db, username: string): (ks: set<Uuid>)
    ensures forall k :: k in ks <==> k in db.clients && db.clients[k].credentials.username == username
  {
    set k | k in db.clients && db.clients[k].credentials.username == username
  }

  /** The client whose credentials carry the username (exact match), or the
      client not-found exception. More than one match is the store's
      non-unique-result error, which the service does not catch; unique
      usernames rule it out for clients that own their credentials. */
  function FindByUsername(db: Db, username: string): (r: Result<Client, ServiceError>)
    ensures r.Success? <==> |WithUsername(db, username)| == 1
    ensures r.Success? ==> r.value.credentials.username == username
    ensures r.Success? ==> exists k :: k in db.clients && Loaded(db, k) == r.value
    ensures r == Failure(ServiceException(ClientAggregate, NotFoundByUsername(username))) <==>
            forall k :: k in db.clients ==> db.clients[k].credentials.username != username
  {
    var ks := WithUsername(db, username);
    if |ks| == 0 then Failure(ServiceException(ClientAggregate, NotFoundByUsername(username)))
    else if |ks| == 1 then
      var k := Only(ks);
      Success(Loaded(db, k))
    else Failure(NonUniqueResult)
  }

  /** Some stored client already has this cpf. */
  predicate CpfTaken(db: Db, cpf: string) {
    exists k :: k in db.clients && db.clients[k].cpf == cpf
  }

  /** The new client as written: under the fresh ids the store generates for
      it, its credentials and its cart. */
  function WithIds(client: Client, newId: Uuid, credentialsId: Uuid, cartId: Uuid): Client {
    client.(id := newId, credentials := client.credentials.(id := credentialsId),
            cart := if client.cart.Some? then Some(client.cart.value.(id := cartId)) else None)
  }

  /** Creation: rejected when a client with the same cpf exists; otherwise the
      client is stored under fresh ids together with its credentials, cart and
      addresses, which the store may still reject for a taken username. */
  function Save(db: Db, client: Client, newId: Uuid, credentialsId: Uuid, cartId: Uuid): (r: Result<(Db, Client), ServiceError>)
    requires newId !in db.clients
    requires credentialsId !in OwnedIdsInUse(db) && cartId !in OwnedIdsInUse(db)
    ensures CpfTaken(db, client.cpf) ==> r == Failure(ServiceException(ClientAggregate, AlreadyExists))
    ensures r.Success? <==> && !CpfTaken(db, client.cpf)
                            && forall u :: u in UserRows(db) ==> u.username != client.credentials.username
    ensures r.Failure? && !CpfTaken(db, client.cpf) ==> r.error == ConstraintViolation(Username)
    ensures r.Success? ==> r.value.1 == WithIds(client, newId, credentialsId, cartId)
    ensures r.Success? ==> r.value.1.credentials.id == credentialsId
    ensures r.Success? && client.cart.Some? ==> r.value.1.cart.Some? && r.value.1.cart.value.id == cartId
    ensures r.Success? ==> r.value.0 == db.(clients := db.clients[newId := r.value.1])
    ensures r.Success? && UniqueColumns(db) ==> UniqueColumns(r.value.0)
    ensures r.Success? && Keyed(db) ==> Keyed(r.value.0)
    ensures r.Success? && Linked(db) ==> Linked(r.value.0)
  {
    if CpfTaken(db, client.cpf) then Failure(ServiceException(ClientAggregate, AlreadyExists))
    else
      var saved := WithIds(client, newId, credentialsId, cartId);
      FreshUsernameFree(db, saved.credentials);
      var db' :- PutClient(db, saved);
      Success((db', saved))
  }

  /** A client whose username some client or seller already holds is refused,
      whatever the credentials object it arrives with. */
  lemma SaveRefusesTakenUsername(db: Db, client: Client, newId: Uuid, credentialsId: Uuid, cartId: Uuid, u: Credentials)
    requires newId !in db.clients && credentialsId !in OwnedIdsInUse(db) && cartId !in OwnedIdsInUse(db)
    requires u in UserRows(db) && u.username == client.credentials.username
    ensures Save(db, client, newId, credentialsId, cartId).Failure?
  {
  }

  /** Partial update: the client not-found exception for an unknown id;
      otherwise the loaded client merged with the incoming one is written back
      under the same id (the store may still reject a taken username). The
      merge keeps the cart, whose rows the update does not touch. */
  function Update(db: Db, id: Uuid, incoming: Client): (r: Result<(Db, Client), ServiceError>)
    ensures id !in db.clients ==> r == Failure(ServiceException(ClientAggregate, NotFoundById(id)))
    ensures r.Success? <==> id in db.clients && UsernameFree(db, Reconciler.MergeClient(db.clients[id], incoming).credentials)
    ensures r.Success? ==> r.value.1 == Reconciler.MergeClient(Loaded(db, id), incoming)
    ensures r.Success? ==> r.value.1.id == db.clients[id].id
    ensures r.Success? ==> r.value.0 == db.(clients := db.clients[r.value.1.id := r.value.1.(cart := db.clients[id].cart)])
    ensures r.Success? && UniqueColumns(db) ==> UniqueColumns(r.value.0)
    ensures r.Success? && Keyed(db) ==> r.value.1.id == id && Keyed(r.value.0)
    ensures r.Success? && Linked(db) ==> Linked(r.value.0)
  {
    if id !in db.clients then Failure(ServiceException(ClientAggregate, NotFoundById(id)))
    else
      var merged := Reconciler.MergeClient(db.clients[id], incoming);
      var db' :- PutClient(db, merged);
      Success((db', Reconciler.MergeClient(Loaded(db, id), incoming)))
  }

  /** Ids of the books in a client's cart. */
  function CartBookIds(c: Client): (ks: set<Uuid>)
    ensures c.cart.None? ==> ks == {}
    ensures c.cart.Some? ==> ks == c.cart.value.items.Keys
  {
    if c.cart.Some? then c.cart.value.items.Keys else {}
  }

  /** Deletion by id, a no-op for an unknown id. The client row goes, and with it
      everything it owns with cascade ALL: its credentials, addresses and cart,
      and, through the cart's own cascade on its items, the books in the cart.
      The store refuses the whole deletion when another client's cart holds one
      of those books; otherwise no cart holds them afterwards. */
  function Delete(db: Db, id: Uuid): (r: Result<Db, ServiceError>)
    ensures id !in db.clients ==> r == Success(db)
    ensures id in db.clients ==>
              (r.Success? <==> forall b :: b in CartBookIds(db.clients[id]) ==> !InSomeCart(db.(clients := db.clients - {id}), b))
    ensures r.Failure? ==> r.error == ForeignKeyViolation(CartItem)
    ensures r.Success? && id in db.clients ==>
              r.value == db.(clients := db.clients - {id}, books := db.books - CartBookIds(db.clients[id]))
    ensures r.Success? && id in db.clients ==>
              forall b :: b in CartBookIds(db.clients[id]) ==> b !in r.value.books && !InSomeCart(r.value, b)
    ensures r.Success? && UniqueColumns(db) ==> UniqueColumns(r.value)
    ensures r.Success? && Keyed(db) ==> Keyed(r.value)
    ensures r.Success? && Linked(db) ==> Linked(r.value)
  {
    if id !in db.clients then Success(db)
    else
      var gone := CartBookIds(db.clients[id]);
      var others := db.(clients := db.clients - {id});
      if exists b :: b in gone && InSomeCart(others, b) then Failure(ForeignKeyViolation(CartItem))
      else
        UniqueColumnsAfterClientDelete(db, id, gone);
        Success(db.(clients := db.clients - {id}, books := db.books - gone))
  }

  /** After a successful deletion the client is no longer found. */
  lemma DeleteThenFindFails(db: Db, id: Uuid)
    requires Delete(db, id).Success?
    ensures FindById(Delete(db, id).value, id) == Failure(ServiceException(ClientAggregate, NotFoundById(id)))
  {
  }

  /** Once client `id` is gone, no remaining user row has its credentials id. */
  lemma RemainingUsersMissClient(db: Db, db': Db, id: Uuid)
    requires id in db.clients && OwnedExclusively(db)
    requires db'.clients == db.clients - {id} && db'.sellers == db.sellers
    ensures forall u :: u in UserRows(db') ==> u.id != db.clients[id].credentials.id
  {
    var c := db.clients[id];
    forall u | u in UserRows(db') ensures u.id != c.credentials.id {
      if k :| k in db'.clients && db'.clients[k].credentials == u {
        assert u.id in ClientOwnedIds(db.clients[k]);
      } else {
        var k :| k in db'.sellers && db'.sellers[k].credentials == u;
        assert u.id in SellerOwnedIds(db.sellers[k]);
      }
    }
  }

  /** Once client `id` is gone, none of its addresses is a remaining address row. */
  lemma RemainingAddressesMissClient(db: Db, db': Db, id: Uuid)
    requires id in db.clients && OwnedExclusively(db)
    requires db'.clients == db.clients - {id} && db'.sellers == db.sellers
    ensures forall a :: a in AddressRows(db') ==> a !in db.clients[id].addresses
  {
    var c := db.clients[id];
    forall a | a in AddressRows(db') ensures a !in c.addresses {
      if k :| k in db'.sellers && db'.sellers[k].address == a {
        assert a.id in SellerOwnedIds(db.sellers[k]);
      } else {
        var k, b :| k in db'.clients && b in db'.clients[k].addresses && b == a;
        assert a.id in ClientOwnedIds(db.clients[k]);
      }
    }
  }

  /** Once client `id` is gone, its cart is not a remaining cart row. */
  lemma RemainingCartsMissClient(db: Db, db': Db, id: Uuid)
    requires id in db.clients && OwnedExclusively(db)
    requires db'.clients == db.clients - {id}
    ensures forall x :: x in CartRows(db') ==> Some(x) != db.clients[id].cart
  {
    var c := db.clients[id];
    forall x | x in CartRows(db') ensures Some(x) != c.cart {
      var k :| k in db'.clients && db'.clients[k].cart == Some(x);
      assert x.id in ClientOwnedIds(db.clients[k]);
    }
  }

  /** Deleting a client removes its credentials, its addresses and its cart from
      the user, address and cart tables, when no other owner shares them. */
  lemma {:induction false} DeleteCascadesOwned(db: Db, id: Uuid)
    requires id in db.clients && OwnedExclusively(db) && Delete(db, id).Success?
    ensures forall u :: u in UserRows(Delete(db, id).value) ==> u.id != db.clients[id].credentials.id
    ensures forall a :: a in AddressRows(Delete(db, id).value) ==> a !in db.clients[id].addresses
    ensures forall c :: c in CartRows(Delete(db, id).value) ==> Some(c) != db.clients[id].cart
  {
    var db' := Delete(db, id).value;
    RemainingUsersMissClient(db, db', id);
    RemainingAddressesMissClient(db, db', id);
    RemainingCartsMissClient(db, db', id);
  }

  /** Adding a client whose sub-entity ids no owner uses yet keeps every
      owner's sub-entities its own. */
  lemma {:induction false} AddKeepsOwnershipExclusive(db: Db, c: Client)
    requires c.id !in db.clients && OwnedExclusively(db)
    requires ClientOwnedIds(c) !! OwnedIdsInUse(db)
    ensures OwnedExclusively(db.(clients := db.clients[c.id := c]))
  {
    var db' := db.(clients := db.clients[c.id := c]);
    forall i, j | i in db'.clients && j in db'.clients && i != j
      ensures ClientOwnedIds(db'.clients[i]) !! ClientOwnedIds(db'.clients[j])
    {
      if i == c.id {
        ClientIdsInUse(db, j);
      } else if j == c.id {
        ClientIdsInUse(db, i);
      }
    }
    forall i, j | i in db'.clients && j in db'.sellers
      ensures ClientOwnedIds(db'.clients[i]) !! SellerOwnedIds(db'.sellers[j])
    {
      if i == c.id {
        SellerIdsInUse(db, j);
      }
    }
  }

  /** A save under fresh credentials and cart ids, of a client whose addresses
      are new rows too, keeps every owner's sub-entities its own. */
  lemma SaveKeepsOwnershipExclusive(db: Db, client: Client, newId: Uuid, credentialsId: Uuid, cartId: Uuid)
    requires newId !in db.clients && credentialsId !in OwnedIdsInUse(db) && cartId !in OwnedIdsInUse(db)
    requires forall a :: a in client.addresses ==> a.id !in OwnedIdsInUse(db)
    requires OwnedExclusively(db) && Save(db, client, newId, credentialsId, cartId).Success?
    ensures OwnedExclusively(Save(db, client, newId, credentialsId, cartId).value.0)
  {
    var stored := WithIds(client, newId, credentialsId, cartId);
    forall x | x in ClientOwnedIds(stored) ensures x !in OwnedIdsInUse(db) {
      if x != credentialsId && !(stored.cart.Some? && x == cartId) {
        assert x in (set a | a in stored.addresses :: a.id);
      }
    }
    AddKeepsOwnershipExclusive(db, stored);
  }

  /** An id client `id` owns, or one no owner uses, is not in use once that
      client is set aside. */
  lemma FreeWithoutClient(db: Db, id: Uuid, x: Uuid)
    requires id in db.clients && OwnedExclusively(db)
    requires x in ClientOwnedIds(db.clients[id]) || x !in OwnedIdsInUse(db)
    ensures x !in OwnedIdsInUse(db.(clients := db.clients - {id}))
  {
    var rest := db.(clients := db.clients - {id});
    var mine := x in ClientOwnedIds(db.clients[id]);
    forall k | k in rest.clients ensures x !in ClientOwnedIds(rest.clients[k]) {
      if !mine {
        ClientIdsInUse(db, k);
      }
    }
    forall k | k in rest.sellers ensures x !in SellerOwnedIds(rest.sellers[k]) {
      if !mine {
        SellerIdsInUse(db, k);
      }
    }
  }

  /** Replacing a stored client by one whose sub-entity ids are its own or
      unused keeps every owner's sub-entities its own. */
  lemma {:induction false} ReplaceKeepsOwnershipExclusive(db: Db, c: Client)
    requires c.id in db.clients && OwnedExclusively(db)
    requires forall x :: x in ClientOwnedIds(c) ==> x in ClientOwnedIds(db.clients[c.id]) || x !in OwnedIdsInUse(db)
    ensures OwnedExclusively(db.(clients := db.clients[c.id := c]))
  {
    var rest := db.(clients := db.clients - {c.id});
    forall x | x in ClientOwnedIds(c) ensures x !in OwnedIdsInUse(rest) {
      FreeWithoutClient(db, c.id, x);
    }
    AddKeepsOwnershipExclusive(rest, c);
    assert rest.clients[c.id := c] == db.clients[c.id := c];
  }

  /** An update whose incoming addresses carry ids that this client already
      owns or that no owner uses keeps every owner's sub-entities its own: the
      merge keeps the credentials and the cart, and only adds addresses. */
  lemma {:induction false} UpdateKeepsOwnershipExclusive(db: Db, id: Uuid, incoming: Client)
    requires Keyed(db) && OwnedExclusively(db) && Update(db, id, incoming).Success?
    requires forall a :: a in incoming.addresses ==>
               a.id in ClientOwnedIds(db.clients[id]) || a.id !in OwnedIdsInUse(db)
    ensures OwnedExclusively(Update(db, id, incoming).value.0)
  {
    var c := db.clients[id];
    var stored := Reconciler.MergeClient(c, incoming);
    forall x | x in ClientOwnedIds(stored)
      ensures x in ClientOwnedIds(c) || x !in OwnedIdsInUse(db)
    {
      if x !in ClientOwnedIds(c) {
        var a :| a in stored.addresses && a.id == x;
        assert a in incoming.addresses;
      }
    }
    ReplaceKeepsOwnershipExclusive(db, stored);
  }

  /** Writing back the stored client changes nothing when the usernames are
      unique: the update of an unedited client is a no-op on the store and
      returns the client as a lookup finds it. */
  lemma UpdateWithStoredIsNoOp(db: Db, id: Uuid)
    requires Keyed(db) && id in db.clients && UniqueColumns(db)
    ensures Update(db, id, db.clients[id]) == Success((db, Loaded(db, id)))
    ensures Update(db, id, Loaded(db, id)) == Success((db, Loaded(db, id)))
  {
    var c := db.clients[id];
    Reconciler.MergeClientNoOp(c);
    Reconciler.MergeClientNoOp(Loaded(db, id));
    assert c.credentials in UserRows(db);
    assert Reconciler.MergeClient(c, Loaded(db, id)) == c;
    assert Reconciler.MergeClient(Loaded(db, id), c) == Loaded(db, id);
    assert db.clients[id := c] == db.clients;
  }

  /** Updating twice with the same incoming client leaves the same store as once. */
  lemma UpdateIdempotent(db: Db, id: Uuid, incoming: Client)
    requires Keyed(db)
    requires Update(db, id, incoming).Success?
    ensures var (db1, c1) := Update(db, id, incoming).value;
            Update(db1, id, incoming) == Success((db1, c1))
  {
    var (db1, c1) := Update(db, id, incoming).value;
    var s1 := Reconciler.MergeClient(db.clients[id], incoming);
    Reconciler.MergeClientIdempotent(db.clients[id], incoming);
    Reconciler.MergeClientIdempotent(Loaded(db, id), incoming);
    assert db1.clients[id] == s1;
    assert Loaded(db1, id) == c1;
    assert UsernameFree(db1, s1.credentials) by {
      UserRowsAfterClientPut(db, s1);
    }
    assert db1.clients[id := s1] == db1.clients;
  }

  /** Once a client is saved, a second client with the same cpf is refused and
      the first stays stored. */
  lemma SecondSaveWithSameCpfFails(db: Db, first: Client, second: Client, id1: Uuid, id2: Uuid,
                                   user1: Uuid, cart1: Uuid, user2: Uuid, cart2: Uuid)
    requires id1 !in db.clients && user1 !in OwnedIdsInUse(db) && cart1 !in OwnedIdsInUse(db)
    requires Save(db, first, id1, user1, cart1).Success?
    requires second.cpf == first.cpf
    requires var db1 := Save(db, first, id1, user1, cart1).value.0;
             id2 !in db1.clients && user2 !in OwnedIdsInUse(db1) && cart2 !in OwnedIdsInUse(db1)
    ensures var db1 := Save(db, first, id1, user1, cart1).value.0;
            && Save(db1, second, id2, user2, cart2) == Failure(ServiceException(ClientAggregate, AlreadyExists))
            && db1.clients[id1] == WithIds(first, id1, user1, cart1) && FindById(db1, id1).Success?
  {
    var db1 := Save(db, first, id1, user1, cart1).value.0;
    assert db1.clients[id1].cpf == second.cpf;
  }

  /** The cpf is guarded on creation only: an update may give a client the cpf
      another client already holds. */
  lemma UpdateDoesNotGuardCpf(db: Db, id: Uuid, other: Uuid)
    requires Keyed(db) && UniqueColumns(db) && id in db.clients && other in db.clients && id != other
    ensures var r := Update(db, id, db.clients[id].(cpf := db.clients[other].cpf));
            r.Success? && r.value.0.clients[id].cpf == r.value.0.clients[other].cpf
  {
    var c := db.clients[id];
    assert c.credentials in UserRows(db);
    var merged := Reconciler.MergeClient(c, c.(cpf := db.clients[other].cpf));
    assert merged.credentials == c.credentials;
  }

  /** Editing only the email and the username of a stored client: both change,
      while the password, the role, the name and the address set stay. */
  lemma EditEmailAndUsernameScenario(db: Db, id: Uuid, email: string, username: string)
    requires id in db.clients
    requires Update(db, id, db.clients[id].(email := email,
                                            credentials := db.clients[id].credentials.(username := username))).Success?
    ensures var c := db.clients[id];
            var u := Update(db, id, c.(email := email, credentials := c.credentials.(username := username))).value.1;
            && u.email == email && u.credentials.username == username
            && u.credentials.password == c.credentials.password && u.credentials.role == c.credentials.role
            && u.name == c.name && u.addresses == c.addresses
  {
  }

  /** Addresses only grow: a client with one address updated with a different
      one ends up with both. */
  lemma AddressesGrowScenario(db: Db, id: Uuid, a1: Address, a2: Address)
    requires id in db.clients && db.clients[id].addresses == {a1}
    requires Update(db, id, db.clients[id].(addresses := {a2})).Success?
    ensures Update(db, id, db.clients[id].(addresses := {a2})).value.1.addresses == {a1, a2}
  {
  }
}
