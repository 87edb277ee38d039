/** The two owning aggregates, `SellerEntity` and `ClientEntity`, and the public
    seller record. Their owned sub-entities (cascade ALL in the source) are held
    by value: a seller owns one credentials row, one address and its books; a
    client owns one credentials row, an optional cart and a set of addresses. */
module Owners {
  import opened Ids
  import opened Wrappers
  import opened Users
  import opened Catalog
  import opened Carts

  /** A seller. `name` and `phone` are unique columns; `createdAt` is an instant
      in epoch milliseconds; `books` is the inverse side of `Book.seller`. */
  datatype Seller = Seller(
    id: Uuid,
    name: string,
    phone: string,
    logo: Option<string>,
    createdAt: int,
    credentials: Credentials,
    address: Address,
    books: set<Uuid>)

  /** A client. `cpf` is the national identifier the service keeps unique on creation. */
  datatype Client = Client(
    id: Uuid,
    name: string,
    cpf: string,
    email: string,
    phone: string,
    credentials: Credentials,
    cart: Option<Cart>,
    addresses: set<Address>)

  /** The public view of a seller (`records.Seller`): everything but the credentials
      and the creation instant. */
  datatype SellerView = SellerView(
    id: Uuid,
    name: string,
    phone: string,
    logo: Option<string>,
    address: Address,
    books: set<Uuid>)

  /** Id placeholder for an entity not yet saved (a null id in the source); saving
      assigns the real one. */
  const Unsaved: Uuid := 0

  /** The seller constructor: the given fields, no id yet and no books. */
  function NewSeller(name: string, phone: string, logo: Option<string>, createdAt: int,
                     credentials: Credentials, address: Address): (s: Seller)
    ensures s.id == Unsaved && s.books == {}
    ensures s.name == name && s.phone == phone && s.logo == logo && s.createdAt == createdAt
    ensures s.credentials == credentials && s.address == address
  {
    Seller(Unsaved, name, phone, logo, createdAt, credentials, address, {})
  }

  /** The client constructor: the given fields, no id yet, no cart and no addresses. */
  function NewClient(name: string, cpf: string, email: string, phone: string,
                     credentials: Credentials): (c: Client)
    ensures c.id == Unsaved && c.cart == None && c.addresses == {}
    ensures c.name == name && c.cpf == cpf && c.email == email && c.phone == phone
    ensures c.credentials == credentials
  {
    Client(Unsaved, name, cpf, email, phone, credentials, None, {})
  }

  /** The public projection of a seller. */
  function ToView(s: Seller): (v: SellerView)
    ensures v.id == s.id && v.name == s.name && v.phone == s.phone && v.logo == s.logo
    ensures v.address == s.address && v.books == s.books
  {
    SellerView(s.id, s.name, s.phone, s.logo, s.address, s.books)
  }

  /** Two sellers that agree on everything the view shows, and on their
      credentials and creation instant, are the same seller: the projection
      drops exactly those two fields. */
  lemma ViewDropsOnlyCredentials(a: Seller, b: Seller)
    requires ToView(a) == ToView(b)
    requires a.credentials == b.credentials && a.createdAt == b.createdAt
    ensures a == b
  {
  }

  /** Ids of the sub-entities a seller owns with cascade ALL. */
  function SellerOwnedIds(s: Seller): (ids: set<Uuid>)
    ensures s.credentials.id in ids && s.address.id in ids
  {
    {s.credentials.id, s.address.id}
  }

  /** Ids of the sub-entities a client owns with cascade ALL. */
  function ClientOwnedIds(c: Client): (ids: set<Uuid>)
    ensures c.credentials.id in ids
    ensures c.cart.Some? ==> c.cart.value.id in ids
    ensures forall a :: a in c.addresses ==> a.id in ids
  {
    {c.credentials.id}
    + (if c.cart.Some? then {c.cart.value.id} else {})
    + (set a | a in c.addresses :: a.id)
  }
}
