/** The partial-update merge each service's `update` performs on the loaded
    entity: every listed scalar field is compared with the incoming value and
    overwritten when it differs, every listed relation set gains the incoming
    members (union, never removal), and every other field, the id included,
    stays as persisted. The field lists differ per aggregate. */
module Reconciler {
  import opened Wrappers
  import opened Users
  import opened Catalog
  import opened Owners

  /** Compare-then-set of one field: the persisted value is replaced only when
      the incoming one differs, so the field always ends at the incoming value. */
  function Overwrite<T(==)>(persisted: T, incoming: T): (r: T)
    ensures r == incoming
  {
    if persisted != incoming then incoming else persisted
  }

  /** Compare-then-add of a relation: when the sets differ the incoming members
      are added to the persisted ones; nothing is ever removed. */
  function Grow<T>(persisted: set<T>, incoming: set<T>): (r: set<T>)
    ensures persisted <= r && incoming <= r
    ensures forall x :: x in r ==> x in persisted || x in incoming
  {
    if persisted != incoming then persisted + incoming else persisted
  }

  // ---------------------------------------------------------------- Client

  /** Client merge: name, cpf, email and phone; the credentials' username and
      password in place (never the role); addresses grow. The id, the
      credentials id and the cart are the persisted ones. */
  function MergeClient(p: Client, i: Client): (r: Client)
    ensures r.id == p.id
    ensures r.name == i.name && r.cpf == i.cpf && r.email == i.email && r.phone == i.phone
    ensures r.credentials.id == p.credentials.id && r.credentials.role == p.credentials.role
    ensures r.credentials.username == i.credentials.username
    ensures r.credentials.password == i.credentials.password
    ensures r.addresses == p.addresses + i.addresses
    ensures r.cart == p.cart
  {
    var credentials := p.credentials.(
      username := Overwrite(p.credentials.username, i.credentials.username),
      password := Overwrite(p.credentials.password, i.credentials.password));
    p.(
      name := Overwrite(p.name, i.name),
      cpf := Overwrite(p.cpf, i.cpf),
      email := Overwrite(p.email, i.email),
      phone := Overwrite(p.phone, i.phone),
      credentials := credentials,
      addresses := Grow(p.addresses, i.addresses))
  }

  /** The fields of an incoming client the merge reads. */
  predicate ClientListedAgree(a: Client, b: Client) {
    && a.name == b.name && a.cpf == b.cpf && a.email == b.email && a.phone == b.phone
    && a.credentials.username == b.credentials.username
    && a.credentials.password == b.credentials.password
    && a.addresses == b.addresses
  }

  /** Merging a client into itself changes nothing. */
  lemma MergeClientNoOp(p: Client)
    ensures MergeClient(p, p) == p
  {
  }

  /** Merging the same incoming client twice is the same as once. */
  lemma MergeClientIdempotent(p: Client, i: Client)
    ensures MergeClient(MergeClient(p, i), i) == MergeClient(p, i)
  {
  }

  /** The merge ignores every incoming field outside its list: the incoming id,
      role, credentials id and cart have no effect. */
  lemma MergeClientReadsOnlyListed(p: Client, i: Client, j: Client)
    requires ClientListedAgree(i, j)
    ensures MergeClient(p, i) == MergeClient(p, j)
  {
  }

  // ---------------------------------------------------------------- Seller

  /** Seller merge: name, phone and logo; the credentials' username, password and
      role in place; the address line, city, state and country in place, and the
      complement only when the incoming one is present. The id, creation instant,
      books, the credentials and address ids and the zip are the persisted ones. */
  function MergeSeller(p: Seller, i: Seller): (r: Seller)
    ensures r.id == p.id && r.createdAt == p.createdAt && r.books == p.books
    ensures r.name == i.name && r.phone == i.phone && r.logo == i.logo
    ensures r.credentials == i.credentials.(id := p.credentials.id)
    ensures r.address.id == p.address.id && r.address.zip == p.address.zip
    ensures r.address.addressLine == i.address.addressLine && r.address.city == i.address.city
    ensures r.address.state == i.address.state && r.address.country == i.address.country
    ensures i.address.complement.Some? ==> r.address.complement == i.address.complement
    ensures i.address.complement.None? ==> r.address.complement == p.address.complement
  {
    var credentials := p.credentials.(
      username := Overwrite(p.credentials.username, i.credentials.username),
      password := Overwrite(p.credentials.password, i.credentials.password),
      role := Overwrite(p.credentials.role, i.credentials.role));
    var address := p.address.(
      addressLine := Overwrite(p.address.addressLine, i.address.addressLine),
      city := Overwrite(p.address.city, i.address.city),
      state := Overwrite(p.address.state, i.address.state),
      country := Overwrite(p.address.country, i.address.country),
      complement := if i.address.complement.Some? then Overwrite(p.address.complement, i.address.complement)
                    else p.address.complement);
    p.(
      name := Overwrite(p.name, i.name),
      phone := Overwrite(p.phone, i.phone),
      logo := Overwrite(p.logo, i.logo),
      credentials := credentials,
      address := address)
  }

  /** The fields of an incoming seller the merge reads. */
  predicate SellerListedAgree(a: Seller, b: Seller) {
    && a.name == b.name && a.phone == b.phone && a.logo == b.logo
    && a.credentials.username == b.credentials.username
    && a.credentials.password == b.credentials.password
    && a.credentials.role == b.credentials.role
    && a.address.addressLine == b.address.addressLine && a.address.city == b.address.city
    && a.address.state == b.address.state && a.address.country == b.address.country
    && a.address.complement == b.address.complement
  }

  /** Merging a seller into itself changes nothing. */
  lemma MergeSellerNoOp(p: Seller)
    ensures MergeSeller(p, p) == p
  {
  }

  /** Merging the same incoming seller twice is the same as once. */
  lemma MergeSellerIdempotent(p: Seller, i: Seller)
    ensures MergeSeller(MergeSeller(p, i), i) == MergeSeller(p, i)
  {
  }

  /** The merge ignores the incoming id, creation instant, books, zip and the
      credentials and address ids. */
  lemma MergeSellerReadsOnlyListed(p: Seller, i: Seller, j: Seller)
    requires SellerListedAgree(i, j)
    ensures MergeSeller(p, i) == MergeSeller(p, j)
  {
  }

  /** An incoming seller without an address complement never clears the stored one. */
  lemma MergeSellerKeepsComplementOnNull(p: Seller, i: Seller)
    requires i.address.complement == None
    ensures MergeSeller(p, i).address == i.address.(id := p.address.id, zip := p.address.zip,
                                                    complement := p.address.complement)
  {
  }

  // ---------------------------------------------------------------- Book

  /** Book merge: title, description, published date, isbn, image, stock,
      condition and cover type; authors and genres grow. The id, price, language,
      publisher and seller are the persisted ones. */
  function MergeBook(p: Book, i: Book): (r: Book)
    ensures r.id == p.id && r.price == p.price && r.language == p.language
    ensures r.publisher == p.publisher && r.seller == p.seller
    ensures r.title == i.title && r.description == i.description && r.publishedDate == i.publishedDate
    ensures r.isbn == i.isbn && r.image == i.image && r.stock == i.stock
    ensures r.condition == i.condition && r.coverType == i.coverType
    ensures r.authors == p.authors + i.authors && r.genres == p.genres + i.genres
  {
    p.(
      title := Overwrite(p.title, i.title),
      description := Overwrite(p.description, i.description),
      publishedDate := Overwrite(p.publishedDate, i.publishedDate),
      isbn := Overwrite(p.isbn, i.isbn),
      image := Overwrite(p.image, i.image),
      stock := Overwrite(p.stock, i.stock),
      condition := Overwrite(p.condition, i.condition),
      coverType := Overwrite(p.coverType, i.coverType),
      authors := Grow(p.authors, i.authors),
      genres := Grow(p.genres, i.genres))
  }

  /** The fields of an incoming book the merge reads. */
  predicate BookListedAgree(a: Book, b: Book) {
    && a.title == b.title && a.description == b.description && a.publishedDate == b.publishedDate
    && a.isbn == b.isbn && a.image == b.image && a.stock == b.stock
    && a.condition == b.condition && a.coverType == b.coverType
    && a.authors == b.authors && a.genres == b.genres
  }

  lemma MergeBookNoOp(p: Book)
    ensures MergeBook(p, p) == p
  {
  }

  lemma MergeBookIdempotent(p: Book, i: Book)
    ensures MergeBook(MergeBook(p, i), i) == MergeBook(p, i)
  {
  }

  /** The merge ignores the incoming id, price, language, publisher and seller. */
  lemma MergeBookReadsOnlyListed(p: Book, i: Book, j: Book)
    requires BookListedAgree(i, j)
    ensures MergeBook(p, i) == MergeBook(p, j)
  {
  }

  // ---------------------------------------------------------------- Author

  /** Author merge: name, biography and image; books grow; the id is kept. */
  function MergeAuthor(p: Author, i: Author): (r: Author)
    ensures r.id == p.id
    ensures r.name == i.name && r.biography == i.biography && r.image == i.image
    ensures r.books == p.books + i.books
  {
    p.(
      name := Overwrite(p.name, i.name),
      biography := Overwrite(p.biography, i.biography),
      image := Overwrite(p.image, i.image),
      books := Grow(p.books, i.books))
  }

  lemma MergeAuthorNoOp(p: Author)
    ensures MergeAuthor(p, p) == p
  {
  }

  lemma MergeAuthorIdempotent(p: Author, i: Author)
    ensures MergeAuthor(MergeAuthor(p, i), i) == MergeAuthor(p, i)
  {
  }

  /** Only the incoming id is ignored: the merged author is the incoming one re-keyed. */
  lemma MergeAuthorIsRekeyedUnion(p: Author, i: Author)
    ensures MergeAuthor(p, i) == i.(id := p.id, books := p.books + i.books)
  {
  }

  // ---------------------------------------------------------------- Genre

  /** Genre merge: name and image; books grow; the id is kept. */
  function MergeGenre(p: Genre, i: Genre): (r: Genre)
    ensures r.id == p.id
    ensures r.name == i.name && r.image == i.image
    ensures r.books == p.books + i.books
  {
    p.(
      name := Overwrite(p.name, i.name),
      image := Overwrite(p.image, i.image),
      books := Grow(p.books, i.books))
  }

  lemma MergeGenreNoOp(p: Genre)
    ensures MergeGenre(p, p) == p
  {
  }

  lemma MergeGenreIdempotent(p: Genre, i: Genre)
    ensures MergeGenre(MergeGenre(p, i), i) == MergeGenre(p, i)
  {
  }

  lemma MergeGenreIsRekeyedUnion(p: Genre, i: Genre)
    ensures MergeGenre(p, i) == i.(id := p.id, books := p.books + i.books)
  {
  }

  // ---------------------------------------------------------------- Publisher

  /** Publisher merge: name and logo; books grow; the id is kept. */
  function MergePublisher(p: Publisher, i: Publisher): (r: Publisher)
    ensures r.id == p.id
    ensures r.name == i.name && r.logo == i.logo
    ensures r.books == p.books + i.books
  {
    p.(
      name := Overwrite(p.name, i.name),
      logo := Overwrite(p.logo, i.logo),
      books := Grow(p.books, i.books))
  }

  lemma MergePublisherNoOp(p: Publisher)
    ensures MergePublisher(p, p) == p
  {
  }

  lemma MergePublisherIdempotent(p: Publisher, i: Publisher)
    ensures MergePublisher(MergePublisher(p, i), i) == MergePublisher(p, i)
  {
  }

  lemma MergePublisherIsRekeyedUnion(p: Publisher, i: Publisher)
    ensures MergePublisher(p, i) == i.(id := p.id, books := p.books + i.books)
  {
  }
}
