# Book marketplace: reconciliation and cascade model

A Dafny model of the service core of the book-marketplace backend. The backend has six aggregates: clients, sellers, books, authors, genres and publishers. For each one a service offers a lookup by id, a search by name (or by title, or by username), creation, a partial update and deletion.

What the model covers:

- **The partial update.** A service reads the persisted row. It overwrites each listed scalar field whose value differs from the incoming one. It grows each collection by set union and never shrinks it. The update reaches into owned sub-entities: a client's credentials, a seller's credentials and address.
- **The creation guards.**
  - A client whose cpf is already stored is refused.
  - A seller whose name is found by a case-insensitive "name contains" search is refused.
  - The store's unique columns apply: seller name and phone, author name, username.
- **Deletion, its cascades and the foreign keys.**
  - Deleting a client takes its credentials, cart and addresses, and the books in its cart.
  - Deleting a seller takes its credentials, address and books.
  - The store refuses a deletion that would leave a reference dangling: an author, genre or publisher some book still names, a book some cart still holds, or a seller or client whose cascade would delete such a book.
- **The cart.** Its items are a set of books identified by id. Its total is the sum of their prices.
- **The role-to-authority table.**
- **The public seller view** and the paging of the seller listing.

The store is one immutable value `Store.Db` with one map per table, keyed by id.

- Owned sub-entities are embedded in their owner. The user, address and cart tables are views over the owners: `UserRows`, `AddressRows` and `CartRows`.
- Entities whose equality is by id (`@EqualsAndHashCode(of = "id")`) appear in relations as sets of ids, and the cart holds its books in a map keyed by id. Equality of those entities is therefore id equality wherever the model compares them.
- A stored cart keys its items by book id. The client lookups read each item back from the book table, as the eager join-table load does. So a book edited after it entered a cart shows up edited in the cart (`ClientService.CartShowsUpdatedBook`).
- The book is the owning side of its relations to authors, genres, a publisher and a seller. The book sets of an author, genre, publisher or seller are the inverse side: the store keeps no column for them. Every lookup reads them back from the book rows (`Store.AuthorBooks` and its siblings), and no write of an author, genre, publisher or seller changes them.
- `AddressEntity` has structural equality, so a client's addresses are a set of address values.
- A service call maps a store to a `Result` of a new store and the saved entity. On failure it returns one of these errors:
  - the service's own exception: not found by id, not found by username, or already exists;
  - the store's unique-constraint violation, naming the column;
  - the store's foreign-key violation, naming the key;
  - the store's non-unique-result error.

Three store invariants are carried through every operation:

- `Keyed`: every row sits under its own id.
- `UniqueColumns`: the declared unique columns hold.
- `Linked`: every author, genre, publisher and seller a book names is stored.

Every `Save`, `Update` and `Delete` is proved to preserve all three. The services' `Save` and `Update` of a client or a seller also keep `Store.OwnedExclusively`: no two owners share credentials, a cart or an address. For a client update this holds when the incoming addresses carry ids the client already owns or no owner uses.

Each module follows the repository's layout:

| module | what it models |
|---|---|
| `Wrappers`, `Ids` | option and result types; ids |
| `Text` | case-insensitive containment |
| `Users` | credentials and authorities |
| `Catalog` | books, authors, genres, publishers, addresses |
| `Carts` | the cart |
| `Owners` | clients, sellers, the public seller view |
| `Store` | tables, unique columns and foreign keys |
| `Paging` | pages of a listing |
| `Reconciler` | the field-by-field merges |
| `ClientService` … `PublisherService` | one module per service |

## Model

Path prefixes: `src/main/java/org/hygorp/bookmarketplace/` for the services and entities, `src/test/java/org/hygorp/bookmarketplace/` for the tests.

| member | source | states |
|---|---|---|
| Text.ContainsMeansOccurs | src/main/java/org/hygorp/bookmarketplace/repositories/SellerRepository.java:18-19 | the compiled containment test answers true exactly when the text occurs in the column at some position (both directions) |
| Text.ContainsIgnoreCase | src/main/java/org/hygorp/bookmarketplace/repositories/SellerRepository.java:18-19 | the case-insensitive "contains" holds exactly when the upper-cased text occurs at some position of the upper-cased column |
| Text.EmptyTextMatchesAll | src/main/java/org/hygorp/bookmarketplace/repositories/AuthorRepository.java:18-19 | an empty search text matches every column |
| Text.ColumnMatchesItself | src/main/java/org/hygorp/bookmarketplace/repositories/SellerRepository.java:18-19 | every column matches a search for itself |
| Text.QueryCaseIrrelevant | src/main/java/org/hygorp/bookmarketplace/repositories/GenreRepository.java:18-19 | the letter case of the search text does not change the answer |
| Text.OccurrenceIsMatched | src/main/java/org/hygorp/bookmarketplace/repositories/SellerRepository.java:18-19 | a text whose upper-cased form occurs at some position of the upper-cased column is matched, so the letter case of either side does not matter |
| Text.ExactOccurrenceIsMatched | src/main/java/org/hygorp/bookmarketplace/repositories/SellerRepository.java:18-19 | in particular a text occurring in the column exactly, case included, is matched |
| Users.Authorities | src/main/java/org/hygorp/bookmarketplace/entities/UserEntity.java:39-47 | at most one authority; "client", "seller" and "admin" each map to their own ROLE_ token and only they do; any other role yields none |
| Users.AuthoritiesInjective | src/main/java/org/hygorp/bookmarketplace/entities/UserEntity.java:39-47 | two roles with the same non-empty authority list are the same role |
| Users.AccountAlwaysUsable | src/main/java/org/hygorp/bookmarketplace/entities/UserEntity.java:53-72 | every account is non-expired, non-locked, has non-expired credentials and is enabled |
| Carts.NewCart | src/main/java/org/hygorp/bookmarketplace/entities/CartEntity.java:27-33 | a new cart holds no items and totals 0 |
| Carts.Sum | src/main/java/org/hygorp/bookmarketplace/entities/CartEntity.java:35-40 | the total of an empty cart is 0 and the total is at least every item's price |
| Carts.SumWithout | src/main/java/org/hygorp/bookmarketplace/entities/CartEntity.java:39 | the total is any one item's price plus the total of the rest, whichever item is picked |
| Carts.TotalValue | src/main/java/org/hygorp/bookmarketplace/entities/CartEntity.java:35-40 | the loop over the items computes the sum of their prices, 0 for an empty cart |
| Carts.AddItem | src/main/java/org/hygorp/bookmarketplace/entities/CartEntity.java:42-44 | the item's id joins the cart; a book already present (by id) leaves the cart unchanged; other entries are kept |
| Carts.RemoveItem | src/main/java/org/hygorp/bookmarketplace/entities/CartEntity.java:46-48 | the item's id leaves the cart, the others keep their books; removing an absent book is a no-op |
| Carts.Clear | src/main/java/org/hygorp/bookmarketplace/entities/CartEntity.java:50-52 | the cart keeps its id and holds nothing, total 0 |
| Carts.AddItemIdempotent | src/main/java/org/hygorp/bookmarketplace/entities/CartEntity.java:42-44 | adding the same book twice is adding it once |
| Carts.SameIdCountsOnce | src/main/java/org/hygorp/bookmarketplace/entities/BookEntity.java:22 | two books with the same id are one book to the cart: adding the second after the first changes neither the cart nor its total |
| Carts.AddItemTotal | src/main/java/org/hygorp/bookmarketplace/entities/CartEntity.java:35-44 | adding a new book raises the total by its price; re-adding a present one leaves the total |
| Carts.RemoveItemTotal | src/main/java/org/hygorp/bookmarketplace/entities/CartEntity.java:35-48 | removing a present book lowers the total by that book's price |
| Carts.RemoveAfterAdd | src/main/java/org/hygorp/bookmarketplace/entities/CartEntity.java:42-48 | removing a book just added to a cart without it restores the cart |
| Carts.SingleBookTotal | src/test/java/org/hygorp/bookmarketplace/repositories/CartRepositoryTest.java:64-88 | a cart holding one book priced 44.90 totals 44.90 |
| Owners.NewSeller | src/main/java/org/hygorp/bookmarketplace/entities/SellerEntity.java:52-59 | a new seller has no id yet and no books, and carries the given fields |
| Owners.NewClient | src/main/java/org/hygorp/bookmarketplace/entities/ClientEntity.java:51-56 | a new client has no id yet, no cart and no addresses, and carries the given fields |
| Owners.ToView | src/main/java/org/hygorp/bookmarketplace/records/Seller.java:9 | the public view carries id, name, phone, logo, address and books unchanged |
| Owners.ViewDropsOnlyCredentials | src/main/java/org/hygorp/bookmarketplace/records/Seller.java:9 | two sellers with equal views, credentials and creation instants are equal |
| Owners.SellerOwnedIds | src/main/java/org/hygorp/bookmarketplace/entities/SellerEntity.java:41-46 | a seller owns its credentials and its address |
| Owners.ClientOwnedIds | src/main/java/org/hygorp/bookmarketplace/entities/ClientEntity.java:36-49 | a client owns its credentials, its cart and each of its addresses |
| Paging.PageOf | src/main/java/org/hygorp/bookmarketplace/repositories/SellerRepository.java:15-16 | a page reports the total count and the requested number and size; it holds at most `size` consecutive rows from the clamped offset, and is full whenever enough rows remain |
| Store.UserRows | src/main/java/org/hygorp/bookmarketplace/entities/ClientEntity.java:36-37 | every client's and seller's credentials are rows of the user table |
| Store.AddressRows | src/main/java/org/hygorp/bookmarketplace/entities/SellerEntity.java:44-46 | every seller's address and every client's addresses are rows of the address table |
| Store.CartRows | src/main/java/org/hygorp/bookmarketplace/entities/ClientEntity.java:39-41 | every client's cart is a row of the cart table |
| Store.PutClient | src/main/java/org/hygorp/bookmarketplace/entities/UserEntity.java:30-31 | writing a client succeeds exactly when no other user row holds its username; otherwise a username constraint violation; success keeps the unique columns and the keying |
| Store.PutSeller | src/main/java/org/hygorp/bookmarketplace/entities/SellerEntity.java:29-33 | writing a seller succeeds exactly when its name, phone and username are free; otherwise a constraint violation; success keeps the unique columns, the keying and the book links |
| Store.PutAuthor | src/main/java/org/hygorp/bookmarketplace/entities/AuthorEntity.java:28-29 | writing an author succeeds exactly when no other author has its name; otherwise an author-name constraint violation; success keeps the keying |
| Store.PutBook | src/main/java/org/hygorp/bookmarketplace/entities/BookEntity.java:57-73 | writing a book succeeds exactly when every author, genre, publisher and seller it names is stored; otherwise a foreign-key violation; success keeps the keying and the book links |
| Store.AuthorBooks | src/main/java/org/hygorp/bookmarketplace/entities/AuthorEntity.java:37-39 | an author's book set is exactly the stored books whose author set names it |
| Store.GenreBooks | src/main/java/org/hygorp/bookmarketplace/entities/GenreEntity.java:33-35 | a genre's book set is exactly the stored books whose genre set names it |
| Store.PublisherBooks | src/main/java/org/hygorp/bookmarketplace/entities/PublisherEntity.java:34-36 | a publisher's book set is exactly the stored books whose publisher it is |
| Store.SellerBooks | src/main/java/org/hygorp/bookmarketplace/entities/SellerEntity.java:48-50 | a seller's book set is exactly the stored books whose seller it is |
| Store.UniqueColumnsAfterRemoval | src/main/java/org/hygorp/bookmarketplace/entities/SellerEntity.java:29-33 | deleting rows from any tables never breaks a unique column |
| Reconciler.Overwrite | src/main/java/org/hygorp/bookmarketplace/services/ClientService.java:53-55 | compare-then-set leaves the incoming value whether or not it differed |
| Reconciler.Grow | src/main/java/org/hygorp/bookmarketplace/services/ClientService.java:77-79 | the merged collection contains both the persisted and the incoming one and nothing else |
| Reconciler.MergeClient | src/main/java/org/hygorp/bookmarketplace/services/ClientService.java:53-79 | name, cpf, email, phone, username and password come from the incoming client; id, role, credentials id and cart stay; addresses are the union |
| Reconciler.MergeClientNoOp | src/main/java/org/hygorp/bookmarketplace/services/ClientService.java:53-79 | merging a client with itself changes nothing |
| Reconciler.MergeClientIdempotent | src/main/java/org/hygorp/bookmarketplace/services/ClientService.java:53-79 | merging the same incoming client twice is merging it once |
| Reconciler.MergeClientReadsOnlyListed | src/main/java/org/hygorp/bookmarketplace/services/ClientService.java:53-79 | two incoming clients that agree on the listed fields give the same merge |
| Reconciler.MergeSeller | src/main/java/org/hygorp/bookmarketplace/services/SellerService.java:67-111 | name, phone, logo, username, password, role, address line, city, state and country come from the incoming seller; the complement only when given; id, creation instant, books, credentials id, address id and zip stay |
| Reconciler.MergeSellerNoOp | src/main/java/org/hygorp/bookmarketplace/services/SellerService.java:67-111 | merging a seller with itself changes nothing |
| Reconciler.MergeSellerIdempotent | src/main/java/org/hygorp/bookmarketplace/services/SellerService.java:67-111 | merging the same incoming seller twice is merging it once |
| Reconciler.MergeSellerReadsOnlyListed | src/main/java/org/hygorp/bookmarketplace/services/SellerService.java:67-111 | two incoming sellers that agree on the listed fields give the same merge |
| Reconciler.MergeSellerKeepsComplementOnNull | src/main/java/org/hygorp/bookmarketplace/services/SellerService.java:107-111 | a missing incoming complement keeps the persisted complement, while the other address fields follow the incoming address |
| Reconciler.MergeBook | src/main/java/org/hygorp/bookmarketplace/services/BookService.java:53-91 | title, description, published date, isbn, image, stock, condition and cover type come from the incoming book; id, price, language, publisher and seller stay; authors and genres are unions |
| Reconciler.MergeBookNoOp | src/main/java/org/hygorp/bookmarketplace/services/BookService.java:53-91 | merging a book with itself changes nothing |
| Reconciler.MergeBookIdempotent | src/main/java/org/hygorp/bookmarketplace/services/BookService.java:53-91 | merging the same incoming book twice is merging it once |
| Reconciler.MergeBookReadsOnlyListed | src/main/java/org/hygorp/bookmarketplace/services/BookService.java:53-91 | two incoming books that agree on the listed fields give the same merge |
| Reconciler.MergeAuthor | src/main/java/org/hygorp/bookmarketplace/services/AuthorService.java:50-64 | name, biography and image come from the incoming author; the id stays; books are the union |
| Reconciler.MergeAuthorNoOp | src/main/java/org/hygorp/bookmarketplace/services/AuthorService.java:50-64 | merging an author with itself changes nothing |
| Reconciler.MergeAuthorIdempotent | src/main/java/org/hygorp/bookmarketplace/services/AuthorService.java:50-64 | merging the same incoming author twice is merging it once |
| Reconciler.MergeAuthorIsRekeyedUnion | src/main/java/org/hygorp/bookmarketplace/services/AuthorService.java:50-64 | the merge is the incoming author under the persisted id with the union of books |
| Reconciler.MergeGenre | src/main/java/org/hygorp/bookmarketplace/services/GenreService.java:51-61 | name and image come from the incoming genre; the id stays; books are the union |
| Reconciler.MergeGenreNoOp | src/main/java/org/hygorp/bookmarketplace/services/GenreService.java:51-61 | merging a genre with itself changes nothing |
| Reconciler.MergeGenreIdempotent | src/main/java/org/hygorp/bookmarketplace/services/GenreService.java:51-61 | merging the same incoming genre twice is merging it once |
| Reconciler.MergeGenreIsRekeyedUnion | src/main/java/org/hygorp/bookmarketplace/services/GenreService.java:51-61 | the merge is the incoming genre under the persisted id with the union of books |
| Reconciler.MergePublisher | src/main/java/org/hygorp/bookmarketplace/services/PublisherService.java:51-61 | name and logo come from the incoming publisher; the id stays; books are the union |
| Reconciler.MergePublisherNoOp | src/main/java/org/hygorp/bookmarketplace/services/PublisherService.java:51-61 | merging a publisher with itself changes nothing |
| Reconciler.MergePublisherIdempotent | src/main/java/org/hygorp/bookmarketplace/services/PublisherService.java:51-61 | merging the same incoming publisher twice is merging it once |
| Reconciler.MergePublisherIsRekeyedUnion | src/main/java/org/hygorp/bookmarketplace/services/PublisherService.java:51-61 | the merge is the incoming publisher under the persisted id with the union of books |
| ClientService.FindById | src/main/java/org/hygorp/bookmarketplace/services/ClientService.java:22-28 | found exactly when the id is stored, and then the stored client with its cart loaded eagerly: each item the book table holds is its current row; otherwise the client not-found-by-id exception |
| ClientService.CurrentCartLoadsAsStored | src/main/java/org/hygorp/bookmarketplace/entities/CartEntity.java:27-33 | a client whose cart items agree with the book table is found exactly as stored |
| ClientService.CartShowsUpdatedBook | src/main/java/org/hygorp/bookmarketplace/entities/CartEntity.java:27-33 | after a book in a client's cart is updated, the lookup of that client shows the updated book in the cart, because the items are join-table references to the book rows |
| ClientService.WithUsername | src/main/java/org/hygorp/bookmarketplace/repositories/ClientRepository.java:12 | exactly the clients whose credentials carry the username |
| ClientService.FindByUsername | src/main/java/org/hygorp/bookmarketplace/services/ClientService.java:30-36 | found exactly when one client has the username, and then that client as loaded; the not-found exception exactly when none has it |
| ClientService.Save | src/main/java/org/hygorp/bookmarketplace/services/ClientService.java:38-46 | a stored cpf gives the already-exists exception; otherwise success exactly when no user row holds the username, storing the client under the new id with freshly generated credentials and cart ids; otherwise a username constraint violation; keeps the store invariants |
| ClientService.SaveRefusesTakenUsername | src/main/java/org/hygorp/bookmarketplace/entities/UserEntity.java:30-31 | a new client whose username any client or seller already holds is refused |
| ClientService.AddKeepsOwnershipExclusive | src/main/java/org/hygorp/bookmarketplace/entities/ClientEntity.java:36-49 | adding a client whose sub-entity ids are unused keeps every owner's sub-entities its own |
| ClientService.SaveKeepsOwnershipExclusive | src/main/java/org/hygorp/bookmarketplace/services/ClientService.java:38-46 | a successful save of a client with new addresses keeps every owner's sub-entities its own |
| ClientService.Update | src/main/java/org/hygorp/bookmarketplace/services/ClientService.java:48-86 | an unknown id gives the not-found exception; otherwise the merge of the loaded client is returned and written back under the same id, its cart left as stored, when its username is free; keeps the store invariants |
| ClientService.UpdateKeepsOwnershipExclusive | src/main/java/org/hygorp/bookmarketplace/services/ClientService.java:48-86 | the update keeps the client's credentials and cart and only adds addresses, so when the incoming addresses' ids are the client's own or unused, no two owners share a sub-entity afterwards |
| ClientService.CartBookIds | src/main/java/org/hygorp/bookmarketplace/entities/CartEntity.java:27-33 | the books in a client's cart, none without a cart |
| ClientService.Delete | src/main/java/org/hygorp/bookmarketplace/services/ClientService.java:88-90 | an unknown id is a no-op; otherwise refused with a cart-item foreign-key violation exactly when another client's cart holds a book of this cart; on success the client and the books in its cart leave their tables, nothing else changes, and no cart holds those books; keeps the store invariants |
| ClientService.DeleteThenFindFails | src/test/java/org/hygorp/bookmarketplace/services/ClientServiceTest.java:185-211 | after a successful deletion, looking the client up gives the not-found exception |
| ClientService.DeleteCascadesOwned | src/main/java/org/hygorp/bookmarketplace/entities/ClientEntity.java:36-49 | after a successful deletion, the client's credentials, addresses and cart are gone from their tables, when no other owner shares them |
| ClientService.UpdateWithStoredIsNoOp | src/main/java/org/hygorp/bookmarketplace/services/ClientService.java:48-86 | writing back an unedited client, as stored or as loaded, succeeds, leaves the store unchanged and returns the client as a lookup finds it |
| ClientService.UpdateIdempotent | src/main/java/org/hygorp/bookmarketplace/services/ClientService.java:48-86 | repeating a successful update with the same incoming client changes nothing more |
| ClientService.SecondSaveWithSameCpfFails | src/main/java/org/hygorp/bookmarketplace/services/ClientService.java:38-46 | after a client is saved, another client with its cpf is refused and the first stays findable, with its generated ids |
| ClientService.UpdateDoesNotGuardCpf | src/main/java/org/hygorp/bookmarketplace/services/ClientService.java:57-59 | an update may give a client another client's cpf |
| ClientService.EditEmailAndUsernameScenario | src/test/java/org/hygorp/bookmarketplace/services/ClientServiceTest.java:136-172 | editing email and username changes those two and keeps password, role, name and addresses |
| ClientService.AddressesGrowScenario | src/main/java/org/hygorp/bookmarketplace/services/ClientService.java:77-79 | a client with one address updated with another ends up with both |
| SellerService.FindAll | src/main/java/org/hygorp/bookmarketplace/services/SellerService.java:24-39 | the listing page has the store page's size, with each seller replaced by its public view, and keeps the total and the page metadata; each listed seller is stored and shows the books whose seller it is |
| SellerService.FindById | src/main/java/org/hygorp/bookmarketplace/services/SellerService.java:41-47 | found exactly when the id is stored, with its book set read back from the books whose seller it is; otherwise the seller not-found exception |
| SellerService.FindByName | src/main/java/org/hygorp/bookmarketplace/services/SellerService.java:49-51 | exactly the stored sellers, as loaded, whose name contains the text, ignoring case |
| SellerService.Save | src/main/java/org/hygorp/bookmarketplace/services/SellerService.java:53-60 | a name clash gives the already-exists exception; otherwise success exactly when name and phone are free and no user row holds the username, storing the seller under the new id with freshly generated credentials and address ids; keeps the store invariants |
| SellerService.SaveRefusesContainedName | src/main/java/org/hygorp/bookmarketplace/services/SellerService.java:53-60 | a new name occurring anywhere inside a stored seller's name, in any letter case, is refused |
| SellerService.SaveRefusesDuplicateName | src/main/java/org/hygorp/bookmarketplace/services/SellerService.java:53-60 | a new name equal to a stored one is refused |
| SellerService.SaveRefusesTakenUsername | src/main/java/org/hygorp/bookmarketplace/entities/UserEntity.java:30-31 | a new seller whose username any client or seller already holds is refused |
| SellerService.AddKeepsOwnershipExclusive | src/main/java/org/hygorp/bookmarketplace/entities/SellerEntity.java:41-46 | adding a seller whose credentials and address ids are unused keeps every owner's sub-entities its own |
| SellerService.SaveKeepsOwnershipExclusive | src/main/java/org/hygorp/bookmarketplace/services/SellerService.java:53-60 | a successful save keeps every owner's sub-entities its own |
| SellerService.SaveKeepsNameDistinct | src/main/java/org/hygorp/bookmarketplace/services/SellerService.java:53-60 | after a successful save no stored name contains, or equals, the new one |
| SellerService.SaveStoresOwned | src/main/java/org/hygorp/bookmarketplace/entities/SellerEntity.java:41-46 | a saved seller's credentials and address are in the user and address tables under their new ids |
| SellerService.Update | src/main/java/org/hygorp/bookmarketplace/services/SellerService.java:62-117 | an unknown id gives the not-found exception; otherwise the merge with the loaded seller is written back under the same id when its unique columns are free, the stored row keeping its own book field; keeps the store invariants |
| SellerService.UpdateKeepsOwnershipExclusive | src/main/java/org/hygorp/bookmarketplace/services/SellerService.java:67-111 | the update edits the credentials and address in place under their ids, so no two owners share a sub-entity afterwards |
| SellerService.UpdateThenFindAgrees | src/main/java/org/hygorp/bookmarketplace/services/SellerService.java:62-117 | what a successful update returns is exactly what a later lookup finds |
| SellerService.Delete | src/main/java/org/hygorp/bookmarketplace/services/SellerService.java:119-121 | an unknown id is a no-op; otherwise refused with a cart-item foreign-key violation exactly when a cart holds one of the seller's books; on success the seller and every book whose seller it is leave their tables, nothing else changes, and no book names the seller; keeps the store invariants |
| SellerService.DeleteThenFindFails | src/test/java/org/hygorp/bookmarketplace/services/SellerServiceTest.java:167-170 | after a successful deletion, looking the seller up gives the not-found exception |
| SellerService.DeleteCascadesOwned | src/test/java/org/hygorp/bookmarketplace/repositories/SellerRepositoryTest.java:146-175 | after a successful deletion, the seller's credentials and address are gone from their tables, when no other owner shares them |
| SellerService.UpdateWithStoredIsNoOp | src/main/java/org/hygorp/bookmarketplace/services/SellerService.java:62-117 | writing back an unedited loaded seller succeeds and leaves the store unchanged |
| SellerService.EditNameAndAddressLineScenario | src/test/java/org/hygorp/bookmarketplace/services/SellerServiceTest.java:143-158 | editing name and address line changes those two and keeps zip, creation instant, books and credentials |
| BookService.FindById | src/main/java/org/hygorp/bookmarketplace/services/BookService.java:29-37 | found exactly when the id is stored; otherwise the book not-found exception |
| BookService.FindByTitle | src/main/java/org/hygorp/bookmarketplace/services/BookService.java:39-41 | exactly the stored books whose title contains the text, ignoring case |
| BookService.Save | src/main/java/org/hygorp/bookmarketplace/services/BookService.java:43-46 | success exactly when every relation the book names is stored, storing it under the new id; otherwise a foreign-key violation; keeps the store invariants |
| BookService.Update | src/main/java/org/hygorp/bookmarketplace/services/BookService.java:48-97 | an unknown id gives the not-found exception; otherwise the merge is written back under the same id exactly when every relation it names is stored, and a foreign-key violation when not |
| BookService.Delete | src/main/java/org/hygorp/bookmarketplace/services/BookService.java:99-101 | an unknown id is a no-op; otherwise refused with a cart-item foreign-key violation exactly when a cart holds the book; on success only the book leaves and no cart holds it; keeps the store invariants |
| BookService.DeleteThenFindFails | src/test/java/org/hygorp/bookmarketplace/services/BookServiceTest.java:194-197 | after a successful deletion, looking the book up gives the not-found exception |
| BookService.UpdateKeepsPriceAndRelations | src/main/java/org/hygorp/bookmarketplace/services/BookService.java:48-97 | an update never changes price, language, publisher or seller, and never loses an author or genre |
| BookService.AddAuthorScenario | src/test/java/org/hygorp/bookmarketplace/services/BookServiceTest.java:166-181 | a book with one author edited to add a second, stored author ends with both, the new title, and the stored isbn and stock |
| BookService.UpdateWithStoredIsNoOp | src/main/java/org/hygorp/bookmarketplace/services/BookService.java:48-97 | writing back an unedited book, whose links hold, leaves the store unchanged |
| AuthorService.FindById | src/main/java/org/hygorp/bookmarketplace/services/AuthorService.java:26-34 | found exactly when the id is stored, with its book set read back from the books that name the author; otherwise the author not-found exception |
| AuthorService.FindByName | src/main/java/org/hygorp/bookmarketplace/services/AuthorService.java:36-38 | exactly the stored authors, as loaded, whose name contains the text, ignoring case |
| AuthorService.FindByEmptyNameFindsAll | src/main/java/org/hygorp/bookmarketplace/services/AuthorService.java:36-38 | an empty search text finds every author |
| AuthorService.Save | src/main/java/org/hygorp/bookmarketplace/services/AuthorService.java:40-43 | success exactly when the name is free, storing the author under the new id without a book field of its own; otherwise an author-name constraint violation; keeps the store invariants |
| AuthorService.SavedAuthorHasNoBooks | src/main/java/org/hygorp/bookmarketplace/entities/AuthorEntity.java:37-39 | a newly saved author is found with no books while every book's authors are stored |
| AuthorService.Update | src/main/java/org/hygorp/bookmarketplace/services/AuthorService.java:45-70 | an unknown id gives the not-found exception; otherwise the merge with the loaded author is returned and written back under the same id when its name is free, the stored row keeping its own book field; keeps the store invariants |
| AuthorService.UpdateDoesNotLinkBooks | src/main/java/org/hygorp/bookmarketplace/entities/AuthorEntity.java:37-39 | after a successful update a lookup finds the returned author except for the book set, which is the one the lookup found before |
| AuthorService.IncomingBookNotLinked | src/main/java/org/hygorp/bookmarketplace/services/AuthorService.java:62-66 | a book listed only in the incoming author is in the returned author but not in what a later lookup finds |
| AuthorService.Delete | src/main/java/org/hygorp/bookmarketplace/services/AuthorService.java:72-74 | an unknown id is a no-op; otherwise refused with a book-author foreign-key violation exactly when some book names the author; on success only the author leaves, no book names it, and the store invariants hold |
| AuthorService.DeleteThenFindFails | src/test/java/org/hygorp/bookmarketplace/services/AuthorServiceTest.java:143-146 | after a successful deletion, looking the author up gives the not-found exception |
| AuthorService.UpdateWithStoredIsNoOp | src/main/java/org/hygorp/bookmarketplace/services/AuthorService.java:45-70 | writing back the author as loaded succeeds and leaves the store unchanged |
| AuthorService.LifecycleScenario | src/test/java/org/hygorp/bookmarketplace/services/AuthorServiceTest.java:104-146 | an author with a fresh name saves with no books, is renamed to another free name, and is then deleted and no longer found |
| GenreService.FindById | src/main/java/org/hygorp/bookmarketplace/services/GenreService.java:29-35 | found exactly when the id is stored, with its book set read back from the books that name the genre; otherwise the genre not-found exception |
| GenreService.FindByName | src/main/java/org/hygorp/bookmarketplace/services/GenreService.java:37-39 | exactly the stored genres, as loaded, whose name contains the text, ignoring case |
| GenreService.FindByNameIgnoresQueryCase | src/main/java/org/hygorp/bookmarketplace/services/GenreService.java:37-39 | upper-casing the search text finds the same genres |
| GenreService.Save | src/main/java/org/hygorp/bookmarketplace/services/GenreService.java:41-44 | the genre is stored under the new id without a book field of its own; keeps the store invariants |
| GenreService.Update | src/main/java/org/hygorp/bookmarketplace/services/GenreService.java:46-67 | succeeds exactly when the id is stored, returning the merge with the loaded genre and writing it back under the same id, the stored row keeping its own book field |
| GenreService.UpdateDoesNotLinkBooks | src/main/java/org/hygorp/bookmarketplace/entities/GenreEntity.java:33-35 | after a successful update a lookup finds the returned genre except for the book set, which is the one the lookup found before |
| GenreService.Delete | src/main/java/org/hygorp/bookmarketplace/services/GenreService.java:69-71 | an unknown id is a no-op; otherwise refused with a book-genre foreign-key violation exactly when some book names the genre; on success only the genre leaves, no book names it, and the store invariants hold |
| GenreService.DeleteThenFindFails | src/test/java/org/hygorp/bookmarketplace/services/GenreServiceTest.java:134-137 | after a successful deletion, looking the genre up gives the not-found exception |
| GenreService.UpdateWithStoredIsNoOp | src/main/java/org/hygorp/bookmarketplace/services/GenreService.java:46-67 | writing back the genre as loaded succeeds and leaves the store unchanged |
| PublisherService.FindById | src/main/java/org/hygorp/bookmarketplace/services/PublisherService.java:29-35 | found exactly when the id is stored, with its book set read back from the books that name the publisher; otherwise the publisher not-found exception |
| PublisherService.FindByName | src/main/java/org/hygorp/bookmarketplace/services/PublisherService.java:37-39 | exactly the stored publishers, as loaded, whose name contains the text, ignoring case |
| PublisherService.FindByNameIgnoresQueryCase | src/main/java/org/hygorp/bookmarketplace/services/PublisherService.java:37-39 | upper-casing the search text finds the same publishers |
| PublisherService.Save | src/main/java/org/hygorp/bookmarketplace/services/PublisherService.java:41-44 | the publisher is stored under the new id without a book field of its own; keeps the store invariants |
| PublisherService.Update | src/main/java/org/hygorp/bookmarketplace/services/PublisherService.java:46-67 | succeeds exactly when the id is stored, returning the merge with the loaded publisher and writing it back under the same id, the stored row keeping its own book field |
| PublisherService.UpdateDoesNotLinkBooks | src/main/java/org/hygorp/bookmarketplace/entities/PublisherEntity.java:34-36 | after a successful update a lookup finds the returned publisher except for the book set, which is the one the lookup found before |
| PublisherService.Delete | src/main/java/org/hygorp/bookmarketplace/services/PublisherService.java:69-71 | an unknown id is a no-op; otherwise refused with a book-publisher foreign-key violation exactly when some book names the publisher; on success only the publisher leaves, no book names it, and the store invariants hold |
| PublisherService.DeleteThenFindFails | src/test/java/org/hygorp/bookmarketplace/services/PublisherServiceTest.java:127-130 | after a successful deletion, looking the publisher up gives the not-found exception |
| PublisherService.UpdateWithStoredIsNoOp | src/main/java/org/hygorp/bookmarketplace/services/PublisherService.java:46-67 | writing back the publisher as loaded succeeds and leaves the store unchanged |

### Readings of the code the model commits to

- **Publisher deletion.** `PublisherEntity.java:34-36` declares the publisher's book set with no cascade, and the book holds the publisher reference. So `PublisherService.Delete` never deletes books: it is refused while a book names the publisher.
- **Author and genre deletion.** `AuthorEntity.java:37-39` and `GenreEntity.java:33-35` are the inverse side of join tables the book owns (`BookEntity.java:57-73`), with no cascade. Deleting an author or genre a book still names is refused.
- **Client deletion.** `CartEntity.java:27-33` declares the cart's items with cascade ALL, and the cart is itself owned with cascade ALL (`ClientEntity.java:39-41`). So `ClientService.Delete` removes the books in the cart.
- **Seller update and the role.** `SellerService.java:87-89` overwrites the credentials' role, and `Reconciler.MergeSeller` does too.
- **Client update and the role.** `ClientService.java:69-75` never touches the role, and `Reconciler.MergeClient` keeps the persisted role.
- **Fields the services read.** The model gives a book its price, language, publisher and seller, and a client its cpf. The cart total reads the price (`CartEntity.java:39`). No service reads the language: it is kept so that the books the tests build (`BookRepositoryTest.java:50`, `CartRepositoryTest.java:83`) can be written down, and `Reconciler.MergeBook` keeps it. `ClientService.java:38-46` and `57-59` read and write the cpf. `PublisherEntity.java:34` and `SellerEntity.java:48` are mapped by the book's `publisher` and `seller` fields.

## Left out

- HTTP resources, JSON (de)serialisation and Spring Security wiring are not part of this model.
- Transactions (`REQUIRES_NEW`, rollback) and concurrency: every operation is one atomic step on an immutable store value.
- The `findAll` of books, authors, genres and publishers is a pure pass-through to the store's paging and is not modelled. The seller listing takes the store's listing as a parameter (`rows`): sort order and the query belong to the store. `SellerService.FindAll` requires those rows to be stored sellers as loaded, but not that they are all of them: its total is the listing's length, which the store's count query defines.
- Id generation is outside the model. `Save` takes the new id as a parameter and requires that it is not yet in the table. Saving an entity that already carries an id (the store's merge-on-save) is not modelled.
- `Save` of a client or a seller takes the generated credentials, cart and address ids as parameters, and requires that no owner uses them yet. The ids of a new client's addresses are taken from the addresses as given. `ClientService.Update` also adds the incoming addresses with the ids they carry. An incoming address with another owner's address id is accepted, and both owners then hold it; the unique `address_id` of the one-to-many `tb_client_address` join table (`ClientEntity.java:43-49`) would refuse it in the store, and that constraint is not modelled.
- Null fields are not modelled. This covers null incoming sub-entities in an update (the source would dereference null there), null cart items and null prices. Optional columns (logo, image, complement) are `Option`.
- Prices are whole cents (`nat`), not doubles: 44.90 is 4490. Floating-point rounding of the cart total is not modelled.
- Case-insensitive matching folds ASCII letters only. The store's Unicode case folding is not modelled.
- The `books` field of a stored author, genre, publisher or seller row is never read: lookups derive the set from the book rows. Saving a seller whose book set holds new books does not persist those books through the seller's cascade; a new seller is found with no books.
- The cpf is a plain column, not a unique one. Its uniqueness is checked only by the `existsByCpf` test in `ClientService.Save` (`ClientService.java:38-46`). An update may therefore give two clients the same cpf, as `ClientService.UpdateDoesNotGuardCpf` shows.
- The cart-items join table makes each book id unique across carts. That constraint on adding to a cart is not modelled; a client deletion is refused when another cart holds one of its books.
- Cascade MERGE of cart items when a client is saved is not modelled: the cart is stored as carried by the client.
- `ClientService.DeleteCascadesOwned` and `SellerService.DeleteCascadesOwned` assume that no two owners share a sub-entity (`OwnedExclusively`). Both services' `Save` and `Update` are proved to keep that property, a client update only when its incoming addresses' ids are the client's own or unused (`ClientService.UpdateKeepsOwnershipExclusive`).
- `Users.Authorities` returns the authority strings (`ROLE_CLIENT`, …) rather than granted-authority objects.
- Carts.Sum is a ghost definition (a sum over a map picks an arbitrary element); the compiled total is `Carts.TotalValue`, proved equal to it.
