/** The catalog entities and the address value: `BookEntity`, `AuthorEntity`,
    `GenreEntity`, `PublisherEntity` and `AddressEntity`. Required columns are
    plain values; nullable columns are `Option`s. Relations to entities whose
    equality is by id are sets of ids. */
module Catalog {
  import opened Ids
  import opened Wrappers

  /** The book-condition enumeration. */
  datatype Condition = New | Used | Good

  /** The cover-type enumeration. */
  datatype CoverType = Hardcover | Softcover

  /** The language enumeration, kept opaque behind its locale tag. */
  datatype Language = Language(tag: string)

  /** A calendar date (`LocalDate`). */
  datatype Date = Date(year: int, month: nat, day: nat)

  /** A book. `price` is in cents (the source stores a `Double`); `stock` is the
      source's `Integer`. `authors` and `genres` are the owning side of the two
      many-to-many relations; `publisher` and `seller` are the owning side of the
      publisher's and seller's book sets. */
  datatype Book = Book(
    id: Uuid,
    title: string,
    description: string,
    publishedDate: Date,
    isbn: string,
    image: string,
    price: nat,
    stock: int,
    condition: Condition,
    coverType: CoverType,
    language: Language,
    authors: set<Uuid>,
    genres: set<Uuid>,
    publisher: Option<Uuid>,
    seller: Option<Uuid>)

  /** An author; `name` is a unique column and `books` is the inverse side of `Book.authors`. */
  datatype Author = Author(id: Uuid, name: string, biography: string, image: Option<string>, books: set<Uuid>)

  /** A genre; `books` is the inverse side of `Book.genres`. */
  datatype Genre = Genre(id: Uuid, name: string, image: Option<string>, books: set<Uuid>)

  /** A publisher; `books` is the inverse side of `Book.publisher`, with no cascade. */
  datatype Publisher = Publisher(id: Uuid, name: string, logo: Option<string>, books: set<Uuid>)

  /** An address. Unlike every other entity its equality is structural over all
      its fields, id included, which the datatype's own equality gives. */
  datatype Address = Address(
    id: Uuid,
    addressLine: string,
    city: string,
    state: string,
    zip: string,
    country: string,
    complement: Option<string>)
}
