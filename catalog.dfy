/** The persistent records the association services work on. The author, book
    and prize repositories are the fields of one `Store`; a record exists when
    its id is a key (or, for authors, a member), which is what
    `findById(id).orElse(null) != null` tests. Entities are compared by id. */
module Catalog {

  type AuthorId = int
  type BookId = int
  type PrizeId = int

  /** A nullable reference. */
  datatype Option<+T> = None | Some(value: T)

  /** Which lookup failed; each has its own message in the services. */
  datatype Missing =
    | AuthorRecord   // "The author with the given id was not found"
    | BookRecord     // "The book with the given id was not found"
    | PrizeRecord    // "The prize with the given id was not found"
    | PrizeAuthor    // the prize exists but its author reference is null

  /** A service call either returns a value or throws one of the two
      exceptions `EntityNotFoundException` and `IllegalOperationException`. */
  datatype Outcome<+T> = Ok(value: T) | NotFound(missing: Missing) | IllegalOperation

  /** Referential integrity, as the database's foreign keys keep it: every
      author a book or a prize refers to exists, and every existing author has
      a (possibly empty) prize collection. */
  ghost predicate Consistent(authors: set<AuthorId>, books: map<BookId, seq<AuthorId>>,
                             prizes: map<PrizeId, Option<AuthorId>>,
                             authorPrizes: map<AuthorId, seq<PrizeId>>)
  {
    && (forall b | b in books :: forall a | a in books[b] :: a in authors)
    && (forall p | p in prizes && prizes[p].Some? :: prizes[p].value in authors)
    && authorPrizes.Keys == authors
  }

  /** Giving a book a new author list of existing authors keeps the store
      consistent. */
  lemma ConsistentWithBook(authors: set<AuthorId>, books: map<BookId, seq<AuthorId>>,
                           prizes: map<PrizeId, Option<AuthorId>>,
                           authorPrizes: map<AuthorId, seq<PrizeId>>,
                           bookId: BookId, list: seq<AuthorId>)
    requires Consistent(authors, books, prizes, authorPrizes)
    requires forall a | a in list :: a in authors
    ensures Consistent(authors, books[bookId := list], prizes, authorPrizes)
  {
  }

  class Store {
    /** The ids the author repository resolves. */
    var authors: set<AuthorId>
    /** Each book's author list (`BookEntity.getAuthors()`). */
    var books: map<BookId, seq<AuthorId>>
    /** Each prize's author reference (`PrizeEntity.getAuthor()`). */
    var prizes: map<PrizeId, Option<AuthorId>>
    /** Each author's prize collection (`AuthorEntity.getPrizes()`). */
    var authorPrizes: map<AuthorId, seq<PrizeId>>

    ghost predicate Valid()
      reads this
    {
      Consistent(authors, books, prizes, authorPrizes)
    }

    constructor(authors: set<AuthorId>, books: map<BookId, seq<AuthorId>>,
                prizes: map<PrizeId, Option<AuthorId>>,
                authorPrizes: map<AuthorId, seq<PrizeId>>)
      requires Consistent(authors, books, prizes, authorPrizes)
      ensures Valid()
      ensures this.authors == authors && this.books == books
      ensures this.prizes == prizes && this.authorPrizes == authorPrizes
    {
      this.authors := authors;
      this.books := books;
      this.prizes := prizes;
      this.authorPrizes := authorPrizes;
    }
  }
}
