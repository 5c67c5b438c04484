/** BookAuthorService: the list of authors attached to a book. Every call
    resolves the ids it is given, throws `EntityNotFoundException` for the
    first one that does not resolve, and otherwise reads or changes that one
    book's author list in place. */
module BookAuthors {
  import opened Catalog
  import opened Lists

  class BookAuthorService {
    /** The repositories, supplied at construction. */
    const store: Store

    constructor(store: Store)
      ensures this.store == store
    {
      this.store := store;
    }

    /** Appends the author to the book's list, whether or not it is already
        there; the author lookup comes before the book lookup. */
    method AddAuthor(bookId: BookId, authorId: AuthorId) returns (r: Outcome<AuthorId>)
      requires store.Valid()
      modifies store`books
      ensures store.Valid()
      ensures authorId !in store.authors ==> r == NotFound(AuthorRecord)
      ensures authorId in store.authors && bookId !in old(store.books) ==> r == NotFound(BookRecord)
      ensures r.Ok? <==> authorId in store.authors && bookId in old(store.books)
      ensures !r.Ok? ==> store.books == old(store.books)
      ensures r.Ok? ==> r.value == authorId
      ensures r.Ok? ==> store.books == old(store.books)[bookId := old(store.books)[bookId] + [authorId]]
      ensures r.Ok? ==> |store.books[bookId]| == |old(store.books)[bookId]| + 1
      ensures r.Ok? ==> GetAuthor(bookId, authorId) == Ok(authorId)
      ensures r.Ok? ==> (NoDup(store.books[bookId]) <==>
                         NoDup(old(store.books)[bookId]) && authorId !in old(store.books)[bookId])
    {
      if authorId !in store.authors {
        return NotFound(AuthorRecord);
      }
      if bookId !in store.books {
        return NotFound(BookRecord);
      }
      AppendNoDup(store.books[bookId], authorId);
      store.books := store.books[bookId := store.books[bookId] + [authorId]];
      return Ok(authorId);
    }

    /** The book's author list. */
    function GetAuthors(bookId: BookId): (r: Outcome<seq<AuthorId>>)
      reads store
      ensures r.Ok? <==> bookId in store.books
      ensures !r.Ok? ==> r == NotFound(BookRecord)
      ensures r.Ok? ==> r.value == store.books[bookId]
    {
      if bookId !in store.books then NotFound(BookRecord)
      else Ok(store.books[bookId])
    }

    /** The author, when it is one of the book's authors. */
    function GetAuthor(bookId: BookId, authorId: AuthorId): (r: Outcome<AuthorId>)
      reads store
      ensures authorId !in store.authors ==> r == NotFound(AuthorRecord)
      ensures authorId in store.authors && bookId !in store.books ==> r == NotFound(BookRecord)
      ensures r == IllegalOperation <==>
                authorId in store.authors && bookId in store.books && authorId !in store.books[bookId]
      ensures r.Ok? <==> authorId in store.authors && bookId in store.books && authorId in store.books[bookId]
      ensures r.Ok? ==> r.value == authorId
    {
      if authorId !in store.authors then NotFound(AuthorRecord)
      else if bookId !in store.books then NotFound(BookRecord)
      else if authorId in store.books[bookId] then Ok(authorId)
      else IllegalOperation
    }

    /** Appends each listed author that the book does not have yet, in order.
        The list is changed inside the loop, so when a later author does not
        resolve the earlier ones stay appended. */
    method AddAuthors(bookId: BookId, list: seq<AuthorId>) returns (r: Outcome<seq<AuthorId>>)
      requires store.Valid()
      modifies store`books
      ensures store.Valid()
      ensures bookId !in old(store.books) ==> r == NotFound(BookRecord) && store.books == old(store.books)
      ensures bookId in old(store.books) ==>
                var done := FirstMissing(list, store.authors);
                && store.books == old(store.books)[bookId := AddAbsent(old(store.books)[bookId], list[..done])]
                && (r.Ok? <==> done == |list|)
                && (!r.Ok? ==> r == NotFound(AuthorRecord))
      ensures r.Ok? ==> r.value == store.books[bookId]
      ensures r.Ok? ==> old(store.books)[bookId] <= r.value
      ensures r.Ok? ==> forall a | a in list :: a in r.value
      ensures r.Ok? ==> forall i | |old(store.books)[bookId]| <= i < |r.value| ::
                          r.value[i] in list && r.value[i] !in r.value[..i]
    {
      if bookId !in store.books {
        return NotFound(BookRecord);
      }
      for i := 0 to |list|
        invariant forall j | 0 <= j < i :: list[j] in store.authors
        invariant store.books == old(store.books)[bookId := AddAbsent(old(store.books)[bookId], list[..i])]
        invariant store.Valid()
      {
        var authorId := list[i];
        if authorId !in store.authors {
          return NotFound(AuthorRecord);
        }
        AddAbsentStep(old(store.books)[bookId], list, i);
        if authorId !in store.books[bookId] {
          store.books := store.books[bookId := store.books[bookId] + [authorId]];
        }
      }
      assert list[..|list|] == list;
      return Ok(store.books[bookId]);
    }

    /** Removes the first occurrence of the author from the book's list; an
        author that is not there is not an error. */
    method RemoveAuthor(bookId: BookId, authorId: AuthorId) returns (r: Outcome<()>)
      requires store.Valid()
      modifies store`books
      ensures store.Valid()
      ensures authorId !in store.authors ==> r == NotFound(AuthorRecord)
      ensures authorId in store.authors && bookId !in old(store.books) ==> r == NotFound(BookRecord)
      ensures r.Ok? <==> authorId in store.authors && bookId in old(store.books)
      ensures !r.Ok? ==> store.books == old(store.books)
      ensures r.Ok? ==> store.books == old(store.books)[bookId := RemoveFirst(old(store.books)[bookId], authorId)]
      ensures r.Ok? && authorId !in old(store.books)[bookId] ==> store.books == old(store.books)
      ensures r.Ok? && NoDup(old(store.books)[bookId]) ==>
                NoDup(store.books[bookId]) && GetAuthor(bookId, authorId) == IllegalOperation
    {
      if authorId !in store.authors {
        return NotFound(AuthorRecord);
      }
      if bookId !in store.books {
        return NotFound(BookRecord);
      }
      var authors := store.books[bookId];
      var kept := RemoveFirst(authors, authorId);
      RemoveFirstMembers(authors, authorId);
      ConsistentWithBook(store.authors, store.books, store.prizes, store.authorPrizes, bookId, kept);
      if NoDup(authors) {
        RemoveFirstNoDup(authors, authorId);
      }
      store.books := store.books[bookId := kept];
      return Ok(());
    }
  }

  /** Calling `addAuthors` a second time with the same list changes nothing
      and gives the same answer, whether or not the first call succeeded. */
  method AddAuthorsTwice(service: BookAuthorService, bookId: BookId, list: seq<AuthorId>)
    returns (first: Outcome<seq<AuthorId>>, second: Outcome<seq<AuthorId>>)
    requires service.store.Valid()
    modifies service.store`books
    ensures service.store.Valid()
    ensures second == first
    ensures bookId in old(service.store.books) ==>
              var done := FirstMissing(list, service.store.authors);
              service.store.books ==
                old(service.store.books)[bookId := AddAbsent(old(service.store.books)[bookId], list[..done])]
  {
    first := service.AddAuthors(bookId, list);
    if bookId in service.store.books {
      AddAbsentTwice(old(service.store.books)[bookId], list[..FirstMissing(list, service.store.authors)]);
    }
    second := service.AddAuthors(bookId, list);
  }
}
