# Bookstore author associations

A model of the two association services of the bookstore back end:

- **BookAuthorService** keeps the list of authors attached to a book. It can append one author, append several, return the list, check whether an author is in it, and remove an author.
- **PrizeAuthorService** keeps the single, nullable author reference of a prize. It can set or replace the author, return it, and clear it.

The author, book and prize repositories are the fields of one class, `Catalog.Store`:

- `authors` is a set of author ids.
- `books` maps each book to its author list.
- `prizes` maps each prize to an optional author.
- `authorPrizes` maps each author to their prize collection.

A record exists when its id is in the set or map. This is what `findById(id).orElse(null) != null` tests in the source. Entities are compared by id.

Each service is a class holding the store, which is passed in at construction. Operations that change the store are methods. Each one names the one or two fields it may change in its `modifies` clause. Read-only queries are functions over the store.

A call returns `Ok(value)`, `NotFound(missing)` or `IllegalOperation`, standing for the return value and the two exceptions. `missing` records which lookup failed, so the contracts can state which check comes first.

The list operations follow the `java.util.List` contract (module `Lists`):

- `add` appends.
- `contains` tests membership.
- `remove(Object)` removes the first occurrence (`RemoveFirst`).

`Store.Valid()` is the store's referential integrity, which the database's foreign keys maintain:

- every author that a book or a prize refers to exists;
- every existing author has a prize collection.

Every operation requires this invariant and preserves it. It rules out the null dereference in `PrizeAuthorService.removeAuthor`, which would happen if a prize's author were missing from the author repository.

The two sides of the prize–author relation are not kept in agreement by the services. `PrizeAuthors.Synced` states what agreement means:

- a prize's author lists the prize exactly once;
- an author lists only prizes that name them.

The model proves two things about it. `removeAuthor` preserves it. `addAuthor` and `replaceAuthor` preserve it only when the prize already had that author.

Two places where the code does less than its intent suggests; the model follows the code:

- A book's authors are meant to be duplicate-free, and `addAuthors` checks membership before it appends. `addAuthor` appends without a membership check, so duplicates can appear. `AddAuthor`'s contract states exactly when the list stays duplicate-free.
- `addAuthors` is meant to fail as a whole when an author is missing. It appends inside its loop, so the authors listed before the missing one are already appended when `NotFound` is returned. The model keeps that partial update.

## Model

| member | source | states |
|---|---|---|
| `BookAuthors.BookAuthorService.AddAuthor` | src/main/java/co/edu/uniandes/dse/bookstore/services/BookAuthorService.java:51-64 | A missing author gives NotFound(author). This check comes before the book check, and a missing book gives NotFound(book). In both error cases the books are unchanged. On success the book's list becomes the old list plus the author, so it grows by exactly one even for a duplicate. The author is returned, and `getAuthor` then finds it. The list stays duplicate-free exactly when it was duplicate-free and the author was new. |
| `BookAuthors.BookAuthorService.GetAuthors` | src/main/java/co/edu/uniandes/dse/bookstore/services/BookAuthorService.java:66-73 | Returns NotFound(book) exactly when the book is missing. Otherwise it returns that book's author list. |
| `BookAuthors.BookAuthorService.GetAuthor` | src/main/java/co/edu/uniandes/dse/bookstore/services/BookAuthorService.java:76-93 | A missing author gives NotFound(author), which takes priority. A missing book then gives NotFound(book). IllegalOperation is returned exactly when both exist and the author is not in the book's list. The author is returned exactly when it is in the list. |
| `BookAuthors.BookAuthorService.AddAuthors` | src/main/java/co/edu/uniandes/dse/bookstore/services/BookAuthorService.java:95-110 | A missing book gives NotFound(book) with the books unchanged. Otherwise the loop stops at the first listed author that does not resolve. The book's list becomes the old list plus each author before that point that was not yet present, and this partial update holds even when the call returns NotFound(author). On success the returned list is the book's new list, the old list is a prefix of it, every listed author is in it, and each appended author is from the input and was not already there. |
| `BookAuthors.BookAuthorService.RemoveAuthor` | src/main/java/co/edu/uniandes/dse/bookstore/services/BookAuthorService.java:112-124 | A missing author gives NotFound(author), and then a missing book gives NotFound(book). In both cases nothing changes. Otherwise the first occurrence of the author is removed from that book's list only. If the author is absent this is a silent no-op. On a duplicate-free list the author is then gone, so `getAuthor` returns IllegalOperation. |
| `BookAuthors.AddAuthorsTwice` | src/main/java/co/edu/uniandes/dse/bookstore/services/BookAuthorService.java:101-108 | A second `addAuthors` call with the same list returns the same outcome as the first. It leaves the book's list as the first call left it, whether or not the first call succeeded. |
| `PrizeAuthors.PrizeAuthorService.AddAuthor` | src/main/java/co/edu/uniandes/dse/bookstore/services/PrizeAuthorService.java:68-82 | A missing author gives NotFound(author). This check comes before the prize check, and a missing prize gives NotFound(prize). In both error cases the prizes are unchanged. On success only that prize's reference changes, and it now names the author. The author is returned and `getAuthor` then returns it. No author's prize collection changes. The two sides stay in agreement exactly when the prize already had that author. |
| `PrizeAuthors.PrizeAuthorService.GetAuthor` | src/main/java/co/edu/uniandes/dse/bookstore/services/PrizeAuthorService.java:93-107 | A missing prize gives NotFound(prize), and a null author reference gives NotFound(prize author). Otherwise the referenced author is returned, and on a valid store that author exists. |
| `PrizeAuthors.PrizeAuthorService.ReplaceAuthor` | src/main/java/co/edu/uniandes/dse/bookstore/services/PrizeAuthorService.java:118-132 | The same checks, check order, effect and result as `addAuthor`, with the arguments swapped. |
| `PrizeAuthors.PrizeAuthorService.RemoveAuthor` | src/main/java/co/edu/uniandes/dse/bookstore/services/PrizeAuthorService.java:141-156 | A missing prize gives NotFound(prize). A prize without an author gives NotFound(prize author). In both cases nothing changes. Otherwise the prize's reference becomes null, and the prize's first occurrence is removed from its former author's collection. Afterwards `getAuthor` returns NotFound(prize author). Agreement between the two sides is preserved. |
| `PrizeAuthors.AssociateSynced` | src/main/java/co/edu/uniandes/dse/bookstore/services/PrizeAuthorService.java:79 | If the two sides agree, setting a prize's author without touching any collection keeps them in agreement exactly when the prize already had that author. |
| `PrizeAuthors.DissociateSynced` | src/main/java/co/edu/uniandes/dse/bookstore/services/PrizeAuthorService.java:151-153 | If the two sides agree, clearing a prize's author and removing the prize from that author's collection keeps them in agreement. |
| `PrizeAuthors.DissociateKeeping` | src/main/java/co/edu/uniandes/dse/bookstore/services/PrizeAuthorService.java:152-153 | The same as `DissociateSynced`, for any new collection of the author that keeps the author's other prizes once each and drops the removed one. |
| `Lists.RemoveFirst` | src/main/java/co/edu/uniandes/dse/bookstore/services/BookAuthorService.java:123 | `List.remove(Object)` leaves a list without the element unchanged. Otherwise it takes exactly one occurrence out of the list's multiset of elements. |
| `Lists.RemoveFirstAt` | src/main/java/co/edu/uniandes/dse/bookstore/services/BookAuthorService.java:123 | The occurrence removed is the first one: the result is the list with the position of the first occurrence cut out. |
| `Lists.RemoveFirstMembers` | src/main/java/co/edu/uniandes/dse/bookstore/services/PrizeAuthorService.java:153 | Removing adds no element and loses no element other than the removed one. |
| `Lists.RemoveFirstNoDup` | src/main/java/co/edu/uniandes/dse/bookstore/services/PrizeAuthorService.java:153 | On a duplicate-free list, removing leaves the list duplicate-free and without the element. |
| `Lists.RemoveFirstAppended` | src/main/java/co/edu/uniandes/dse/bookstore/services/BookAuthorService.java:61 | Removing an author that was just appended to a list that did not hold it gives the original list back. This is the round trip between `addAuthor` and `removeAuthor`. |
| `Lists.AppendNoDup` | src/main/java/co/edu/uniandes/dse/bookstore/services/BookAuthorService.java:61 | Appending keeps a list duplicate-free exactly when the list was duplicate-free and the element is new. |
| `Lists.AddAbsent` | src/main/java/co/edu/uniandes/dse/bookstore/services/BookAuthorService.java:101-108 | The `addAuthors` loop keeps the old list as a prefix. Every listed element ends up in the result. Each appended element comes from the input and occurs nowhere earlier in the result. |
| `Lists.AddAbsentPresent` | src/main/java/co/edu/uniandes/dse/bookstore/services/BookAuthorService.java:106-107 | When every listed element is already present, the loop leaves the list unchanged. |
| `Lists.AddAbsentTwice` | src/main/java/co/edu/uniandes/dse/bookstore/services/BookAuthorService.java:101-108 | Running the loop a second time with the same elements changes nothing. |
| `Lists.AddAbsentNoDup` | src/main/java/co/edu/uniandes/dse/bookstore/services/BookAuthorService.java:106-107 | The loop keeps a duplicate-free list duplicate-free. |
| `Lists.FirstMissing` | src/main/java/co/edu/uniandes/dse/bookstore/services/BookAuthorService.java:101-104 | Finds where the `addAuthors` loop stops. Every listed author before that position resolves, and the one at that position, if any, does not. |

## Left out

- Logging (`log.info`) has no effect on behaviour and is not modelled.
- Spring wiring (`@Autowired`, `@Service`) and Lombok's `@Data` are not modelled. The repositories are the fields of `Catalog.Store`, which is passed to each service's constructor.
- `@Transactional` commit and rollback are not modelled, and neither is the ORM's flushing of collections to join tables. Each call's in-memory effect is modelled as written. For example, `addAuthors` returning NotFound does not undo the authors it has already appended.
- `getAuthors` and `addAuthors` return the book's live `List`, which a caller could then mutate. The model returns the list's value, so this aliasing is not captured.
- JPA entity identity and `equals` are not modelled. The entity classes are not part of this model, and entities are compared by id.
- For each `AuthorEntity` passed to `addAuthors`, the model uses only the id. The other fields of the passed objects are ignored, as they are in the source.
- `Author.getPrizes()` is taken to be a `List`, so `remove` drops the first occurrence. The entity class that declares it is not part of this model.
- Null ids are not modelled. Ids are unbounded integers that are only compared, so the width of `Long` does not matter.
- The second `findById` in `getAuthors` is not modelled separately. With a single caller it returns the same record as the first lookup.
- The null dereference in `PrizeAuthorService.removeAuthor`, which happens when a prize's author is missing from the author repository, is excluded by `Store.Valid()` and not modelled as an error path.
- The author-to-books side of the book–author relation is not modelled, because the services never update it.
- Concurrency is not modelled: each call runs alone. In the source, overlapping calls on the same prize are handled by the database, and the last write wins.
