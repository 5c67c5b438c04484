/** PrizeAuthorService: the single, nullable author reference of a prize.
    Associating an author overwrites the reference and leaves every author's
    prize collection alone; removing the author clears the reference and also
    takes the prize out of the former author's prize collection. */
module PrizeAuthors {
  import opened Catalog
  import opened Lists

  /** The two sides of the prize-author relation agree: a prize's author lists
      the prize once, and an author lists exactly the prizes that name it. The
      services do not keep this as an invariant (see AssociateSynced). */
  ghost predicate Synced(prizes: map<PrizeId, Option<AuthorId>>, authorPrizes: map<AuthorId, seq<PrizeId>>)
  {
    && (forall p | p in prizes && prizes[p].Some? ::
          prizes[p].value in authorPrizes && p in authorPrizes[prizes[p].value])
    && (forall a | a in authorPrizes :: NoDup(authorPrizes[a]))
    && (forall a, p | a in authorPrizes && p in authorPrizes[a] :: p in prizes && prizes[p] == Some(a))
  }

  /** Pointing a prize at an author without touching the prize collections
      keeps the two sides in agreement exactly when the prize already had
      that author. */
  lemma AssociateSynced(prizes: map<PrizeId, Option<AuthorId>>, authorPrizes: map<AuthorId, seq<PrizeId>>,
                        prizeId: PrizeId, authorId: AuthorId)
    requires Synced(prizes, authorPrizes)
    requires prizeId in prizes
    ensures Synced(prizes[prizeId := Some(authorId)], authorPrizes) <==> prizes[prizeId] == Some(authorId)
  {
    var prizes' := prizes[prizeId := Some(authorId)];
    if prizes[prizeId] == Some(authorId) {
      assert prizes' == prizes;
    } else {
      assert !(authorId in authorPrizes && prizeId in authorPrizes[authorId]);
      assert prizes'[prizeId] == Some(authorId);
    }
  }

  /** Clearing a prize's author and removing the prize from that author's
      collection keeps the two sides in agreement. */
  lemma DissociateSynced(prizes: map<PrizeId, Option<AuthorId>>, authorPrizes: map<AuthorId, seq<PrizeId>>,
                         prizeId: PrizeId)
    requires Synced(prizes, authorPrizes)
    requires prizeId in prizes && prizes[prizeId].Some?
    ensures var a := prizes[prizeId].value;
            Synced(prizes[prizeId := None], authorPrizes[a := RemoveFirst(authorPrizes[a], prizeId)])
  {
    var a := prizes[prizeId].value;
    RemoveFirstNoDup(authorPrizes[a], prizeId);
    RemoveFirstMembers(authorPrizes[a], prizeId);
    DissociateKeeping(prizes, authorPrizes, prizeId, a, RemoveFirst(authorPrizes[a], prizeId));
  }

  /** DissociateSynced for any new collection of the author that holds the
      other prizes it held, once each, and not the removed one. */
  lemma DissociateKeeping(prizes: map<PrizeId, Option<AuthorId>>, authorPrizes: map<AuthorId, seq<PrizeId>>,
                          prizeId: PrizeId, a: AuthorId, kept: seq<PrizeId>)
    requires Synced(prizes, authorPrizes)
    requires prizeId in prizes && prizes[prizeId] == Some(a)
    requires NoDup(kept) && prizeId !in kept
    requires forall p | p in kept :: p in authorPrizes[a]
    requires forall p | p in authorPrizes[a] && p != prizeId :: p in kept
    ensures Synced(prizes[prizeId := None], authorPrizes[a := kept])
  {
  }

  class PrizeAuthorService {
    /** The repositories, supplied at construction. */
    const store: Store

    constructor(store: Store)
      ensures this.store == store
    {
      this.store := store;
    }

    /** Sets the prize's author; the author lookup comes before the prize
        lookup. The previous author's prize collection is not updated. */
    method AddAuthor(authorId: AuthorId, prizeId: PrizeId) returns (r: Outcome<AuthorId>)
      requires store.Valid()
      modifies store`prizes
      ensures store.Valid()
      ensures authorId !in store.authors ==> r == NotFound(AuthorRecord)
      ensures authorId in store.authors && prizeId !in old(store.prizes) ==> r == NotFound(PrizeRecord)
      ensures r.Ok? <==> authorId in store.authors && prizeId in old(store.prizes)
      ensures !r.Ok? ==> store.prizes == old(store.prizes)
      ensures r.Ok? ==> r.value == authorId && store.prizes == old(store.prizes)[prizeId := Some(authorId)]
      ensures r.Ok? ==> GetAuthor(prizeId) == Ok(authorId)
      ensures r.Ok? && Synced(old(store.prizes), store.authorPrizes) ==>
                (Synced(store.prizes, store.authorPrizes) <==> old(store.prizes)[prizeId] == Some(authorId))
    {
      if authorId !in store.authors {
        return NotFound(AuthorRecord);
      }
      if prizeId !in store.prizes {
        return NotFound(PrizeRecord);
      }
      if Synced(store.prizes, store.authorPrizes) {
        AssociateSynced(store.prizes, store.authorPrizes, prizeId, authorId);
      }
      store.prizes := store.prizes[prizeId := Some(authorId)];
      return Ok(authorId);
    }

    /** The prize's author; a prize without one is reported as not found. */
    function GetAuthor(prizeId: PrizeId): (r: Outcome<AuthorId>)
      reads store
      ensures prizeId !in store.prizes ==> r == NotFound(PrizeRecord)
      ensures prizeId in store.prizes && store.prizes[prizeId] == None ==> r == NotFound(PrizeAuthor)
      ensures r.Ok? <==> prizeId in store.prizes && store.prizes[prizeId].Some?
      ensures r.Ok? ==> store.prizes[prizeId] == Some(r.value)
      ensures r.Ok? && store.Valid() ==> r.value in store.authors
    {
      if prizeId !in store.prizes then NotFound(PrizeRecord)
      else match store.prizes[prizeId]
        case None => NotFound(PrizeAuthor)
        case Some(a) => Ok(a)
    }

    /** The same checks, effect and result as AddAuthor, with the arguments
        in the other order. */
    method ReplaceAuthor(prizeId: PrizeId, authorId: AuthorId) returns (r: Outcome<AuthorId>)
      requires store.Valid()
      modifies store`prizes
      ensures store.Valid()
      ensures authorId !in store.authors ==> r == NotFound(AuthorRecord)
      ensures authorId in store.authors && prizeId !in old(store.prizes) ==> r == NotFound(PrizeRecord)
      ensures r.Ok? <==> authorId in store.authors && prizeId in old(store.prizes)
      ensures !r.Ok? ==> store.prizes == old(store.prizes)
      ensures r.Ok? ==> r.value == authorId && store.prizes == old(store.prizes)[prizeId := Some(authorId)]
      ensures r.Ok? ==> GetAuthor(prizeId) == Ok(authorId)
      ensures r.Ok? && Synced(old(store.prizes), store.authorPrizes) ==>
                (Synced(store.prizes, store.authorPrizes) <==> old(store.prizes)[prizeId] == Some(authorId))
    {
      if authorId !in store.authors {
        return NotFound(AuthorRecord);
      }
      if prizeId !in store.prizes {
        return NotFound(PrizeRecord);
      }
      if Synced(store.prizes, store.authorPrizes) {
        AssociateSynced(store.prizes, store.authorPrizes, prizeId, authorId);
      }
      store.prizes := store.prizes[prizeId := Some(authorId)];
      return Ok(authorId);
    }

    /** Clears the prize's author and removes the prize from that author's
        prize collection. */
    method RemoveAuthor(prizeId: PrizeId) returns (r: Outcome<()>)
      requires store.Valid()
      modifies store`prizes, store`authorPrizes
      ensures store.Valid()
      ensures prizeId !in old(store.prizes) ==> r == NotFound(PrizeRecord)
      ensures prizeId in old(store.prizes) && old(store.prizes)[prizeId] == None ==> r == NotFound(PrizeAuthor)
      ensures r.Ok? <==> prizeId in old(store.prizes) && old(store.prizes)[prizeId].Some?
      ensures !r.Ok? ==> store.prizes == old(store.prizes) && store.authorPrizes == old(store.authorPrizes)
      ensures r.Ok? ==>
                var a := old(store.prizes)[prizeId].value;
                && store.prizes == old(store.prizes)[prizeId := None]
                && store.authorPrizes == old(store.authorPrizes)[a := RemoveFirst(old(store.authorPrizes)[a], prizeId)]
      ensures r.Ok? ==> GetAuthor(prizeId) == NotFound(PrizeAuthor)
      ensures Synced(old(store.prizes), old(store.authorPrizes)) ==> Synced(store.prizes, store.authorPrizes)
    {
      if prizeId !in store.prizes {
        return NotFound(PrizeRecord);
      }
      if store.prizes[prizeId] == None {
        return NotFound(PrizeAuthor);
      }
      // Store.Valid() guarantees the referenced author resolves.
      var authorId := store.prizes[prizeId].value;
      ghost var prizes, authorPrizes := store.prizes, store.authorPrizes;
      store.prizes := store.prizes[prizeId := None];
      store.authorPrizes := store.authorPrizes[authorId := RemoveFirst(store.authorPrizes[authorId], prizeId)];
      assert store.authorPrizes.Keys == authorPrizes.Keys;
      if Synced(prizes, authorPrizes) {
        DissociateSynced(prizes, authorPrizes, prizeId);
      }
      return Ok(());
    }
  }
}
