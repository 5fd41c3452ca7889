/** The database as plain rows: the five tables with their next IDENTITY
    values, the unique keys, the invariant the services keep, and the stock
    that accepted claims commit. The services are specified over it. */
module Database {
  import opened Common
  import opened WishEntity
  import opened StoreEntity
  import opened ShareEntity
  import opened ClaimEntity
  import opened TradeEntity

  /** All rows of the five tables and the next id of each. */
  datatype Tables = Tables(
    wishes: map<int, WishRow>,
    shares: map<int, ShareRow>,
    claims: map<int, ClaimRow>,
    trades: map<int, TradeRow>,
    stores: map<int, StoreRow>,
    nextWishId: nat,
    nextShareId: nat,
    nextClaimId: nat,
    nextTradeId: nat,
    nextStoreId: nat)

  /** What a transactional service call ends with: its result and the tables
      after it (the tables before it when it throws). */
  datatype Step<+T> = Step(result: Result<T>, tables: Tables)

  /** uk_wish_share: is there a claim of this wish on this share? */
  predicate HasClaimFor(claims: map<int, ClaimRow>, wishId: int, shareId: int) {
    exists k :: k in claims && claims[k].wishId == wishId && claims[k].shareId == shareId
  }

  /** uk_trade_claim: is there a trade for this claim? */
  predicate HasTradeFor(trades: map<int, TradeRow>, claimId: int) {
    exists k :: k in trades && trades[k].claimId == claimId
  }

  /* ---------------------------------------------------------------------
     Stock conservation. A share's committed stock is what it still holds
     plus what its ACCEPTED claims have taken out of it.
     --------------------------------------------------------------------- */

  /** What a claim has taken out of share `sid`. */
  function Contribution(c: ClaimRow, sid: int): int {
    if c.shareId == sid && c.status == Accepted then c.quantity else 0
  }

  /** The quantities of the ACCEPTED claims on `sid` among claim ids [0, n). */
  function AcceptedSum(claims: map<int, ClaimRow>, sid: int, n: int): int
    decreases n
  {
    if n <= 0 then 0
    else AcceptedSum(claims, sid, n - 1) + (if n - 1 in claims then Contribution(claims[n - 1], sid) else 0)
  }

  function Committed(t: Tables, sid: int): int
    requires sid in t.shares
  {
    t.shares[sid].quantity + AcceptedSum(t.claims, sid, t.nextClaimId)
  }

  /** Replacing one claim row changes the sum by exactly the difference of the
      two rows' contributions. */
  lemma {:induction false} SumUpdate(claims: map<int, ClaimRow>, sid: int, n: int, id: int, c: ClaimRow)
    requires id in claims && 0 <= id < n
    ensures AcceptedSum(claims[id := c], sid, n)
         == AcceptedSum(claims, sid, n) - Contribution(claims[id], sid) + Contribution(c, sid)
    decreases n
  {
    if n - 1 != id {
      SumUpdate(claims, sid, n - 1, id, c);
    } else {
      SumBeyond(claims, sid, n - 1, id, c);
    }
  }

  /** Rows at or beyond n do not enter the sum. */
  lemma {:induction false} SumBeyond(claims: map<int, ClaimRow>, sid: int, n: int, id: int, c: ClaimRow)
    requires id >= n
    ensures AcceptedSum(claims[id := c], sid, n) == AcceptedSum(claims, sid, n)
    decreases n
  {
    if n > 0 {
      SumBeyond(claims, sid, n - 1, id, c);
    }
  }

  /** A row added under the next id adds its own contribution. */
  lemma SumExtended(claims: map<int, ClaimRow>, sid: int, n: int, c: ClaimRow)
    requires n >= 0
    ensures AcceptedSum(claims[n := c], sid, n + 1) == AcceptedSum(claims, sid, n) + Contribution(c, sid)
  {
    SumBeyond(claims, sid, n, n, c);
  }

  /** With non-negative quantities, each claim's contribution is part of the
      sum, and the sum is not negative. */
  lemma {:induction false} SumCovers(claims: map<int, ClaimRow>, sid: int, n: int, id: int)
    requires forall k :: k in claims ==> claims[k].quantity >= 0
    requires id in claims && 0 <= id < n
    ensures 0 <= Contribution(claims[id], sid) <= AcceptedSum(claims, sid, n)
    decreases n
  {
    SumNonNegative(claims, sid, n - 1);
    if n - 1 != id {
      SumCovers(claims, sid, n - 1, id);
    }
  }

  lemma {:induction false} SumNonNegative(claims: map<int, ClaimRow>, sid: int, n: int)
    requires forall k :: k in claims ==> claims[k].quantity >= 0
    ensures AcceptedSum(claims, sid, n) >= 0
    decreases n
  {
    if n > 0 {
      SumNonNegative(claims, sid, n - 1);
    }
  }

  /** A share no claim refers to has nothing committed to claims. */
  lemma {:induction false} SumUnreferenced(claims: map<int, ClaimRow>, sid: int, n: int)
    requires forall k :: k in claims ==> claims[k].shareId != sid
    ensures AcceptedSum(claims, sid, n) == 0
    decreases n
  {
    if n > 0 {
      SumUnreferenced(claims, sid, n - 1);
    }
  }

  /** The stock in hand and committed to accepted claims is the same before
      and after, for every share that existed before. */
  predicate Conserves(t: Tables, u: Tables) {
    forall sid :: sid in t.shares ==> sid in u.shares && Committed(u, sid) == Committed(t, sid)
  }

  /** A step that writes neither shares nor claims, nor inserts a claim,
      conserves the stock. */
  lemma ConservesUntouched(t: Tables, u: Tables)
    requires u.shares == t.shares && u.claims == t.claims && u.nextClaimId == t.nextClaimId
    ensures Conserves(t, u)
  {
    forall sid | sid in t.shares
      ensures Committed(u, sid) == Committed(t, sid)
    {
    }
  }

  lemma ConservesTransitive(t: Tables, u: Tables, v: Tables)
    requires Conserves(t, u) && Conserves(u, v)
    ensures Conserves(t, v)
  {
  }

  /** The tables with one share's image list replaced. */
  function WithImages(t: Tables, id: int, images: seq<ShareImage>): (u: Tables)
    requires id in t.shares
    ensures id in u.shares
  {
    t.(shares := t.shares[id := t.shares[id].(images := images)])
  }

  /** Of two replacements of the same image list, the second one stands. */
  lemma WithImagesTwice(t: Tables, id: int, a: seq<ShareImage>, b: seq<ShareImage>)
    requires id in t.shares
    ensures WithImages(WithImages(t, id, a), id, b) == WithImages(t, id, b)
  {
  }

  /* ---------------------------------------------------------------------
     The invariant of the tables.
     --------------------------------------------------------------------- */

  /** Every row sits under its own id, below the table's next id. */
  predicate KeysConsistent(t: Tables) {
    && (forall k :: k in t.wishes ==> t.wishes[k].id == k && 0 <= k < t.nextWishId)
    && (forall k :: k in t.shares ==> t.shares[k].id == k && 0 <= k < t.nextShareId)
    && (forall k :: k in t.claims ==> t.claims[k].id == k && 0 <= k < t.nextClaimId)
    && (forall k :: k in t.trades ==> t.trades[k].id == k && 0 <= k < t.nextTradeId)
    && (forall k :: k in t.stores ==> t.stores[k].id == k && 0 <= k < t.nextStoreId)
  }

  /** Quantities fit Java's `int`: a wish and a claim ask for at least one
      item, and a share's stock is never negative and, with what its accepted
      claims hold, still fits. */
  predicate QuantitiesInRange(t: Tables) {
    && (forall k :: k in t.wishes ==> 1 <= t.wishes[k].quantity <= INT_MAX)
    && (forall k :: k in t.claims ==> 1 <= t.claims[k].quantity <= INT_MAX)
    && (forall sid :: sid in t.shares ==> t.shares[sid].quantity >= 0 && Committed(t, sid) <= INT_MAX)
  }

  /** uk_wish_share and uk_trade_claim hold. */
  predicate Unique(t: Tables) {
    && (forall a, b :: a in t.claims && b in t.claims && a != b ==>
          t.claims[a].wishId != t.claims[b].wishId || t.claims[a].shareId != t.claims[b].shareId)
    && (forall a, b :: a in t.trades && b in t.trades && a != b ==>
          t.trades[a].claimId != t.trades[b].claimId)
  }

  /** Each claim and trade row is well-formed, points below the next ids, and
      a trade agrees with its claim: same share, and a MATCHED trade's claim
      is ACCEPTED. A store has its own owner. */
  predicate Linked(t: Tables) {
    && (forall k :: k in t.claims ==> ClaimEntity.WellFormed(t.claims[k]) && t.claims[k].shareId < t.nextShareId)
    && (forall k :: k in t.trades ==> TradeEntity.WellFormed(t.trades[k]) && t.trades[k].claimId < t.nextClaimId)
    && (forall k :: k in t.trades && t.trades[k].claimId in t.claims ==>
          var c := t.claims[t.trades[k].claimId];
          c.shareId == t.trades[k].shareId && (t.trades[k].status == Matched ==> c.status == Accepted))
    && OwnersUnique(t.stores)
  }

  /** A member owns at most one store. */
  predicate OwnersUnique(stores: map<int, StoreRow>) {
    forall a, b :: a in stores && b in stores && a != b && stores[a].owner.Some? ==>
      stores[a].owner != stores[b].owner
  }

  /** findByOwnerId: the store a member owns, if there is one; with owners
      unique, the only one. */
  ghost function StoreOwnedBy(stores: map<int, StoreRow>, memberId: int): (r: Option<int>)
    ensures r.Some? ==> r.value in stores && stores[r.value].owner == Some(memberId)
    ensures r.None? <==> forall k :: k in stores ==> stores[k].owner != Some(memberId)
    ensures OwnersUnique(stores) && r.Some? ==>
      forall k :: k in stores && stores[k].owner == Some(memberId) ==> k == r.value
  {
    if exists k :: k in stores && stores[k].owner == Some(memberId) then
      var k :| k in stores && stores[k].owner == Some(memberId);
      Some(k)
    else None
  }

  predicate Invariant(t: Tables) {
    KeysConsistent(t) && QuantitiesInRange(t) && Unique(t) && Linked(t)
  }

  /** The empty database satisfies the invariant. */
  lemma EmptyInvariant()
    ensures Invariant(Tables(map[], map[], map[], map[], map[], 0, 0, 0, 0, 0))
  {
  }
}
