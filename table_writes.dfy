/** The invariant of the tables under each kind of row write the trade calls
    make: a trade row replaced or inserted, a wish row replaced, a store row
    replaced, a claim row inserted or replaced, a claim row replaced together with its share's stock. Each
    conjunct of the invariant is carried over on its own. */
module TableWrites {
  import opened Common
  import opened Database
  import opened WishEntity
  import opened StoreEntity
  import opened ClaimEntity
  import opened TradeEntity
  import opened ShareEntity

  /* A trade row replaced by one with the same id, claim and share. */

  lemma TradeReplacedKeys(t: Tables, id: int, row: TradeRow)
    requires KeysConsistent(t) && id in t.trades && row.id == id
    ensures KeysConsistent(t.(trades := t.trades[id := row]))
  {
  }

  lemma TradeReplacedQuantities(t: Tables, id: int, row: TradeRow)
    requires QuantitiesInRange(t)
    ensures QuantitiesInRange(t.(trades := t.trades[id := row]))
  {
    var u := t.(trades := t.trades[id := row]);
    assert forall sid :: sid in t.shares ==> Committed(u, sid) == Committed(t, sid);
  }

  lemma TradeReplacedUnique(t: Tables, id: int, row: TradeRow)
    requires Unique(t) && id in t.trades && row.claimId == t.trades[id].claimId
    ensures Unique(t.(trades := t.trades[id := row]))
  {
  }

  lemma TradeReplacedLinked(t: Tables, id: int, row: TradeRow)
    requires Linked(t) && id in t.trades
    requires row.claimId == t.trades[id].claimId && row.shareId == t.trades[id].shareId
    requires TradeEntity.WellFormed(row) && (row.status == Matched ==> t.trades[id].status == Matched)
    ensures Linked(t.(trades := t.trades[id := row]))
  {
  }

  /** Replacing a trade row by one with the same id, claim and share that is
      well-formed and MATCHED only if it was keeps the invariant. */
  lemma TradeReplaced(t: Tables, id: int, row: TradeRow)
    requires Invariant(t) && id in t.trades
    requires row.id == id && row.claimId == t.trades[id].claimId && row.shareId == t.trades[id].shareId
    requires TradeEntity.WellFormed(row) && (row.status == Matched ==> t.trades[id].status == Matched)
    ensures Invariant(t.(trades := t.trades[id := row]))
  {
    TradeReplacedKeys(t, id, row);
    TradeReplacedQuantities(t, id, row);
    TradeReplacedUnique(t, id, row);
    TradeReplacedLinked(t, id, row);
  }

  /* A new trade row under the next id. */

  lemma TradeInsertedKeys(t: Tables, row: TradeRow)
    requires KeysConsistent(t) && row.id == t.nextTradeId
    ensures KeysConsistent(t.(trades := t.trades[row.id := row], nextTradeId := t.nextTradeId + 1))
  {
  }

  lemma TradeInsertedQuantities(t: Tables, row: TradeRow)
    requires QuantitiesInRange(t)
    ensures QuantitiesInRange(t.(trades := t.trades[row.id := row], nextTradeId := t.nextTradeId + 1))
  {
    var u := t.(trades := t.trades[row.id := row], nextTradeId := t.nextTradeId + 1);
    assert forall sid :: sid in t.shares ==> Committed(u, sid) == Committed(t, sid);
  }

  lemma TradeInsertedUnique(t: Tables, row: TradeRow)
    requires Unique(t) && KeysConsistent(t) && row.id == t.nextTradeId && !HasTradeFor(t.trades, row.claimId)
    ensures Unique(t.(trades := t.trades[row.id := row], nextTradeId := t.nextTradeId + 1))
  {
    assert row.id !in t.trades;
  }

  lemma TradeInsertedLinked(t: Tables, row: TradeRow)
    requires Linked(t) && KeysConsistent(t) && row.id == t.nextTradeId && TradeEntity.WellFormed(row)
    requires row.claimId in t.claims && t.claims[row.claimId].shareId == row.shareId
    requires row.status == Matched ==> t.claims[row.claimId].status == Accepted
    ensures Linked(t.(trades := t.trades[row.id := row], nextTradeId := t.nextTradeId + 1))
  {
    assert row.id !in t.trades;
  }

  /** Inserting a well-formed trade under the next id, for a claim of the
      tables that has no trade yet, on the claim's share, and MATCHED only
      when the claim is ACCEPTED, keeps the invariant (uk_trade_claim
      included). */
  lemma TradeInserted(t: Tables, row: TradeRow)
    requires Invariant(t) && row.id == t.nextTradeId && TradeEntity.WellFormed(row)
    requires !HasTradeFor(t.trades, row.claimId)
    requires row.claimId in t.claims && t.claims[row.claimId].shareId == row.shareId
    requires row.status == Matched ==> t.claims[row.claimId].status == Accepted
    ensures Invariant(t.(trades := t.trades[row.id := row], nextTradeId := t.nextTradeId + 1))
  {
    TradeInsertedKeys(t, row);
    TradeInsertedQuantities(t, row);
    TradeInsertedUnique(t, row);
    TradeInsertedLinked(t, row);
  }

  /* A wish row replaced by one with the same id and quantity. */

  lemma WishReplacedKeys(t: Tables, id: int, row: WishRow)
    requires KeysConsistent(t) && id in t.wishes && row.id == id
    ensures KeysConsistent(t.(wishes := t.wishes[id := row]))
  {
  }

  lemma WishReplacedQuantities(t: Tables, id: int, row: WishRow)
    requires QuantitiesInRange(t) && id in t.wishes && row.quantity == t.wishes[id].quantity
    ensures QuantitiesInRange(t.(wishes := t.wishes[id := row]))
  {
    var u := t.(wishes := t.wishes[id := row]);
    assert forall sid :: sid in t.shares ==> Committed(u, sid) == Committed(t, sid);
  }

  /** Replacing a wish row by one with the same id and quantity keeps the
      invariant. */
  lemma WishReplaced(t: Tables, id: int, row: WishRow)
    requires Invariant(t) && id in t.wishes && row.id == id && row.quantity == t.wishes[id].quantity
    ensures Invariant(t.(wishes := t.wishes[id := row]))
  {
    WishReplacedKeys(t, id, row);
    WishReplacedQuantities(t, id, row);
  }

  /* A store row replaced by one with the same id and owner. */

  lemma StoreReplacedKeys(t: Tables, id: int, row: StoreRow)
    requires KeysConsistent(t) && id in t.stores && row.id == id
    ensures KeysConsistent(t.(stores := t.stores[id := row]))
  {
  }

  lemma StoreReplacedQuantities(t: Tables, id: int, row: StoreRow)
    requires QuantitiesInRange(t)
    ensures QuantitiesInRange(t.(stores := t.stores[id := row]))
  {
    var u := t.(stores := t.stores[id := row]);
    assert forall sid :: sid in t.shares ==> Committed(u, sid) == Committed(t, sid);
  }

  lemma StoreReplacedLinked(t: Tables, id: int, row: StoreRow)
    requires Linked(t) && id in t.stores && row.owner == t.stores[id].owner
    ensures Linked(t.(stores := t.stores[id := row]))
  {
  }

  /** Replacing a store row by one with the same id and owner keeps the
      invariant. */
  lemma StoreReplaced(t: Tables, id: int, row: StoreRow)
    requires Invariant(t) && id in t.stores && row.id == id && row.owner == t.stores[id].owner
    ensures Invariant(t.(stores := t.stores[id := row]))
  {
    StoreReplacedKeys(t, id, row);
    StoreReplacedQuantities(t, id, row);
    StoreReplacedLinked(t, id, row);
  }

  /* A claim row replaced by one with the same id, wish, share and
     quantity, with the stock of its share moved by what the claim has
     taken out of it or given back. */

  /** The tables after the claim write and the share write. */
  function ClaimAndShare(t: Tables, row: ClaimRow, srow: ShareRow): Tables {
    t.(claims := t.claims[row.id := row], shares := t.shares[srow.id := srow])
  }

  /** The claim and share rows fit together: same keys, and the share's stock
      moves by exactly what the claim's contribution moves by. */
  predicate StockMoved(t: Tables, row: ClaimRow, srow: ShareRow)
    requires row.id in t.claims
  {
    var c := t.claims[row.id];
    && row.wishId == c.wishId && row.shareId == c.shareId && row.quantity == c.quantity
    && srow.id == c.shareId && srow.id in t.shares
    && srow.quantity == t.shares[srow.id].quantity + Contribution(c, srow.id) - Contribution(row, srow.id)
  }

  /** The committed stock of every share stays. */
  lemma ClaimAndShareConserves(t: Tables, row: ClaimRow, srow: ShareRow)
    requires KeysConsistent(t) && row.id in t.claims && StockMoved(t, row, srow)
    ensures Conserves(t, ClaimAndShare(t, row, srow))
  {
    var u := ClaimAndShare(t, row, srow);
    var c := t.claims[row.id];
    forall sid | sid in t.shares
      ensures Committed(u, sid) == Committed(t, sid)
    {
      SumUpdate(t.claims, sid, t.nextClaimId, row.id, row);
      if sid != srow.id {
        assert Contribution(c, sid) == 0 == Contribution(row, sid);
      }
    }
  }

  lemma ClaimAndShareKeys(t: Tables, row: ClaimRow, srow: ShareRow)
    requires KeysConsistent(t) && row.id in t.claims && StockMoved(t, row, srow)
    ensures KeysConsistent(ClaimAndShare(t, row, srow))
  {
  }

  lemma ClaimAndShareQuantities(t: Tables, row: ClaimRow, srow: ShareRow)
    requires KeysConsistent(t) && QuantitiesInRange(t) && row.id in t.claims && StockMoved(t, row, srow)
    requires srow.quantity >= 0
    ensures QuantitiesInRange(ClaimAndShare(t, row, srow))
  {
    ClaimAndShareConserves(t, row, srow);
  }

  lemma ClaimAndShareUnique(t: Tables, row: ClaimRow, srow: ShareRow)
    requires Unique(t) && row.id in t.claims && StockMoved(t, row, srow)
    ensures Unique(ClaimAndShare(t, row, srow))
  {
  }

  lemma ClaimAndShareLinked(t: Tables, row: ClaimRow, srow: ShareRow)
    requires Linked(t) && row.id in t.claims && StockMoved(t, row, srow) && ClaimEntity.WellFormed(row)
    requires forall k :: k in t.trades && t.trades[k].claimId == row.id && t.trades[k].status == Matched ==>
      row.status == Accepted
    ensures Linked(ClaimAndShare(t, row, srow))
  {
  }

  /** Replacing a claim row and moving its share's stock by the change in
      what the claim holds keeps the invariant and the committed stock, when
      the stock stays non-negative, the new row is well-formed, and no
      MATCHED trade is left with a claim that is not ACCEPTED. */
  lemma ClaimAndShareReplaced(t: Tables, row: ClaimRow, srow: ShareRow)
    requires Invariant(t) && row.id in t.claims && StockMoved(t, row, srow)
    requires srow.quantity >= 0 && ClaimEntity.WellFormed(row)
    requires forall k :: k in t.trades && t.trades[k].claimId == row.id && t.trades[k].status == Matched ==>
      row.status == Accepted
    ensures Invariant(ClaimAndShare(t, row, srow)) && Conserves(t, ClaimAndShare(t, row, srow))
  {
    ClaimAndShareConserves(t, row, srow);
    ClaimAndShareKeys(t, row, srow);
    ClaimAndShareQuantities(t, row, srow);
    ClaimAndShareUnique(t, row, srow);
    ClaimAndShareLinked(t, row, srow);
  }

  /* A new claim row under the next id. */

  lemma ClaimInsertedQuantities(t: Tables, row: ClaimRow)
    requires QuantitiesInRange(t) && row.id == t.nextClaimId && row.status == Pending
    requires 1 <= row.quantity <= INT_MAX
    ensures var u := t.(claims := t.claims[row.id := row], nextClaimId := t.nextClaimId + 1);
      QuantitiesInRange(u) && Conserves(t, u)
  {
    var u := t.(claims := t.claims[row.id := row], nextClaimId := t.nextClaimId + 1);
    forall sid | sid in t.shares
      ensures Committed(u, sid) == Committed(t, sid)
    {
      SumExtended(t.claims, sid, t.nextClaimId, row);
    }
  }

  lemma ClaimInsertedUnique(t: Tables, row: ClaimRow)
    requires Unique(t) && KeysConsistent(t) && row.id == t.nextClaimId
    requires !HasClaimFor(t.claims, row.wishId, row.shareId)
    ensures Unique(t.(claims := t.claims[row.id := row], nextClaimId := t.nextClaimId + 1))
  {
    assert row.id !in t.claims;
  }

  lemma ClaimInsertedLinked(t: Tables, row: ClaimRow)
    requires Linked(t) && KeysConsistent(t) && row.id == t.nextClaimId
    requires ClaimEntity.WellFormed(row) && row.shareId < t.nextShareId
    ensures Linked(t.(claims := t.claims[row.id := row], nextClaimId := t.nextClaimId + 1))
  {
    var u := t.(claims := t.claims[row.id := row], nextClaimId := t.nextClaimId + 1);
    assert row.id !in t.claims;
    assert forall k :: k in t.trades ==> t.trades[k].claimId != row.id;
    assert forall k :: k in u.trades && u.trades[k].claimId in u.claims ==> u.trades[k].claimId in t.claims;
  }

  /** Inserting a PENDING, well-formed claim under the next id, on a share
      below the next share id, for a wish and share pair with no claim yet
      and a quantity of at least one that fits Java's `int`, keeps the
      invariant (uk_wish_share included) and the committed stock. */
  lemma ClaimInserted(t: Tables, row: ClaimRow)
    requires Invariant(t) && row.id == t.nextClaimId && row.status == Pending && ClaimEntity.WellFormed(row)
    requires !HasClaimFor(t.claims, row.wishId, row.shareId) && row.shareId < t.nextShareId
    requires 1 <= row.quantity <= INT_MAX
    ensures var u := t.(claims := t.claims[row.id := row], nextClaimId := t.nextClaimId + 1);
      Invariant(u) && Conserves(t, u)
  {
    ClaimInsertedQuantities(t, row);
    ClaimInsertedUnique(t, row);
    ClaimInsertedLinked(t, row);
  }

  /* A claim row replaced by one with the same id, wish, share and
     quantity, and the same contribution to the stock. */

  lemma ClaimReplacedQuantities(t: Tables, row: ClaimRow)
    requires QuantitiesInRange(t) && KeysConsistent(t) && row.id in t.claims
    requires row.shareId == t.claims[row.id].shareId && row.quantity == t.claims[row.id].quantity
    requires (row.status == Accepted) == (t.claims[row.id].status == Accepted)
    ensures var u := t.(claims := t.claims[row.id := row]);
      QuantitiesInRange(u) && Conserves(t, u)
  {
    var u := t.(claims := t.claims[row.id := row]);
    forall sid | sid in t.shares
      ensures Committed(u, sid) == Committed(t, sid)
    {
      SumUpdate(t.claims, sid, t.nextClaimId, row.id, row);
    }
  }

  lemma ClaimReplacedUnique(t: Tables, row: ClaimRow)
    requires Unique(t) && row.id in t.claims
    requires row.wishId == t.claims[row.id].wishId && row.shareId == t.claims[row.id].shareId
    ensures Unique(t.(claims := t.claims[row.id := row]))
  {
  }

  lemma ClaimReplacedLinked(t: Tables, row: ClaimRow)
    requires Linked(t) && row.id in t.claims && ClaimEntity.WellFormed(row)
    requires row.shareId == t.claims[row.id].shareId
    requires forall k :: k in t.trades && t.trades[k].claimId == row.id && t.trades[k].status == Matched ==>
      row.status == Accepted
    ensures Linked(t.(claims := t.claims[row.id := row]))
  {
  }

  /** Replacing a claim row by a well-formed one with the same keys and
      quantity that is ACCEPTED exactly when the old one was, and that leaves
      no MATCHED trade with a claim that is not ACCEPTED, keeps the invariant
      and the committed stock. */
  lemma ClaimReplaced(t: Tables, row: ClaimRow)
    requires Invariant(t) && row.id in t.claims && ClaimEntity.WellFormed(row)
    requires row.wishId == t.claims[row.id].wishId && row.shareId == t.claims[row.id].shareId
    requires row.quantity == t.claims[row.id].quantity
    requires (row.status == Accepted) == (t.claims[row.id].status == Accepted)
    requires forall k :: k in t.trades && t.trades[k].claimId == row.id && t.trades[k].status == Matched ==>
      row.status == Accepted
    ensures var u := t.(claims := t.claims[row.id := row]);
      Invariant(u) && Conserves(t, u)
  {
    ClaimReplacedQuantities(t, row);
    ClaimReplacedUnique(t, row);
    ClaimReplacedLinked(t, row);
  }
}
