/** ClaimService: a wish's store asking for a share, and the share's side
    accepting or rejecting the claim, or the asking side cancelling it. Each
    public call is one transaction: when it throws, no write of it remains.
    The reply of each call is the claim's row. */
module ClaimService {
  import opened Common
  import opened Database
  import opened Repositories
  import opened ClaimEntity
  import opened ShareEntity
  import opened WishEntity
  import opened TableWrites
  import TradeEntity
  import TradeService

  /* ---------------------------------------------------------------------
     The calls as functions of the tables.
     --------------------------------------------------------------------- */

  /** request: NOT_FOUND for an unknown wish or share; BAD_REQUEST when the
      wish already has a claim on the share (uk_wish_share); otherwise a new
      PENDING claim under the next id, by the wish's store for the wish's
      quantity. */
  function RequestStep(t: Tables, wishId: int, shareId: int): Step<ClaimRow> {
    if wishId !in t.wishes || shareId !in t.shares then Step(Err(NotFound), t)
    else if HasClaimFor(t.claims, wishId, shareId) then Step(Err(BadRequest), t)
    else
      var w := t.wishes[wishId];
      var c := ClaimRow(t.nextClaimId, wishId, shareId, w.storeId, w.quantity, Pending, None);
      Step(Ok(c), t.(claims := t.claims[c.id := c], nextClaimId := t.nextClaimId + 1))
  }

  /** accept: NOT_FOUND for an unknown claim; a claim that is no longer
      PENDING is returned as it is. Otherwise its share is loaded (NOT_FOUND
      when missing); with too little stock the claim is rejected; with
      enough, the stock goes down by the claim's quantity, the claim is
      accepted and its trade made, and when making the trade throws nothing
      of the call remains. */
  function AcceptStep(t: Tables, claimId: int, now: int): Step<ClaimRow> {
    if claimId !in t.claims then Step(Err(NotFound), t)
    else
      var c := t.claims[claimId];
      if c.status != Pending then Step(Ok(c), t)
      else if c.shareId !in t.shares then Step(Err(NotFound), t)
      else
        var s := t.shares[c.shareId];
        if s.quantity < c.quantity then
          var c1 := Apply(c, RejectEvent, now);
          Step(Ok(c1), t.(claims := t.claims[claimId := c1]))
        else
          var c1 := Apply(c, AcceptEvent, now);
          var t1 := t.(shares := t.shares[c.shareId := Taken(s, c.quantity)], claims := t.claims[claimId := c1]);
          match TradeService.NewTrade(t1, c1, now)
          case Ok(t2) => Step(Ok(c1), t2)
          case Err(e) => Step(Err(e), t)
  }

  /** reject: NOT_FOUND for an unknown claim; a PENDING claim is rejected,
      any other is returned as it is. */
  function RejectStep(t: Tables, claimId: int, now: int): Step<ClaimRow> {
    if claimId !in t.claims then Step(Err(NotFound), t)
    else
      var c := t.claims[claimId];
      if c.status == Pending then
        var c1 := Apply(c, RejectEvent, now);
        Step(Ok(c1), t.(claims := t.claims[claimId := c1]))
      else Step(Ok(c), t)
  }

  /** cancel: NOT_FOUND for an unknown claim; a CANCELED or REJECTED claim is
      returned as it is, a PENDING one is cancelled, and an ACCEPTED one is
      BAD_REQUEST: it can only be cancelled through its trade. */
  function CancelStep(t: Tables, claimId: int, now: int): Step<ClaimRow> {
    if claimId !in t.claims then Step(Err(NotFound), t)
    else
      var c := t.claims[claimId];
      match c.status
      case Canceled => Step(Ok(c), t)
      case Rejected => Step(Ok(c), t)
      case Pending =>
        var c1 := Apply(c, CancelEvent, now);
        Step(Ok(c1), t.(claims := t.claims[claimId := c1]))
      case Accepted => Step(Err(BadRequest), t)
  }

  /* ---------------------------------------------------------------------
     What the calls promise.
     --------------------------------------------------------------------- */

  /** The wish has exactly one claim on the share. */
  predicate OneClaimFor(claims: map<int, ClaimRow>, wishId: int, shareId: int) {
    exists k :: k in claims && claims[k].wishId == wishId && claims[k].shareId == shareId &&
      forall j :: j in claims && claims[j].wishId == wishId && claims[j].shareId == shareId ==> j == k
  }

  /** request: an unknown wish or share is NOT_FOUND and a second claim of
      the wish on the share is BAD_REQUEST, with nothing written. A new claim
      is PENDING, undecided, by the wish's store for the wish's quantity, and
      every other claim stays. Once a request has succeeded, the pair has
      exactly one claim and asking again is BAD_REQUEST. */
  lemma RequestOutcome(t: Tables, wishId: int, shareId: int)
    requires Invariant(t)
    ensures var r := RequestStep(t, wishId, shareId);
      wishId !in t.wishes || shareId !in t.shares ==> r == Step(Err(NotFound), t)
    ensures var r := RequestStep(t, wishId, shareId);
      wishId in t.wishes && shareId in t.shares && HasClaimFor(t.claims, wishId, shareId) ==>
        r == Step(Err(BadRequest), t)
    ensures var r := RequestStep(t, wishId, shareId);
      r.result.Ok? ==>
        var c := r.result.value;
        var u := r.tables;
        && c.status == Pending && c.decidedAt.None? && c.wishId == wishId && c.shareId == shareId
        && c.quantity == t.wishes[wishId].quantity && c.requesterStoreId == t.wishes[wishId].storeId
        && c.id !in t.claims && u.claims.Keys == t.claims.Keys + {c.id} && u.claims[c.id] == c
        && (forall k :: k in t.claims ==> u.claims[k] == t.claims[k])
        && OneClaimFor(u.claims, wishId, shareId)
        && RequestStep(u, wishId, shareId) == Step(Err(BadRequest), u)
  {
    var r := RequestStep(t, wishId, shareId);
    if r.result.Ok? {
      var c := r.result.value;
      var u := r.tables;
      assert c.id !in t.claims;
      assert forall j :: j in u.claims && u.claims[j].wishId == wishId && u.claims[j].shareId == shareId ==> j == c.id;
      assert HasClaimFor(u.claims, wishId, shareId);
    }
  }

  /** request keeps the invariant and the committed stock. */
  lemma RequestKeepsInvariant(t: Tables, wishId: int, shareId: int)
    requires Invariant(t)
    ensures Invariant(RequestStep(t, wishId, shareId).tables)
    ensures Conserves(t, RequestStep(t, wishId, shareId).tables)
  {
    var r := RequestStep(t, wishId, shareId);
    if r.result.Ok? {
      ClaimInserted(t, r.result.value);
    } else {
      ConservesUntouched(t, t);
    }
  }

  /** accept: an unknown claim is NOT_FOUND; a claim that is not PENDING
      comes back unchanged with nothing written; a missing share is
      NOT_FOUND. With too little stock the claim becomes REJECTED at `now`
      and nothing else changes: no stock moves and no trade is made. With
      enough, the share's stock goes down by exactly the claim's quantity
      and stays non-negative, the claim becomes ACCEPTED at `now`, and the
      claim has exactly one trade; or, when making the trade throws, nothing
      is written. */
  lemma AcceptOutcome(t: Tables, claimId: int, now: int)
    requires Invariant(t)
    ensures var r := AcceptStep(t, claimId, now);
      claimId !in t.claims ==> r == Step(Err(NotFound), t)
    ensures var r := AcceptStep(t, claimId, now);
      claimId in t.claims && t.claims[claimId].status != Pending ==> r == Step(Ok(t.claims[claimId]), t)
    ensures var r := AcceptStep(t, claimId, now);
      claimId in t.claims && t.claims[claimId].status == Pending && t.claims[claimId].shareId !in t.shares ==>
        r == Step(Err(NotFound), t)
    ensures var r := AcceptStep(t, claimId, now);
      claimId in t.claims && t.claims[claimId].status == Pending && t.claims[claimId].shareId in t.shares ==>
        var c := t.claims[claimId];
        var sid := c.shareId;
        var u := r.tables;
        && (t.shares[sid].quantity < c.quantity ==>
              && r.result.Ok? && r.result.value.status == Rejected && r.result.value.decidedAt == Some(now)
              && u.claims == t.claims[claimId := r.result.value]
              && u.shares == t.shares && u.trades == t.trades)
        && (t.shares[sid].quantity >= c.quantity && r.result.Ok? ==>
              && r.result.value.status == Accepted && r.result.value.decidedAt == Some(now)
              && u.claims[claimId] == r.result.value
              && u.shares[sid].quantity == t.shares[sid].quantity - c.quantity >= 0
              && TradeService.OneTradeFor(u.trades, claimId))
        && (r.result.Err? ==> r.tables == t)
  {
    if claimId in t.claims && t.claims[claimId].status == Pending && t.claims[claimId].shareId in t.shares {
      var c := t.claims[claimId];
      var s := t.shares[c.shareId];
      if s.quantity >= c.quantity {
        var c1 := Apply(c, AcceptEvent, now);
        var t1 := t.(shares := t.shares[c.shareId := Taken(s, c.quantity)], claims := t.claims[claimId := c1]);
        AcceptedStock(t, claimId, now);
        if TradeService.NewTrade(t1, c1, now).Ok? {
          TradeService.NewTradeOnce(t1, c1, now);
        }
      }
    }
  }

  /** The share and claim writes of a successful accept keep the invariant
      and the committed stock: what leaves the share is what the claim now
      holds. */
  lemma AcceptedStock(t: Tables, claimId: int, now: int)
    requires Invariant(t) && claimId in t.claims && t.claims[claimId].status == Pending
    requires t.claims[claimId].shareId in t.shares
    requires t.shares[t.claims[claimId].shareId].quantity >= t.claims[claimId].quantity
    ensures var c := t.claims[claimId];
      var s := t.shares[c.shareId];
      var t1 := t.(shares := t.shares[c.shareId := Taken(s, c.quantity)],
                   claims := t.claims[claimId := Apply(c, AcceptEvent, now)]);
      Invariant(t1) && Conserves(t, t1) && t1.shares[c.shareId].quantity == s.quantity - c.quantity
  {
    var c := t.claims[claimId];
    var s := t.shares[c.shareId];
    var c1 := Apply(c, AcceptEvent, now);
    var srow := Taken(s, c.quantity);
    SumNonNegative(t.claims, c.shareId, t.nextClaimId);
    assert InInt32(s.quantity - c.quantity);
    ClaimEntity.ApplyWellFormed(c, AcceptEvent, now);
    assert StockMoved(t, c1, srow);
    ClaimAndShareReplaced(t, c1, srow);
    assert t.(shares := t.shares[c.shareId := srow], claims := t.claims[claimId := c1]) == ClaimAndShare(t, c1, srow);
  }

  /** accept keeps the invariant and the committed stock of every share. */
  lemma AcceptKeepsInvariant(t: Tables, claimId: int, now: int)
    requires Invariant(t)
    ensures Invariant(AcceptStep(t, claimId, now).tables)
    ensures Conserves(t, AcceptStep(t, claimId, now).tables)
  {
    var r := AcceptStep(t, claimId, now);
    if claimId in t.claims && t.claims[claimId].status == Pending && t.claims[claimId].shareId in t.shares {
      var c := t.claims[claimId];
      var s := t.shares[c.shareId];
      if s.quantity < c.quantity {
        var c1 := Apply(c, RejectEvent, now);
        ClaimEntity.ApplyWellFormed(c, RejectEvent, now);
        ClaimReplaced(t, c1);
      } else {
        var c1 := Apply(c, AcceptEvent, now);
        var t1 := t.(shares := t.shares[c.shareId := Taken(s, c.quantity)], claims := t.claims[claimId := c1]);
        AcceptedStock(t, claimId, now);
        if TradeService.NewTrade(t1, c1, now).Ok? {
          TradeService.NewTradeKeepsInvariant(t1, c1, now);
          ConservesTransitive(t, t1, r.tables);
        } else {
          ConservesUntouched(t, t);
        }
      }
    } else {
      ConservesUntouched(t, t);
    }
  }

  /** reject: an unknown claim is NOT_FOUND; a PENDING claim becomes REJECTED
      at `now` and nothing else changes; from every other status nothing is
      written. */
  lemma RejectOutcome(t: Tables, claimId: int, now: int)
    ensures var r := RejectStep(t, claimId, now);
      claimId !in t.claims ==> r == Step(Err(NotFound), t)
    ensures var r := RejectStep(t, claimId, now);
      claimId in t.claims && t.claims[claimId].status == Pending ==>
        && r.result.Ok? && r.result.value.status == Rejected && r.result.value.decidedAt == Some(now)
        && r.result.value.(status := Pending, decidedAt := t.claims[claimId].decidedAt) == t.claims[claimId]
        && r.tables == t.(claims := t.claims[claimId := r.result.value])
    ensures var r := RejectStep(t, claimId, now);
      claimId in t.claims && t.claims[claimId].status != Pending ==> r == Step(Ok(t.claims[claimId]), t)
  {
  }

  /** cancel: an unknown claim is NOT_FOUND; CANCELED and REJECTED claims
      come back unchanged; a PENDING one becomes CANCELED at `now` and
      nothing else changes; an ACCEPTED one is BAD_REQUEST with the claim
      unchanged. */
  lemma CancelOutcome(t: Tables, claimId: int, now: int)
    ensures var r := CancelStep(t, claimId, now);
      claimId !in t.claims ==> r == Step(Err(NotFound), t)
    ensures var r := CancelStep(t, claimId, now);
      claimId in t.claims && (t.claims[claimId].status == Canceled || t.claims[claimId].status == Rejected) ==>
        r == Step(Ok(t.claims[claimId]), t)
    ensures var r := CancelStep(t, claimId, now);
      claimId in t.claims && t.claims[claimId].status == Pending ==>
        && r.result.Ok? && r.result.value.status == Canceled && r.result.value.decidedAt == Some(now)
        && r.result.value.(status := Pending, decidedAt := t.claims[claimId].decidedAt) == t.claims[claimId]
        && r.tables == t.(claims := t.claims[claimId := r.result.value])
    ensures var r := CancelStep(t, claimId, now);
      claimId in t.claims && t.claims[claimId].status == Accepted ==> r == Step(Err(BadRequest), t)
  {
  }

  /** reject keeps the invariant and the committed stock. */
  lemma RejectKeepsInvariant(t: Tables, claimId: int, now: int)
    requires Invariant(t)
    ensures Invariant(RejectStep(t, claimId, now).tables)
    ensures Conserves(t, RejectStep(t, claimId, now).tables)
  {
    if claimId in t.claims && t.claims[claimId].status == Pending {
      var c := t.claims[claimId];
      ClaimEntity.ApplyWellFormed(c, RejectEvent, now);
      ClaimReplaced(t, Apply(c, RejectEvent, now));
    } else {
      ConservesUntouched(t, t);
    }
  }

  /** cancel keeps the invariant and the committed stock. */
  lemma CancelKeepsInvariant(t: Tables, claimId: int, now: int)
    requires Invariant(t)
    ensures Invariant(CancelStep(t, claimId, now).tables)
    ensures Conserves(t, CancelStep(t, claimId, now).tables)
  {
    if claimId in t.claims && t.claims[claimId].status == Pending {
      var c := t.claims[claimId];
      ClaimEntity.ApplyWellFormed(c, CancelEvent, now);
      ClaimReplaced(t, Apply(c, CancelEvent, now));
    } else {
      ConservesUntouched(t, t);
    }
  }

  /* ---------------------------------------------------------------------
     The calls on the managed entities.
     --------------------------------------------------------------------- */

  /** request */
  method Request(db: Db, wishId: int, shareId: int) returns (r: Result<ClaimRow>)
    requires db.Valid()
    modifies db.claims
    ensures db.Valid()
    ensures Step(r, db.Rows()) == RequestStep(old(db.Rows()), wishId, shareId)
  {
    if wishId !in db.wishes.byId || shareId !in db.shares.byId {
      return Err(NotFound);
    }
    var wish := db.wishes.byId[wishId];
    var share := db.shares.byId[shareId];
    var claim := new Claim.From(db.claims.nextId, wish, share);
    var saved := db.SaveClaim(claim);
    if !saved {
      return Err(BadRequest);
    }
    r := Ok(claim.Row());
  }

  /** The share and claim writes of a successful accept. */
  method TakeAndAccept(db: Db, claimId: int, now: int)
    requires db.Valid() && claimId in db.claims.byId && db.claims.byId[claimId].shareId in db.shares.byId
    modifies db.shares, db.shares.byId.Values, db.claims, db.claims.byId.Values
    ensures db.Valid()
    ensures db.claims.byId == old(db.claims.byId)
    ensures var c := old(db.claims.rows)[claimId];
      var s := old(db.shares.rows)[c.shareId];
      s.quantity >= c.quantity ==>
        db.Rows() == old(db.Rows()).(shares := old(db.shares.rows)[c.shareId := Taken(s, c.quantity)],
                                     claims := old(db.claims.rows)[claimId := Apply(c, AcceptEvent, now)])
  {
    var claim := db.claims.byId[claimId];
    var _ := db.TakeQuantity(claim.shareId, claim.quantity);
    db.ApplyClaim(claimId, AcceptEvent, now);
  }

  /** accept on a PENDING claim whose share holds enough stock. */
  method AcceptWithStock(db: Db, claimId: int, now: int) returns (r: Result<ClaimRow>)
    requires db.Valid() && claimId in db.claims.byId && db.claims.byId[claimId].status == Pending
    requires db.claims.byId[claimId].shareId in db.shares.byId
    requires db.shares.byId[db.claims.byId[claimId].shareId].quantity >= db.claims.byId[claimId].quantity
    requires HasTradeFor(db.trades.rows, claimId) || db.claims.byId[claimId].wishId in db.wishes.byId
    modifies db.shares, db.shares.byId.Values, db.claims, db.claims.byId.Values, db.trades
    ensures db.Valid()
    ensures Step(r, db.Rows()) == AcceptStep(old(db.Rows()), claimId, now)
  {
    var claim := db.claims.byId[claimId];
    TakeAndAccept(db, claimId, now);
    var _ := TradeService.CreateFromAcceptedClaim(db, claim, now);
    r := Ok(claim.Row());
  }

  /** accept. The wish the trade is made for is looked up before the first
      write, so that a failing lazy load leaves nothing written, as the
      transaction's rollback does. */
  method Accept(db: Db, claimId: int, now: int) returns (r: Result<ClaimRow>)
    requires db.Valid()
    modifies db.shares, db.shares.byId.Values, db.claims, db.claims.byId.Values, db.trades
    ensures db.Valid()
    ensures Step(r, db.Rows()) == AcceptStep(old(db.Rows()), claimId, now)
  {
    if claimId !in db.claims.byId {
      return Err(NotFound);
    }
    var claim := db.claims.byId[claimId];
    if claim.status != Pending {
      return Ok(claim.Row());
    }
    if claim.shareId !in db.shares.byId {
      return Err(NotFound);
    }
    var share := db.shares.byId[claim.shareId];
    if share.quantity < claim.quantity {
      db.ApplyClaim(claimId, RejectEvent, now);
      return Ok(claim.Row());
    }
    var hasTrade := exists k :: k in db.trades.byId && db.trades.byId[k].claimId == claimId;
    if !hasTrade && claim.wishId !in db.wishes.byId {
      assert !HasTradeFor(db.trades.rows, claimId);
      return Err(Internal);
    }
    if hasTrade {
      ghost var k :| k in db.trades.byId && db.trades.byId[k].claimId == claimId;
      assert k in db.trades.rows && db.trades.rows[k].claimId == claimId;
    }
    r := AcceptWithStock(db, claimId, now);
  }

  /** reject */
  method Reject(db: Db, claimId: int, now: int) returns (r: Result<ClaimRow>)
    requires db.Valid()
    modifies db.claims, db.claims.byId.Values
    ensures db.Valid()
    ensures Step(r, db.Rows()) == RejectStep(old(db.Rows()), claimId, now)
  {
    if claimId !in db.claims.byId {
      return Err(NotFound);
    }
    var claim := db.claims.byId[claimId];
    if claim.status == Pending {
      db.ApplyClaim(claimId, RejectEvent, now);
    }
    r := Ok(claim.Row());
  }

  /** cancel */
  method Cancel(db: Db, claimId: int, now: int) returns (r: Result<ClaimRow>)
    requires db.Valid()
    modifies db.claims, db.claims.byId.Values
    ensures db.Valid()
    ensures Step(r, db.Rows()) == CancelStep(old(db.Rows()), claimId, now)
  {
    if claimId !in db.claims.byId {
      return Err(NotFound);
    }
    var claim := db.claims.byId[claimId];
    if claim.status == Canceled || claim.status == Rejected {
      return Ok(claim.Row());
    }
    if claim.status == Pending {
      db.ApplyClaim(claimId, CancelEvent, now);
      return Ok(claim.Row());
    }
    r := Err(BadRequest);
  }
}
