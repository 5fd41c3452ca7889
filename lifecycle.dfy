/** The claim and trade lifecycle as a whole: any sequence of the service
    calls keeps the invariant and the committed stock of every share, and
    cancelling the trade an accept has made gives the stock back. */
module Lifecycle {
  import opened Common
  import opened Database
  import opened PublicUrlResolver
  import ClaimEntity
  import TradeEntity
  import ClaimService
  import TradeService

  /** One public call of ClaimService or TradeService, with its arguments. */
  datatype Call =
    | RequestClaim(wishId: int, shareId: int)
    | AcceptClaim(claimId: int, now: int)
    | RejectClaim(claimId: int, now: int)
    | CancelClaim(claimId: int, now: int)
    | CompleteTrade(tradeId: int, now: int)
    | CancelTrade(tradeId: int, now: int)

  /** The tables after one call. */
  function After(t: Tables, call: Call, cfg: UrlConfig): Tables {
    match call
    case RequestClaim(w, s) => ClaimService.RequestStep(t, w, s).tables
    case AcceptClaim(c, now) => ClaimService.AcceptStep(t, c, now).tables
    case RejectClaim(c, now) => ClaimService.RejectStep(t, c, now).tables
    case CancelClaim(c, now) => ClaimService.CancelStep(t, c, now).tables
    case CompleteTrade(tr, now) => TradeService.CompleteStep(t, tr, now, cfg).tables
    case CancelTrade(tr, now) => TradeService.CancelStep(t, tr, now, cfg).tables
  }

  /** The tables after a sequence of calls. */
  function AfterAll(t: Tables, calls: seq<Call>, cfg: UrlConfig): Tables
    decreases |calls|
  {
    if |calls| == 0 then t else AfterAll(After(t, calls[0], cfg), calls[1..], cfg)
  }

  /** Each call keeps the invariant and the committed stock. */
  lemma AfterKeepsInvariant(t: Tables, call: Call, cfg: UrlConfig)
    requires Invariant(t)
    ensures Invariant(After(t, call, cfg)) && Conserves(t, After(t, call, cfg))
  {
    match call
    case RequestClaim(w, s) => ClaimService.RequestKeepsInvariant(t, w, s);
    case AcceptClaim(c, now) => ClaimService.AcceptKeepsInvariant(t, c, now);
    case RejectClaim(c, now) => ClaimService.RejectKeepsInvariant(t, c, now);
    case CancelClaim(c, now) => ClaimService.CancelKeepsInvariant(t, c, now);
    case CompleteTrade(tr, now) => TradeService.CompleteKeepsInvariant(t, tr, now, cfg);
    case CancelTrade(tr, now) => TradeService.CancelKeepsInvariant(t, tr, now, cfg);
  }

  /** Over any sequence of calls from tables that keep the invariant (the
      empty database among them): the invariant holds at the end, so no
      stock is negative, each claim has at most one trade and each wish at
      most one claim per share; and every share that existed at the start
      still holds, in hand and in accepted claims, exactly what it held. */
  lemma {:induction false} AfterAllKeepsInvariant(t: Tables, calls: seq<Call>, cfg: UrlConfig)
    requires Invariant(t)
    ensures var u := AfterAll(t, calls, cfg);
      Invariant(u) && Conserves(t, u)
    ensures var u := AfterAll(t, calls, cfg);
      && (forall sid :: sid in u.shares ==> u.shares[sid].quantity >= 0)
      && (forall a, b :: a in u.trades && b in u.trades && u.trades[a].claimId == u.trades[b].claimId ==> a == b)
      && (forall a, b :: a in u.claims && b in u.claims && a != b ==>
            (u.claims[a].wishId, u.claims[a].shareId) != (u.claims[b].wishId, u.claims[b].shareId))
    decreases |calls|
  {
    if |calls| == 0 {
      ConservesUntouched(t, t);
    } else {
      var t1 := After(t, calls[0], cfg);
      AfterKeepsInvariant(t, calls[0], cfg);
      AfterAllKeepsInvariant(t1, calls[1..], cfg);
      ConservesTransitive(t, t1, AfterAll(t1, calls[1..], cfg));
    }
  }

  /** What an accept with enough stock leaves for the trade cancel: the
      new MATCHED trade under the next trade id, on the claim's share, with
      the stores and the invariant in place. */
  lemma AcceptLeavesTrade(t: Tables, claimId: int, now: int)
    requires Invariant(t) && claimId in t.claims && t.claims[claimId].status == ClaimEntity.Pending
    requires !HasTradeFor(t.trades, claimId)
    requires var c := t.claims[claimId];
      c.shareId in t.shares && c.wishId in t.wishes && t.shares[c.shareId].quantity >= c.quantity
    ensures var c := t.claims[claimId];
      var u := ClaimService.AcceptStep(t, claimId, now).tables;
      var k := t.nextTradeId;
      && Invariant(u) && u.stores == t.stores
      && k in u.trades && u.trades[k].claimId == claimId && u.trades[k].status == TradeEntity.Matched
      && u.trades[k].shareId == c.shareId && claimId in u.claims && u.claims[claimId].quantity == c.quantity
      && u.trades[k].giverStoreId == t.shares[c.shareId].storeId
      && u.trades[k].receiverStoreId == t.wishes[c.wishId].storeId
      && c.shareId in u.shares && u.shares[c.shareId].quantity == t.shares[c.shareId].quantity - c.quantity
  {
    ClaimService.AcceptOutcome(t, claimId, now);
    ClaimService.AcceptKeepsInvariant(t, claimId, now);
  }

  /** Accepting a PENDING claim with enough stock and then cancelling the
      trade the accept made gives the share back exactly the stock it had
      before the accept, and leaves the claim and the trade CANCELED. */
  lemma AcceptThenCancelRestoresStock(t: Tables, claimId: int, now: int, later: int, cfg: UrlConfig)
    requires Invariant(t) && claimId in t.claims && t.claims[claimId].status == ClaimEntity.Pending
    requires !HasTradeFor(t.trades, claimId)
    requires var c := t.claims[claimId];
      c.shareId in t.shares && c.wishId in t.wishes && t.shares[c.shareId].quantity >= c.quantity
    requires var c := t.claims[claimId];
      t.shares[c.shareId].storeId in t.stores && t.wishes[c.wishId].storeId in t.stores
    ensures var c := t.claims[claimId];
      var u := ClaimService.AcceptStep(t, claimId, now).tables;
      var v := TradeService.CancelStep(u, t.nextTradeId, later, cfg);
      && u.shares[c.shareId].quantity == t.shares[c.shareId].quantity - c.quantity
      && v.result.Ok?
      && v.tables.shares[c.shareId].quantity == t.shares[c.shareId].quantity
      && v.tables.claims[claimId].status == ClaimEntity.Canceled
      && v.tables.trades[t.nextTradeId].status == TradeEntity.Canceled
  {
    AcceptLeavesTrade(t, claimId, now);
    var u := ClaimService.AcceptStep(t, claimId, now).tables;
    TradeService.CancelOutcome(u, t.nextTradeId, later, cfg);
  }
}
