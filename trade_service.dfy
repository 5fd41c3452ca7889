/** TradeService: making the trade for an accepted claim, reading a trade's
    details, completing and cancelling a trade. Each public call is one
    transaction: when it throws, no write of it remains. */
module TradeService {
  import opened Common
  import opened Database
  import opened Repositories
  import opened TradeEntity
  import opened StoreEntity
  import opened ShareEntity
  import opened WishEntity
  import ClaimEntity
  import opened PublicUrlResolver
  import opened TableWrites
  import Text

  /** One side of a trade as the detail response shows it. */
  datatype StoreInfo = StoreInfo(
    id: int,
    imageUrl: Option<string>,
    storeName: string,
    roadAddress: string,
    openTime: int,
    closeTime: int,
    phoneNumber: string)

  /** The detail response of a trade. */
  datatype TradeDetail = TradeDetail(
    id: int,
    imageUrl: Option<string>,
    itemName: string,
    brand: Option<string>,
    quantity: int,
    expirationDate: Option<int>,
    giver: StoreInfo,
    receiver: StoreInfo,
    status: TradeStatus,
    matchedAt: int,
    completedAt: Option<int>)

  function InfoOf(s: StoreRow, cfg: UrlConfig): StoreInfo {
    StoreInfo(s.id, ToUrl(cfg.cdnBaseUrl, cfg.bucket, cfg.s3GetUrl, s.storeImageKey), s.storeName,
              s.address.roadAddress, s.openTime, s.closeTime, s.phoneNumber)
  }

  /* ---------------------------------------------------------------------
     The calls as functions of the tables.
     --------------------------------------------------------------------- */

  /** get: NOT_FOUND for an unknown trade; loading a missing giver or
      receiver store throws. The trade's image URL is resolved only when the
      trade has an image key. */
  function Detail(t: Tables, tradeId: int, cfg: UrlConfig): Result<TradeDetail> {
    if tradeId !in t.trades then Err(NotFound)
    else
      var tr := t.trades[tradeId];
      if tr.giverStoreId !in t.stores || tr.receiverStoreId !in t.stores then Err(Internal)
      else
        var imageUrl := if tr.primaryImageKey.Some? then ToUrl(cfg.cdnBaseUrl, cfg.bucket, cfg.s3GetUrl, tr.primaryImageKey)
                        else None;
        Ok(TradeDetail(tr.id, imageUrl, tr.itemName, tr.brand, tr.quantity, tr.expirationDate,
                       InfoOf(t.stores[tr.giverStoreId], cfg), InfoOf(t.stores[tr.receiverStoreId], cfg),
                       tr.status, tr.regDate, tr.completedAt))
  }

  /** createFromAcceptedClaim: nothing when the claim already has a trade;
      otherwise a new MATCHED trade under the next id, built from the claim,
      its share (with the key of the share's slot-0 image) and its wish,
      stamped with `now` as its regDate. Loading a missing share or wish
      throws. */
  function NewTrade(t: Tables, c: ClaimEntity.ClaimRow, now: int): Result<Tables> {
    if HasTradeFor(t.trades, c.id) then Ok(t)
    else if c.shareId !in t.shares || c.wishId !in t.wishes then Err(Internal)
    else
      var s := t.shares[c.shareId];
      var w := t.wishes[c.wishId];
      var tr := TradeRow(t.nextTradeId, c.id, c.shareId, c.wishId, s.storeId, w.storeId,
                         PrimaryImageKey(s.images), s.itemName, s.brand, c.quantity, s.expirationDate,
                         now, Matched, None, None);
      Ok(t.(trades := t.trades[t.nextTradeId := tr], nextTradeId := t.nextTradeId + 1))
  }

  /** The trade counters after one completion call: the giver's giveTimes
      and then the receiver's receivedTimes go up by one (the same store
      when a store traded with itself). */
  function Counted(stores: map<int, StoreRow>, giver: int, receiver: int): map<int, StoreRow>
    requires giver in stores && receiver in stores
  {
    var s1 := stores[giver := GiveCounted(stores[giver])];
    s1[receiver := ReceiveCounted(s1[receiver])]
  }

  /** The reply of a call whose writes led from t to u: the detail of the
      trade in u, or, when reading it throws, the error and t. */
  function Respond(t: Tables, u: Tables, tradeId: int, cfg: UrlConfig): Step<TradeDetail> {
    match Detail(u, tradeId, cfg)
    case Ok(d) => Step(Ok(d), u)
    case Err(e) => Step(Err(e), t)
  }

  /** The writes of complete on a MATCHED trade: the trade becomes
      COMPLETED at `now` and its wish is closed. Other trades are left as
      they are. */
  function MarkCompleted(t: Tables, tradeId: int, now: int): Tables
    requires tradeId in t.trades
    requires t.trades[tradeId].status == Matched ==> t.trades[tradeId].wishId in t.wishes
  {
    var tr := t.trades[tradeId];
    if tr.status == Matched then
      t.(trades := t.trades[tradeId := TradeEntity.Apply(tr, CompleteEvent, now)],
         wishes := t.wishes[tr.wishId := t.wishes[tr.wishId].(isActive := false)])
    else t
  }

  /** complete: a MATCHED trade becomes COMPLETED and its wish is closed; the
      two stores' counters go up on every call, whatever the status. */
  function CompleteStep(t: Tables, tradeId: int, now: int, cfg: UrlConfig): Step<TradeDetail> {
    if tradeId !in t.trades then Step(Err(NotFound), t)
    else
      var tr := t.trades[tradeId];
      if tr.status == Matched && tr.wishId !in t.wishes then Step(Err(Internal), t)
      else
        var t1 := MarkCompleted(t, tradeId, now);
        if tr.giverStoreId !in t1.stores || tr.receiverStoreId !in t1.stores then Step(Err(Internal), t)
        else Respond(t, t1.(stores := Counted(t1.stores, tr.giverStoreId, tr.receiverStoreId)), tradeId, cfg)
  }

  /** The writes of cancel on a MATCHED trade whose claim is not CANCELED:
      the claim's quantity goes back to the share and the claim is
      cancelled at `now`. */
  function ReturnStock(t: Tables, tradeId: int, now: int): Tables
    requires tradeId in t.trades && t.trades[tradeId].claimId in t.claims
    requires t.claims[t.trades[tradeId].claimId].status != ClaimEntity.Canceled ==> t.trades[tradeId].shareId in t.shares
  {
    var tr := t.trades[tradeId];
    var c := t.claims[tr.claimId];
    if c.status != ClaimEntity.Canceled then
      t.(shares := t.shares[tr.shareId := Restocked(t.shares[tr.shareId], c.quantity)],
         claims := t.claims[tr.claimId := ClaimEntity.Apply(c, ClaimEntity.CancelEvent, now)])
    else t
  }

  /** All writes of cancel on a MATCHED trade: the stock goes back, then the
      trade is cancelled at `now`. */
  function MarkCanceled(t: Tables, tradeId: int, now: int): Tables
    requires tradeId in t.trades && t.trades[tradeId].claimId in t.claims
    requires t.claims[t.trades[tradeId].claimId].status != ClaimEntity.Canceled ==> t.trades[tradeId].shareId in t.shares
  {
    var t1 := ReturnStock(t, tradeId, now);
    t1.(trades := t1.trades[tradeId := TradeEntity.Apply(t.trades[tradeId], TradeEntity.CancelEvent, now)])
  }

  /** cancel: a COMPLETED trade cannot be cancelled; a CANCELED one is left
      as it is. For a MATCHED trade whose claim is not CANCELED, the claim's
      quantity goes back to the share and the claim is cancelled; then the
      trade is cancelled. */
  function CancelStep(t: Tables, tradeId: int, now: int, cfg: UrlConfig): Step<TradeDetail> {
    if tradeId !in t.trades then Step(Err(NotFound), t)
    else
      var tr := t.trades[tradeId];
      if tr.status == Completed then Step(Err(BadRequest), t)
      else if tr.status == Canceled then Respond(t, t, tradeId, cfg)
      else if tr.claimId !in t.claims then Step(Err(NotFound), t)
      else
        var c := t.claims[tr.claimId];
        if c.status != ClaimEntity.Canceled && tr.shareId !in t.shares then Step(Err(NotFound), t)
        else
          Respond(t, MarkCanceled(t, tradeId, now), tradeId, cfg)
  }

  /* ---------------------------------------------------------------------
     What the calls promise.
     --------------------------------------------------------------------- */

  /** The claim has exactly one trade. */
  predicate OneTradeFor(trades: map<int, TradeRow>, claimId: int) {
    exists k :: k in trades && trades[k].claimId == claimId &&
      forall j :: j in trades && trades[j].claimId == claimId ==> j == k
  }

  /** The reply is the detail of the trade in the new tables, or an error
      with the tables as they were. */
  lemma RespondCases(t: Tables, u: Tables, tradeId: int, cfg: UrlConfig)
    ensures var r := Respond(t, u, tradeId, cfg);
      (r.result.Ok? ==> r.tables == u) && (r.result.Err? ==> r.tables == t) &&
      (r.result.Ok? <==> tradeId in u.trades && u.trades[tradeId].giverStoreId in u.stores &&
                         u.trades[tradeId].receiverStoreId in u.stores)
  {
  }

  /** get: an unknown trade is NOT_FOUND, and the call succeeds exactly when
      both stores are there. The detail shows the trade's own columns and
      the two stores', its matchedAt is the trade's regDate, and it has an
      image URL exactly when the trade has a non-blank image key; a null key
      is never handed to the resolver. */
  lemma DetailOutcome(t: Tables, tradeId: int, cfg: UrlConfig)
    ensures Detail(t, tradeId, cfg) == Err(NotFound) <==> tradeId !in t.trades
    ensures Detail(t, tradeId, cfg).Ok? <==>
      tradeId in t.trades && t.trades[tradeId].giverStoreId in t.stores && t.trades[tradeId].receiverStoreId in t.stores
    ensures Detail(t, tradeId, cfg).Ok? ==>
      var d := Detail(t, tradeId, cfg).value;
      var tr := t.trades[tradeId];
      && d.id == tr.id && d.itemName == tr.itemName && d.brand == tr.brand && d.quantity == tr.quantity
      && d.expirationDate == tr.expirationDate && d.status == tr.status && d.completedAt == tr.completedAt
      && d.matchedAt == tr.regDate
      && d.giver.id == t.stores[tr.giverStoreId].id && d.receiver.id == t.stores[tr.receiverStoreId].id
      && (d.imageUrl.Some? <==> tr.primaryImageKey.Some? && !Text.IsBlank(tr.primaryImageKey))
  {
  }

  /** createFromAcceptedClaim leaves the claim with exactly one trade, and
      calling it again changes nothing. Existing trades stay as they were;
      the new one is MATCHED, belongs to the claim, and carries the key of a
      slot-0 image of the share, or no key when the share has none. */
  lemma NewTradeOnce(t: Tables, c: ClaimEntity.ClaimRow, now: int)
    requires Invariant(t)
    requires NewTrade(t, c, now).Ok?
    ensures var u := NewTrade(t, c, now).value;
      OneTradeFor(u.trades, c.id) && NewTrade(u, c, now) == Ok(u)
    ensures var u := NewTrade(t, c, now).value;
      forall k :: k in t.trades ==> k in u.trades && u.trades[k] == t.trades[k]
    ensures var u := NewTrade(t, c, now).value;
      forall k :: k in u.trades && k !in t.trades ==>
        var images := t.shares[c.shareId].images;
        && u.trades[k].claimId == c.id && u.trades[k].status == Matched && u.trades[k].regDate == now
        && (u.trades[k].primaryImageKey.None? <==> forall i :: 0 <= i < |images| ==> images[i].slot != 0)
        && (u.trades[k].primaryImageKey.Some? ==>
              exists i :: 0 <= i < |images| && images[i].slot == 0 && images[i].objectKey == u.trades[k].primaryImageKey.value)
  {
    var u := NewTrade(t, c, now).value;
    if HasTradeFor(t.trades, c.id) {
      var k :| k in t.trades && t.trades[k].claimId == c.id;
      assert forall j :: j in t.trades && t.trades[j].claimId == c.id ==> j == k;
    } else {
      var k := t.nextTradeId;
      assert k !in t.trades;
      assert u.trades[k].claimId == c.id;
      assert forall j :: j in u.trades && u.trades[j].claimId == c.id ==> j == k;
      assert HasTradeFor(u.trades, c.id);
    }
  }

  /** createFromAcceptedClaim, called for an ACCEPTED claim of the tables,
      keeps the invariant and touches no stock. */
  lemma NewTradeKeepsInvariant(t: Tables, c: ClaimEntity.ClaimRow, now: int)
    requires Invariant(t) && c.id in t.claims && t.claims[c.id] == c && c.status == ClaimEntity.Accepted
    requires NewTrade(t, c, now).Ok?
    ensures Invariant(NewTrade(t, c, now).value) && Conserves(t, NewTrade(t, c, now).value)
  {
    var u := NewTrade(t, c, now).value;
    if !HasTradeFor(t.trades, c.id) {
      TradeInserted(t, u.trades[t.nextTradeId]);
    }
    ConservesUntouched(t, u);
  }

  /** complete: an unknown trade is NOT_FOUND and a missing wish or store
      throws, with nothing written. Otherwise the call succeeds: a MATCHED
      trade becomes COMPLETED at `now` with its wish closed, any other trade
      and every wish stay as they were, and in every case the giver's
      giveTimes and the receiver's receivedTimes go up by one (wrapping at the
      top of Java's `int`), no other store changes, and no claim or share
      changes. */
  lemma CompleteOutcome(t: Tables, tradeId: int, now: int, cfg: UrlConfig)
    ensures var r := CompleteStep(t, tradeId, now, cfg);
      tradeId !in t.trades ==> r == Step(Err(NotFound), t)
    ensures var r := CompleteStep(t, tradeId, now, cfg);
      tradeId in t.trades ==>
        var tr := t.trades[tradeId];
        var g, v := tr.giverStoreId, tr.receiverStoreId;
        if (tr.status == Matched && tr.wishId !in t.wishes) || g !in t.stores || v !in t.stores then
          r == Step(Err(Internal), t)
        else
          var u := r.tables;
          && r.result == Detail(u, tradeId, cfg) && r.result.Ok?
          && (tr.status == Matched ==>
                u.trades[tradeId].status == Completed && u.trades[tradeId].completedAt == Some(now) &&
                tr.wishId in u.wishes && !u.wishes[tr.wishId].isActive)
          && (tr.status != Matched ==> u.trades == t.trades && u.wishes == t.wishes)
          && u.stores.Keys == t.stores.Keys
          && (g != v ==> u.stores[g].giveTimes == Wrap32(t.stores[g].giveTimes + 1) &&
                         u.stores[g].receivedTimes == t.stores[g].receivedTimes &&
                         u.stores[v].receivedTimes == Wrap32(t.stores[v].receivedTimes + 1) &&
                         u.stores[v].giveTimes == t.stores[v].giveTimes)
          && (g == v ==> u.stores[g].giveTimes == Wrap32(t.stores[g].giveTimes + 1) &&
                         u.stores[g].receivedTimes == Wrap32(t.stores[g].receivedTimes + 1))
          && (forall s :: s in t.stores && s != g && s != v ==> u.stores[s] == t.stores[s])
          && u.claims == t.claims && u.shares == t.shares
  {
  }

  /** The writes on a MATCHED trade keep the invariant and leave the claims
      and shares alone. */
  lemma MarkCompletedKeepsInvariant(t: Tables, tradeId: int, now: int)
    requires Invariant(t) && tradeId in t.trades
    requires t.trades[tradeId].status == Matched ==> t.trades[tradeId].wishId in t.wishes
    ensures var u := MarkCompleted(t, tradeId, now);
      Invariant(u) && u.claims == t.claims && u.shares == t.shares && u.stores == t.stores &&
      u.nextClaimId == t.nextClaimId
  {
    var tr := t.trades[tradeId];
    if tr.status == Matched {
      var row := TradeEntity.Apply(tr, CompleteEvent, now);
      TradeEntity.ApplyWellFormed(tr, CompleteEvent, now);
      TradeReplaced(t, tradeId, row);
      var t1 := t.(trades := t.trades[tradeId := row]);
      WishReplaced(t1, tr.wishId, t.wishes[tr.wishId].(isActive := false));
      assert MarkCompleted(t, tradeId, now) == t1.(wishes := t1.wishes[tr.wishId := t.wishes[tr.wishId].(isActive := false)]);
    }
  }

  /** Bumping the counters keeps the invariant: ids and owners stay. */
  lemma CountedKeepsInvariant(t: Tables, giver: int, receiver: int)
    requires Invariant(t) && giver in t.stores && receiver in t.stores
    ensures Invariant(t.(stores := Counted(t.stores, giver, receiver)))
  {
    var s1 := t.stores[giver := GiveCounted(t.stores[giver])];
    StoreReplaced(t, giver, GiveCounted(t.stores[giver]));
    StoreReplaced(t.(stores := s1), receiver, ReceiveCounted(s1[receiver]));
  }

  /** complete keeps the invariant and touches no stock. */
  lemma CompleteKeepsInvariant(t: Tables, tradeId: int, now: int, cfg: UrlConfig)
    requires Invariant(t)
    ensures Invariant(CompleteStep(t, tradeId, now, cfg).tables)
    ensures Conserves(t, CompleteStep(t, tradeId, now, cfg).tables)
  {
    var r := CompleteStep(t, tradeId, now, cfg);
    if tradeId in t.trades {
      var tr := t.trades[tradeId];
      if !(tr.status == Matched && tr.wishId !in t.wishes) {
        var t1 := MarkCompleted(t, tradeId, now);
        MarkCompletedKeepsInvariant(t, tradeId, now);
        if tr.giverStoreId in t1.stores && tr.receiverStoreId in t1.stores {
          var u := t1.(stores := Counted(t1.stores, tr.giverStoreId, tr.receiverStoreId));
          CountedKeepsInvariant(t1, tr.giverStoreId, tr.receiverStoreId);
          RespondCases(t, u, tradeId, cfg);
          assert r.tables == u || r.tables == t;
        }
      }
    }
    ConservesUntouched(t, r.tables);
  }

  /** In tables that keep the invariant, a MATCHED trade's claim, when it is
      there, is ACCEPTED and on the trade's share, and giving its quantity
      back to the share stays within Java's `int`. */
  lemma MatchedClaimAccepted(t: Tables, tradeId: int)
    requires Invariant(t) && tradeId in t.trades && t.trades[tradeId].status == Matched
    requires t.trades[tradeId].claimId in t.claims
    ensures var tr := t.trades[tradeId];
      var c := t.claims[tr.claimId];
      c.status == ClaimEntity.Accepted && c.shareId == tr.shareId &&
      (tr.shareId in t.shares ==> InInt32(t.shares[tr.shareId].quantity + c.quantity))
  {
    var tr := t.trades[tradeId];
    if tr.shareId in t.shares {
      SumCovers(t.claims, tr.shareId, t.nextClaimId, tr.claimId);
    }
  }

  /** The writes of cancel on a MATCHED trade with its claim and share there
      keep the invariant and the committed stock. */
  lemma MarkCanceledKeepsInvariant(t: Tables, tradeId: int, now: int)
    requires Invariant(t) && tradeId in t.trades && t.trades[tradeId].status == Matched
    requires t.trades[tradeId].claimId in t.claims && t.trades[tradeId].shareId in t.shares
    ensures Invariant(MarkCanceled(t, tradeId, now)) && Conserves(t, MarkCanceled(t, tradeId, now))
  {
    var tr := t.trades[tradeId];
    var c := t.claims[tr.claimId];
    MatchedClaimAccepted(t, tradeId);
    var trow := TradeEntity.Apply(tr, TradeEntity.CancelEvent, now);
    TradeEntity.ApplyWellFormed(tr, TradeEntity.CancelEvent, now);
    TradeReplaced(t, tradeId, trow);
    var ta := t.(trades := t.trades[tradeId := trow]);
    ConservesUntouched(t, ta);
    var crow := ClaimEntity.Apply(c, ClaimEntity.CancelEvent, now);
    ClaimEntity.ApplyWellFormed(c, ClaimEntity.CancelEvent, now);
    var srow := Restocked(t.shares[tr.shareId], c.quantity);
    assert StockMoved(ta, crow, srow);
    assert forall k :: k in ta.trades && ta.trades[k].claimId == crow.id ==> k == tradeId;
    ClaimAndShareReplaced(ta, crow, srow);
    assert MarkCanceled(t, tradeId, now) == ClaimAndShare(ta, crow, srow);
    ConservesTransitive(t, ta, ClaimAndShare(ta, crow, srow));
  }

  /** cancel: an unknown trade is NOT_FOUND and a COMPLETED one BAD_REQUEST,
      with nothing written; a CANCELED one is left as it is and its detail
      returned. On a MATCHED trade a missing claim or share is NOT_FOUND;
      otherwise the claim (ACCEPTED, since the trade is MATCHED) gives its
      quantity back to the share exactly, the claim and the trade become
      CANCELED at `now`, and nothing else changes; the reply is the detail,
      or, when a store is missing, an error that undoes the writes. */
  lemma CancelOutcome(t: Tables, tradeId: int, now: int, cfg: UrlConfig)
    requires Invariant(t)
    ensures var r := CancelStep(t, tradeId, now, cfg);
      tradeId !in t.trades ==> r == Step(Err(NotFound), t)
    ensures var r := CancelStep(t, tradeId, now, cfg);
      tradeId in t.trades && t.trades[tradeId].status == Completed ==> r == Step(Err(BadRequest), t)
    ensures var r := CancelStep(t, tradeId, now, cfg);
      tradeId in t.trades && t.trades[tradeId].status == Canceled ==>
        r.tables == t && r.result == Detail(t, tradeId, cfg)
    ensures var r := CancelStep(t, tradeId, now, cfg);
      tradeId in t.trades && t.trades[tradeId].status == Matched ==>
        var tr := t.trades[tradeId];
        if tr.claimId !in t.claims || tr.shareId !in t.shares then r == Step(Err(NotFound), t)
        else
          var c := t.claims[tr.claimId];
          var u := r.tables;
          && (r.result.Err? ==> r.tables == t)
          && (r.result.Ok? ==>
                && r.result == Detail(u, tradeId, cfg)
                && u.shares.Keys == t.shares.Keys && u.claims.Keys == t.claims.Keys && u.trades.Keys == t.trades.Keys
                && u.shares[tr.shareId].quantity == t.shares[tr.shareId].quantity + c.quantity
                && u.claims[tr.claimId].status == ClaimEntity.Canceled && u.claims[tr.claimId].decidedAt == Some(now)
                && u.trades[tradeId].status == Canceled && u.trades[tradeId].canceledAt == Some(now)
                && (forall k :: k in t.trades && k != tradeId ==> u.trades[k] == t.trades[k])
                && (forall k :: k in t.claims && k != tr.claimId ==> u.claims[k] == t.claims[k])
                && (forall k :: k in t.shares && k != tr.shareId ==> u.shares[k] == t.shares[k])
                && u.wishes == t.wishes && u.stores == t.stores)
  {
    if tradeId in t.trades && t.trades[tradeId].status == Matched {
      var tr := t.trades[tradeId];
      if tr.claimId in t.claims && tr.shareId in t.shares {
        MatchedClaimAccepted(t, tradeId);
        RespondCases(t, MarkCanceled(t, tradeId, now), tradeId, cfg);
      }
    }
  }

  /** cancel keeps the invariant and the committed stock of every share. */
  lemma CancelKeepsInvariant(t: Tables, tradeId: int, now: int, cfg: UrlConfig)
    requires Invariant(t)
    ensures Invariant(CancelStep(t, tradeId, now, cfg).tables)
    ensures Conserves(t, CancelStep(t, tradeId, now, cfg).tables)
  {
    var r := CancelStep(t, tradeId, now, cfg);
    if tradeId in t.trades && t.trades[tradeId].status == Matched {
      var tr := t.trades[tradeId];
      if tr.claimId in t.claims && tr.shareId in t.shares {
        MatchedClaimAccepted(t, tradeId);
        MarkCanceledKeepsInvariant(t, tradeId, now);
        RespondCases(t, MarkCanceled(t, tradeId, now), tradeId, cfg);
        assert r.tables == t || r.tables == MarkCanceled(t, tradeId, now);
      }
    }
    if r.tables == t {
      ConservesUntouched(t, t);
    }
  }

  /* ---------------------------------------------------------------------
     The calls on the managed entities.
     --------------------------------------------------------------------- */

  /** get */
  method Get(db: Db, tradeId: int, cfg: UrlConfig) returns (r: Result<TradeDetail>)
    requires db.Valid()
    ensures r == Detail(db.Rows(), tradeId, cfg)
  {
    if tradeId !in db.trades.byId {
      return Err(NotFound);
    }
    var trade := db.trades.byId[tradeId];
    if trade.giverStoreId !in db.stores.byId || trade.receiverStoreId !in db.stores.byId {
      return Err(Internal);
    }
    var giver := db.stores.byId[trade.giverStoreId];
    var receiver := db.stores.byId[trade.receiverStoreId];
    var imageUrl := if trade.primaryImageKey.Some? then
                      ToUrl(cfg.cdnBaseUrl, cfg.bucket, cfg.s3GetUrl, trade.primaryImageKey)
                    else None;
    return Ok(TradeDetail(trade.id, imageUrl, trade.itemName, trade.brand, trade.quantity,
                          trade.expirationDate, InfoOf(giver.Row(), cfg), InfoOf(receiver.Row(), cfg),
                          trade.status, trade.regDate, trade.completedAt));
  }

  /** createFromAcceptedClaim, with `now` the time the insert is stamped. */
  method CreateFromAcceptedClaim(db: Db, claim: ClaimEntity.Claim, now: int) returns (r: Outcome)
    requires db.Valid()
    modifies db.trades
    ensures db.Valid()
    ensures match NewTrade(old(db.Rows()), claim.Row(), now)
      case Ok(u) => r == Pass && db.Rows() == u
      case Err(e) => r == Fail(e) && db.Rows() == old(db.Rows())
  {
    if exists k :: k in db.trades.byId && db.trades.byId[k].claimId == claim.id {
      ghost var k :| k in db.trades.byId && db.trades.byId[k].claimId == claim.id;
      assert k in db.trades.rows && db.trades.rows[k].claimId == claim.id;
      return Pass;
    }
    assert !HasTradeFor(db.trades.rows, claim.id);
    if claim.shareId !in db.shares.byId || claim.wishId !in db.wishes.byId {
      return Fail(Internal);
    }
    var share := db.shares.byId[claim.shareId];
    var wish := db.wishes.byId[claim.wishId];
    var primaryKey := PrimaryImageKey(share.images);
    var trade := new Trade.FromAcceptedClaim(db.trades.nextId, claim, share, wish, primaryKey, now);
    db.SaveTrade(trade);
    r := Pass;
  }

  /** The trade and wish writes of complete. */
  method CompleteTrade(db: Db, tradeId: int, now: int)
    requires db.Valid() && tradeId in db.trades.byId
    requires db.trades.byId[tradeId].status == Matched ==> db.trades.byId[tradeId].wishId in db.wishes.byId
    modifies db.trades, db.trades.byId.Values, db.wishes, db.wishes.byId.Values
    ensures db.Valid()
    ensures db.trades.byId == old(db.trades.byId) && db.stores.byId == old(db.stores.byId)
    ensures db.Rows() == MarkCompleted(old(db.Rows()), tradeId, now)
  {
    var trade := db.trades.byId[tradeId];
    if trade.status == Matched {
      db.ApplyTrade(tradeId, CompleteEvent, now);
      db.CloseWish(trade.wishId);
    }
  }

  /** The counter writes of complete. */
  method CountTrade(db: Db, giver: int, receiver: int)
    requires db.Valid() && giver in db.stores.byId && receiver in db.stores.byId
    modifies db.stores, db.stores.byId.Values
    ensures db.Valid()
    ensures db.trades.byId == old(db.trades.byId) && db.stores.byId == old(db.stores.byId)
    ensures db.Rows() == old(db.Rows()).(stores := Counted(old(db.stores.rows), giver, receiver))
  {
    db.IncreaseGiveTimes(giver);
    db.IncreaseReceivedTimes(receiver);
  }

  /** complete. The wish and the two stores are looked up before the first
      write, so that a failing lazy load leaves nothing written, as the
      transaction's rollback does. */
  method Complete(db: Db, tradeId: int, now: int, cfg: UrlConfig) returns (r: Result<TradeDetail>)
    requires db.Valid()
    modifies db.trades, db.trades.byId.Values, db.wishes, db.wishes.byId.Values
    modifies db.stores, db.stores.byId.Values
    ensures db.Valid()
    ensures Step(r, db.Rows()) == CompleteStep(old(db.Rows()), tradeId, now, cfg)
  {
    if tradeId !in db.trades.byId {
      return Err(NotFound);
    }
    var trade := db.trades.byId[tradeId];
    if trade.status == Matched && trade.wishId !in db.wishes.byId {
      return Err(Internal);
    }
    if trade.giverStoreId !in db.stores.byId || trade.receiverStoreId !in db.stores.byId {
      return Err(Internal);
    }
    CompleteTrade(db, tradeId, now);
    CountTrade(db, trade.giverStoreId, trade.receiverStoreId);
    r := Get(db, tradeId, cfg);
  }

  /** The writes of cancel. */
  method CancelTrade(db: Db, tradeId: int, now: int)
    requires db.Valid() && tradeId in db.trades.byId && db.trades.byId[tradeId].claimId in db.claims.byId
    requires db.claims.byId[db.trades.byId[tradeId].claimId].status != ClaimEntity.Canceled ==>
      db.trades.byId[tradeId].shareId in db.shares.byId
    modifies db.trades, db.trades.byId.Values, db.claims, db.claims.byId.Values, db.shares, db.shares.byId.Values
    ensures db.Valid()
    ensures db.trades.byId == old(db.trades.byId) && db.stores.byId == old(db.stores.byId)
    ensures db.Rows() == MarkCanceled(old(db.Rows()), tradeId, now)
  {
    ReturnClaimStock(db, tradeId, now);
    db.ApplyTrade(tradeId, TradeEntity.CancelEvent, now);
  }

  /** The share and claim writes of cancel. */
  method ReturnClaimStock(db: Db, tradeId: int, now: int)
    requires db.Valid() && tradeId in db.trades.byId && db.trades.byId[tradeId].claimId in db.claims.byId
    requires db.claims.byId[db.trades.byId[tradeId].claimId].status != ClaimEntity.Canceled ==>
      db.trades.byId[tradeId].shareId in db.shares.byId
    modifies db.claims, db.claims.byId.Values, db.shares, db.shares.byId.Values
    ensures db.Valid()
    ensures db.trades.byId == old(db.trades.byId) && db.stores.byId == old(db.stores.byId)
    ensures db.Rows() == ReturnStock(old(db.Rows()), tradeId, now)
  {
    var trade := db.trades.byId[tradeId];
    var claim := db.claims.byId[trade.claimId];
    if claim.status != ClaimEntity.Canceled {
      db.AddQuantity(trade.shareId, claim.quantity);
      db.ApplyClaim(trade.claimId, ClaimEntity.CancelEvent, now);
    }
  }

  /** cancel. The claim, the share and the two stores the reply reads are
      looked up before the first write, as in `Complete`. */
  method Cancel(db: Db, tradeId: int, now: int, cfg: UrlConfig) returns (r: Result<TradeDetail>)
    requires db.Valid()
    modifies db.trades, db.trades.byId.Values, db.claims, db.claims.byId.Values
    modifies db.shares, db.shares.byId.Values
    ensures db.Valid()
    ensures Step(r, db.Rows()) == CancelStep(old(db.Rows()), tradeId, now, cfg)
  {
    if tradeId !in db.trades.byId {
      return Err(NotFound);
    }
    var trade := db.trades.byId[tradeId];
    if trade.status == Completed {
      return Err(BadRequest);
    }
    if trade.status == Canceled {
      r := Get(db, tradeId, cfg);
      return;
    }
    if trade.claimId !in db.claims.byId {
      return Err(NotFound);
    }
    var claim := db.claims.byId[trade.claimId];
    if claim.status != ClaimEntity.Canceled && trade.shareId !in db.shares.byId {
      return Err(NotFound);
    }
    if trade.giverStoreId !in db.stores.byId || trade.receiverStoreId !in db.stores.byId {
      return Err(Internal);
    }
    CancelTrade(db, tradeId, now);
    r := Get(db, tradeId, cfg);
  }
}
