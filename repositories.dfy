/** The persistence context: one repository per table, each holding the
    managed entities by id, the next IDENTITY value, and (as ghost state) the
    rows those entities stand for. A write to a managed entity goes through
    its repository, which keeps the rows in step with the entity, as the
    dirty check at commit does. */
module Repositories {
  import opened Common
  import opened Database
  import opened WishEntity
  import opened StoreEntity
  import opened ShareEntity
  import opened ClaimEntity
  import opened TradeEntity

  class WishRepository {
    var byId: map<int, Wish>
    var nextId: nat
    ghost var rows: map<int, WishRow>

    /** Each wish sits under its own id, below the next id, and `rows` holds
        its row. */
    ghost predicate Valid()
      reads this, byId.Values
    {
      && rows.Keys == byId.Keys
      && (forall k {:trigger byId[k]} :: k in byId ==> byId[k].id == k && k < nextId && rows[k] == byId[k].Row())
    }

    constructor ()
      ensures Valid() && rows == map[] && nextId == 0
    {
      byId, nextId, rows := map[], 0, map[];
    }

    /** `wishRepository.save` of a new wish, under the next id. */
    method Save(w: Wish)
      requires Valid() && w.id == nextId
      modifies this
      ensures Valid()
      ensures rows == old(rows)[w.id := w.Row()] && nextId == old(nextId) + 1
      ensures byId == old(byId)[w.id := w]
    {
      byId := byId[w.id := w];
      nextId := nextId + 1;
      rows := rows[w.id := w.Row()];
    }

    /** `wish.close()` on the wish under `id`. */
    method Close(id: int)
      requires Valid() && id in byId
      modifies this, byId[id]
      ensures Valid()
      ensures rows == old(rows)[id := old(rows)[id].(isActive := false)]
      ensures byId == old(byId) && nextId == old(nextId)
    {
      var w := byId[id];
      w.Close();
      rows := rows[id := w.Row()];
    }
  }

  class ShareRepository {
    var byId: map<int, Share>
    var nextId: nat
    ghost var rows: map<int, ShareRow>

    ghost predicate Valid()
      reads this, byId.Values
    {
      && rows.Keys == byId.Keys
      && (forall k {:trigger byId[k]} :: k in byId ==> byId[k].id == k && k < nextId && rows[k] == byId[k].Row())
    }

    constructor ()
      ensures Valid() && rows == map[] && nextId == 0
    {
      byId, nextId, rows := map[], 0, map[];
    }

    /** `shareRepository.save` of a new share, under the next id. */
    method Save(s: Share)
      requires Valid() && s.id == nextId
      modifies this
      ensures Valid()
      ensures rows == old(rows)[s.id := s.Row()] && nextId == old(nextId) + 1
      ensures byId == old(byId)[s.id := s]
    {
      byId := byId[s.id := s];
      nextId := nextId + 1;
      rows := rows[s.id := s.Row()];
    }

    /** `share.increaseQuantity(amount)` on the share under `id`. */
    method AddQuantity(id: int, amount: int)
      requires Valid() && id in byId
      modifies this, byId[id]
      ensures Valid()
      ensures rows == old(rows)[id := Restocked(old(rows)[id], amount)]
      ensures byId == old(byId) && nextId == old(nextId)
    {
      var s := byId[id];
      s.IncreaseQuantity(amount);
      rows := rows[id := s.Row()];
    }

    /** `share.decreaseQuantity(amount)` on the share under `id`: BAD_REQUEST
        and nothing written when the stock is below the amount. */
    method TakeQuantity(id: int, amount: int) returns (r: Outcome)
      requires Valid() && id in byId
      modifies this, byId[id]
      ensures Valid()
      ensures old(rows)[id].quantity < amount ==> r == Fail(BadRequest) && rows == old(rows)
      ensures old(rows)[id].quantity >= amount ==>
        r == Pass && rows == old(rows)[id := Taken(old(rows)[id], amount)]
      ensures byId == old(byId) && nextId == old(nextId)
    {
      var s := byId[id];
      r := s.DecreaseQuantity(amount);
      rows := rows[id := s.Row()];
    }

    /** `share.getImages().clear()` on the share under `id`. */
    method ClearImages(id: int)
      requires Valid() && id in byId
      modifies this, byId[id]
      ensures Valid()
      ensures rows == old(rows)[id := old(rows)[id].(images := [])]
      ensures byId == old(byId) && nextId == old(nextId)
    {
      var s := byId[id];
      s.ClearImages();
      rows := rows[id := s.Row()];
    }

    /** `share.addImage(image)` on the share under `id`. */
    method AddImage(id: int, image: ShareImage)
      requires Valid() && id in byId
      modifies this, byId[id]
      ensures Valid()
      ensures rows == old(rows)[id := old(rows)[id].(images := old(rows)[id].images + [image.(share := Some(id))])]
      ensures byId == old(byId) && nextId == old(nextId)
    {
      var s := byId[id];
      s.AddImage(image);
      rows := rows[id := s.Row()];
    }
  }

  class ClaimRepository {
    var byId: map<int, Claim>
    var nextId: nat
    ghost var rows: map<int, ClaimRow>

    ghost predicate Valid()
      reads this, byId.Values
    {
      && rows.Keys == byId.Keys
      && (forall k {:trigger byId[k]} :: k in byId ==> byId[k].id == k && k < nextId && rows[k] == byId[k].Row())
    }

    constructor ()
      ensures Valid() && rows == map[] && nextId == 0
    {
      byId, nextId, rows := map[], 0, map[];
    }

    /** `claimRepository.save` of a new claim: refused when uk_wish_share
        would be violated, otherwise stored under the next id. */
    method Save(c: Claim) returns (saved: bool)
      requires Valid() && c.id == nextId
      modifies this
      ensures Valid()
      ensures saved <==> !HasClaimFor(old(rows), c.wishId, c.shareId)
      ensures !saved ==> unchanged(this)
      ensures saved ==> rows == old(rows)[c.id := c.Row()] && nextId == old(nextId) + 1
      ensures saved ==> byId == old(byId)[c.id := c]
    {
      if exists k :: k in byId && byId[k].wishId == c.wishId && byId[k].shareId == c.shareId {
        ghost var k :| k in byId && byId[k].wishId == c.wishId && byId[k].shareId == c.shareId;
        assert k in rows && rows[k] == byId[k].Row();
        return false;
      }
      assert !HasClaimFor(rows, c.wishId, c.shareId);
      byId := byId[c.id := c];
      nextId := nextId + 1;
      rows := rows[c.id := c.Row()];
      return true;
    }

    /** `claim.accept(now)`, `claim.reject(now)` or `claim.cancel(now)` on
        the claim under `id`. */
    method Apply(id: int, e: ClaimEvent, now: int)
      requires Valid() && id in byId
      modifies this, byId[id]
      ensures Valid()
      ensures rows == old(rows)[id := ClaimEntity.Apply(old(rows)[id], e, now)]
      ensures byId == old(byId) && nextId == old(nextId)
    {
      var c := byId[id];
      assert forall k | k in byId && k != id :: byId[k] != c;
      match e {
        case AcceptEvent => c.Accept(now);
        case RejectEvent => c.Reject(now);
        case CancelEvent => c.Cancel(now);
      }
      rows := rows[id := c.Row()];
    }
  }

  class TradeRepository {
    var byId: map<int, Trade>
    var nextId: nat
    ghost var rows: map<int, TradeRow>

    ghost predicate Valid()
      reads this, byId.Values
    {
      && rows.Keys == byId.Keys
      && (forall k {:trigger byId[k]} :: k in byId ==> byId[k].id == k && k < nextId && rows[k] == byId[k].Row())
    }

    constructor ()
      ensures Valid() && rows == map[] && nextId == 0
    {
      byId, nextId, rows := map[], 0, map[];
    }

    /** `tradeRepository.save` of a new trade. The caller has just found no
        trade for the claim, so uk_trade_claim holds and the save succeeds. */
    method Save(t: Trade)
      requires Valid() && t.id == nextId
      requires !HasTradeFor(rows, t.claimId)
      modifies this
      ensures Valid()
      ensures rows == old(rows)[t.id := t.Row()] && nextId == old(nextId) + 1
      ensures byId == old(byId)[t.id := t]
    {
      byId := byId[t.id := t];
      nextId := nextId + 1;
      rows := rows[t.id := t.Row()];
    }

    /** `trade.complete(now)` or `trade.cancel(now)` on the trade under `id`. */
    method Apply(id: int, e: TradeEvent, now: int)
      requires Valid() && id in byId
      modifies this, byId[id]
      ensures Valid()
      ensures rows == old(rows)[id := TradeEntity.Apply(old(rows)[id], e, now)]
      ensures byId == old(byId) && nextId == old(nextId)
    {
      var t := byId[id];
      assert forall k | k in byId && k != id :: byId[k] != t;
      match e {
        case CompleteEvent => t.Complete(now);
        case CancelEvent => t.Cancel(now);
      }
      rows := rows[id := t.Row()];
    }
  }

  class StoreRepository {
    var byId: map<int, Store>
    var nextId: nat
    ghost var rows: map<int, StoreRow>

    ghost predicate Valid()
      reads this, byId.Values
    {
      && rows.Keys == byId.Keys
      && (forall k {:trigger byId[k]} :: k in byId ==> byId[k].id == k && k < nextId && rows[k] == byId[k].Row())
    }

    constructor ()
      ensures Valid() && rows == map[] && nextId == 0
    {
      byId, nextId, rows := map[], 0, map[];
    }

    /** `store.increaseGiveTimes()` on the store under `id`. */
    method IncreaseGiveTimes(id: int)
      requires Valid() && id in byId
      modifies this, byId[id]
      ensures Valid()
      ensures rows == old(rows)[id := GiveCounted(old(rows)[id])]
      ensures byId == old(byId) && nextId == old(nextId)
    {
      var s := byId[id];
      s.IncreaseGiveTimes();
      rows := rows[id := s.Row()];
    }

    /** `store.increaseReceivedTimes()` on the store under `id`. */
    method IncreaseReceivedTimes(id: int)
      requires Valid() && id in byId
      modifies this, byId[id]
      ensures Valid()
      ensures rows == old(rows)[id := ReceiveCounted(old(rows)[id])]
      ensures byId == old(byId) && nextId == old(nextId)
    {
      var s := byId[id];
      s.IncreaseReceivedTimes();
      rows := rows[id := s.Row()];
    }

    /** findByOwnerId: the id of the store the member owns. */
    method FindByOwner(memberId: int) returns (r: Option<int>)
      requires Valid() && OwnersUnique(rows)
      ensures r == StoreOwnedBy(rows, memberId)
    {
      if exists k :: k in byId && byId[k].owner == Some(memberId) {
        var k :| k in byId && byId[k].owner == Some(memberId);
        assert rows[k] == byId[k].Row();
        return Some(k);
      }
      forall k | k in rows ensures rows[k].owner != Some(memberId) {
        assert rows[k] == byId[k].Row();
      }
      return None;
    }

    /** `store.updateImageKey(key)` on the store under `id`. */
    method SetImageKey(id: int, key: Option<string>)
      requires Valid() && id in byId
      modifies this, byId[id]
      ensures Valid()
      ensures rows == old(rows)[id := old(rows)[id].(storeImageKey := key)]
      ensures byId == old(byId) && nextId == old(nextId)
    {
      var s := byId[id];
      s.UpdateImageKey(key);
      rows := rows[id := s.Row()];
    }
  }

  /** The five repositories together. */
  class Db {
    const wishes: WishRepository
    const shares: ShareRepository
    const claims: ClaimRepository
    const trades: TradeRepository
    const stores: StoreRepository

    ghost predicate Valid()
      reads this, wishes, shares, claims, trades, stores
      reads wishes.byId.Values, shares.byId.Values, claims.byId.Values, trades.byId.Values, stores.byId.Values
    {
      wishes.Valid() && shares.Valid() && claims.Valid() && trades.Valid() && stores.Valid()
    }

    /** The database seen as rows. */
    ghost function Rows(): Tables
      reads this, wishes, shares, claims, trades, stores
    {
      Tables(wishes.rows, shares.rows, claims.rows, trades.rows, stores.rows,
             wishes.nextId, shares.nextId, claims.nextId, trades.nextId, stores.nextId)
    }

    constructor ()
      ensures Valid() && Rows() == Tables(map[], map[], map[], map[], map[], 0, 0, 0, 0, 0)
    {
      wishes := new WishRepository();
      shares := new ShareRepository();
      claims := new ClaimRepository();
      trades := new TradeRepository();
      stores := new StoreRepository();
    }

    /* One write through one repository, with the whole database kept
       valid and every other table unchanged. */

    method SaveClaim(c: Claim) returns (saved: bool)
      requires Valid() && c.id == claims.nextId
      modifies claims
      ensures Valid()
      ensures saved <==> !HasClaimFor(old(claims.rows), c.wishId, c.shareId)
      ensures !saved ==> Rows() == old(Rows())
      ensures saved ==> Rows() == old(Rows()).(claims := old(claims.rows)[c.id := c.Row()], nextClaimId := old(claims.nextId) + 1)
    {
      saved := claims.Save(c);
    }

    method TakeQuantity(id: int, amount: int) returns (r: Outcome)
      requires Valid() && id in shares.byId
      modifies shares, shares.byId[id]
      ensures Valid()
      ensures shares.byId == old(shares.byId)
      ensures old(shares.rows)[id].quantity < amount ==> r == Fail(BadRequest) && Rows() == old(Rows())
      ensures old(shares.rows)[id].quantity >= amount ==>
        r == Pass && Rows() == old(Rows()).(shares := old(shares.rows)[id := Taken(old(shares.rows)[id], amount)])
    {
      r := shares.TakeQuantity(id, amount);
    }

    method SaveTrade(t: Trade)
      requires Valid() && t.id == trades.nextId && !HasTradeFor(trades.rows, t.claimId)
      modifies trades
      ensures Valid()
      ensures Rows() == old(Rows()).(trades := old(trades.rows)[t.id := t.Row()], nextTradeId := old(trades.nextId) + 1)
    {
      trades.Save(t);
    }

    method ApplyTrade(id: int, e: TradeEvent, now: int)
      requires Valid() && id in trades.byId
      modifies trades, trades.byId[id]
      ensures Valid()
      ensures trades.byId == old(trades.byId)
      ensures Rows() == old(Rows()).(trades := old(trades.rows)[id := TradeEntity.Apply(old(trades.rows)[id], e, now)])
    {
      trades.Apply(id, e, now);
    }

    method ApplyClaim(id: int, e: ClaimEvent, now: int)
      requires Valid() && id in claims.byId
      modifies claims, claims.byId[id]
      ensures Valid()
      ensures claims.byId == old(claims.byId)
      ensures Rows() == old(Rows()).(claims := old(claims.rows)[id := ClaimEntity.Apply(old(claims.rows)[id], e, now)])
    {
      claims.Apply(id, e, now);
    }

    method CloseWish(id: int)
      requires Valid() && id in wishes.byId
      modifies wishes, wishes.byId[id]
      ensures Valid()
      ensures wishes.byId == old(wishes.byId)
      ensures Rows() == old(Rows()).(wishes := old(wishes.rows)[id := old(wishes.rows)[id].(isActive := false)])
    {
      wishes.Close(id);
    }

    method IncreaseGiveTimes(id: int)
      requires Valid() && id in stores.byId
      modifies stores, stores.byId[id]
      ensures Valid()
      ensures stores.byId == old(stores.byId)
      ensures Rows() == old(Rows()).(stores := old(stores.rows)[id := GiveCounted(old(stores.rows)[id])])
    {
      stores.IncreaseGiveTimes(id);
    }

    method IncreaseReceivedTimes(id: int)
      requires Valid() && id in stores.byId
      modifies stores, stores.byId[id]
      ensures Valid()
      ensures stores.byId == old(stores.byId)
      ensures Rows() == old(Rows()).(stores := old(stores.rows)[id := ReceiveCounted(old(stores.rows)[id])])
    {
      stores.IncreaseReceivedTimes(id);
    }

    method AddQuantity(id: int, amount: int)
      requires Valid() && id in shares.byId
      modifies shares, shares.byId[id]
      ensures Valid()
      ensures shares.byId == old(shares.byId)
      ensures Rows() == old(Rows()).(shares := old(shares.rows)[id := Restocked(old(shares.rows)[id], amount)])
    {
      shares.AddQuantity(id, amount);
    }

    method ClearImages(id: int)
      requires Valid() && id in shares.byId
      modifies shares, shares.byId[id]
      ensures Valid()
      ensures shares.byId == old(shares.byId)
      ensures Rows() == WithImages(old(Rows()), id, [])
    {
      shares.ClearImages(id);
    }

    method AddImage(id: int, image: ShareImage)
      requires Valid() && id in shares.byId
      modifies shares, shares.byId[id]
      ensures Valid()
      ensures shares.byId == old(shares.byId)
      ensures Rows() == WithImages(old(Rows()), id, old(shares.rows)[id].images + [image.(share := Some(id))])
    {
      shares.AddImage(id, image);
    }

    method SaveShare(s: Share)
      requires Valid() && s.id == shares.nextId
      modifies shares
      ensures Valid()
      ensures shares.byId == old(shares.byId)[s.id := s]
      ensures Rows() == old(Rows()).(shares := old(shares.rows)[s.id := s.Row()], nextShareId := old(shares.nextId) + 1)
    {
      shares.Save(s);
    }

    method SetStoreImageKey(id: int, key: Option<string>)
      requires Valid() && id in stores.byId
      modifies stores, stores.byId[id]
      ensures Valid()
      ensures stores.byId == old(stores.byId)
      ensures Rows() == old(Rows()).(stores := old(stores.rows)[id := old(stores.rows)[id].(storeImageKey := key)])
    {
      stores.SetImageKey(id, key);
    }
  }
}
