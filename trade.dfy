/** Trade: the hand-over agreed by an accepted claim. It snapshots the item
    columns of the share when it is made, and its status moves from MATCHED
    to COMPLETED or CANCELED, each stamped with its time. */
module TradeEntity {
  import opened Common
  import ClaimEntity
  import ShareEntity
  import WishEntity

  datatype TradeStatus = Matched | Completed | Canceled

  /** The two entity methods that move a trade. */
  datatype TradeEvent = CompleteEvent | CancelEvent

  /** The columns of a trade row. */
  datatype TradeRow = TradeRow(
    id: int,
    claimId: int,
    shareId: int,
    wishId: int,
    giverStoreId: int,
    receiverStoreId: int,
    primaryImageKey: Option<string>,
    itemName: string,
    brand: Option<string>,
    quantity: int,
    expirationDate: Option<int>,
    regDate: int,
    status: TradeStatus,
    completedAt: Option<int>,
    canceledAt: Option<int>)

  /** The row after an entity method at time `now`: both act on MATCHED only. */
  function Apply(t: TradeRow, e: TradeEvent, now: int): TradeRow
  {
    if t.status != Matched then t
    else match e
      case CompleteEvent => t.(status := Completed, completedAt := Some(now))
      case CancelEvent => t.(status := Canceled, canceledAt := Some(now))
  }

  /** The status after a sequence of entity calls. */
  function Run(t: TradeRow, es: seq<TradeEvent>, now: int): TradeRow
    decreases |es|
  {
    if |es| == 0 then t else Run(Apply(t, es[0], now), es[1..], now)
  }

  /** A well-formed row: a MATCHED trade has neither time, a COMPLETED one
      only its completion time, a CANCELED one only its cancellation time. */
  predicate WellFormed(t: TradeRow) {
    match t.status
    case Matched => t.completedAt.None? && t.canceledAt.None?
    case Completed => t.completedAt.Some? && t.canceledAt.None?
    case Canceled => t.canceledAt.Some? && t.completedAt.None?
  }

  /** Each method keeps a row well-formed. */
  lemma ApplyWellFormed(t: TradeRow, e: TradeEvent, now: int)
    requires WellFormed(t)
    ensures WellFormed(Apply(t, e, now))
  {
  }

  /** Along any run from a well-formed row, the two end times are never both
      set, and once the trade has left MATCHED it no longer changes. */
  lemma {:induction false} RunKeepsTimesApart(t: TradeRow, es: seq<TradeEvent>, now: int)
    requires WellFormed(t)
    ensures WellFormed(Run(t, es, now))
    ensures !(Run(t, es, now).completedAt.Some? && Run(t, es, now).canceledAt.Some?)
    ensures t.status != Matched ==> Run(t, es, now) == t
    decreases |es|
  {
    if |es| > 0 {
      ApplyWellFormed(t, es[0], now);
      RunKeepsTimesApart(Apply(t, es[0], now), es[1..], now);
    }
  }

  class Trade {
    const id: int
    const claimId: int
    const shareId: int
    const wishId: int
    const giverStoreId: int
    const receiverStoreId: int
    const primaryImageKey: Option<string>
    const itemName: string
    const brand: Option<string>
    const quantity: int
    const expirationDate: Option<int>
    const regDate: int
    var status: TradeStatus
    var completedAt: Option<int>
    var canceledAt: Option<int>

    function Row(): TradeRow
      reads this
    {
      TradeRow(id, claimId, shareId, wishId, giverStoreId, receiverStoreId, primaryImageKey,
               itemName, brand, quantity, expirationDate, regDate, status, completedAt, canceledAt)
    }

    /** fromAcceptedClaim: a MATCHED trade for the claim, the share's store
        giving and the wish's store receiving, with the image key snapshot
        handed in, the item columns of the share and the claim's quantity.
        `share` and `wish` are the claim's share and wish; `regDate` is the
        time the auditing listener stamps on the insert. */
    constructor FromAcceptedClaim(id: int, claim: ClaimEntity.Claim, share: ShareEntity.Share,
                                  wish: WishEntity.Wish, primaryImageKeySnapshot: Option<string>, regDate: int)
      requires share.id == claim.shareId && wish.id == claim.wishId
      ensures Row() == TradeRow(id, claim.id, share.id, wish.id, share.storeId, wish.storeId,
                                primaryImageKeySnapshot, share.itemName, share.brand, claim.quantity,
                                share.expirationDate, regDate, Matched, None, None)
      ensures WellFormed(Row())
    {
      this.id := id;
      this.claimId := claim.id;
      this.shareId := share.id;
      this.wishId := wish.id;
      this.giverStoreId := share.storeId;
      this.receiverStoreId := wish.storeId;
      this.primaryImageKey := primaryImageKeySnapshot;
      this.itemName := share.itemName;
      this.brand := share.brand;
      this.quantity := claim.quantity;
      this.expirationDate := share.expirationDate;
      this.regDate := regDate;
      this.status := Matched;
      this.completedAt := None;
      this.canceledAt := None;
    }

    /** complete: from MATCHED only, to COMPLETED at `now`. */
    method Complete(now: int)
      modifies this
      ensures Row() == Apply(old(Row()), CompleteEvent, now)
      ensures old(status) == Matched ==> status == Completed && completedAt == Some(now)
      ensures old(status) != Matched ==> Row() == old(Row())
    {
      if status == Matched {
        status := Completed;
        completedAt := Some(now);
      }
    }

    /** cancel: from MATCHED only, to CANCELED at `now`. */
    method Cancel(now: int)
      modifies this
      ensures Row() == Apply(old(Row()), CancelEvent, now)
      ensures old(status) == Matched ==> status == Canceled && canceledAt == Some(now)
      ensures old(status) != Matched ==> Row() == old(Row())
    {
      if status == Matched {
        status := Canceled;
        canceledAt := Some(now);
      }
    }
  }
}
