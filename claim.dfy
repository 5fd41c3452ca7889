/** Claim: a wish's request for a share. Its status moves along a small state
    machine; `decidedAt` records when it left PENDING. */
module ClaimEntity {
  import opened Common
  import WishEntity
  import ShareEntity

  datatype ClaimStatus = Pending | Accepted | Rejected | Canceled

  /** The three entity methods that move a claim. */
  datatype ClaimEvent = AcceptEvent | RejectEvent | CancelEvent

  /** The columns of a claim row. */
  datatype ClaimRow = ClaimRow(
    id: int,
    wishId: int,
    shareId: int,
    requesterStoreId: int,
    quantity: int,
    status: ClaimStatus,
    decidedAt: Option<int>)

  /** The status each entity method leaves: accept and reject act only on
      PENDING, cancel on PENDING and ACCEPTED. */
  function Next(s: ClaimStatus, e: ClaimEvent): ClaimStatus
  {
    match e
    case AcceptEvent => if s == Pending then Accepted else s
    case RejectEvent => if s == Pending then Rejected else s
    case CancelEvent => if s == Pending || s == Accepted then Canceled else s
  }

  /** The row after an entity method at time `now`: the status moves by Next,
      and `decidedAt` is stamped exactly when the status changes. */
  function Apply(c: ClaimRow, e: ClaimEvent, now: int): ClaimRow
  {
    var s := Next(c.status, e);
    if s == c.status then c else c.(status := s, decidedAt := Some(now))
  }

  /** The allowed status edges, staying put included: PENDING may go anywhere,
      ACCEPTED only to CANCELED, REJECTED and CANCELED nowhere. */
  predicate Edge(a: ClaimStatus, b: ClaimStatus) {
    a == b || a == Pending || (a == Accepted && b == Canceled)
  }

  /** A well-formed row carries a decision time exactly when it is decided. */
  predicate WellFormed(c: ClaimRow) {
    c.status == Pending <==> c.decidedAt.None?
  }

  /** The status after a sequence of entity calls. */
  function Run(s: ClaimStatus, es: seq<ClaimEvent>): ClaimStatus
    decreases |es|
  {
    if |es| == 0 then s else Run(Next(s, es[0]), es[1..])
  }

  /** Every entity call follows an allowed edge, and every edge between two
      different statuses is taken by some call. */
  lemma NextIsEdge(a: ClaimStatus, b: ClaimStatus)
    ensures (a == b || exists e :: Next(a, e) == b) <==> Edge(a, b)
  {
    if Edge(a, b) && a != b {
      var e := if b == Accepted then AcceptEvent else if b == Rejected then RejectEvent else CancelEvent;
      assert Next(a, e) == b;
    }
  }

  /** The edges compose. */
  lemma EdgeTransitive(a: ClaimStatus, b: ClaimStatus, c: ClaimStatus)
    requires Edge(a, b) && Edge(b, c)
    ensures Edge(a, c)
  {
  }

  /** However many entity calls are made, the status only ever moves along
      the allowed edges. */
  lemma {:induction false} RunIsEdge(s: ClaimStatus, es: seq<ClaimEvent>)
    ensures Edge(s, Run(s, es))
    decreases |es|
  {
    if |es| > 0 {
      NextIsEdge(s, Next(s, es[0]));
      RunIsEdge(Next(s, es[0]), es[1..]);
      EdgeTransitive(s, Next(s, es[0]), Run(Next(s, es[0]), es[1..]));
    }
  }

  /** REJECTED and CANCELED are absorbing: no sequence of calls leaves them. */
  lemma {:induction false} RunAbsorbing(s: ClaimStatus, es: seq<ClaimEvent>)
    requires s == Rejected || s == Canceled
    ensures Run(s, es) == s
    decreases |es|
  {
    if |es| > 0 {
      RunAbsorbing(Next(s, es[0]), es[1..]);
    }
  }

  /** The row effect of each method: accept and reject change a PENDING row
      only, cancel a PENDING or ACCEPTED row only, and a changed row has its
      new status stamped at `now`; every other column stays. */
  lemma ApplyEffect(c: ClaimRow, e: ClaimEvent, now: int)
    ensures var r := Apply(c, e, now);
      r.(status := c.status, decidedAt := c.decidedAt) == c
      && (r.status != c.status ==> r.decidedAt == Some(now))
      && (e != CancelEvent ==> (c.status == Pending <==> r.status != c.status))
      && (e == CancelEvent ==> ((c.status == Pending || c.status == Accepted) <==> r.status != c.status))
      && (r.status != c.status ==> r.status == match e
            case AcceptEvent => Accepted
            case RejectEvent => Rejected
            case CancelEvent => Canceled)
  {
  }

  /** Well-formedness is kept by every method. */
  lemma ApplyWellFormed(c: ClaimRow, e: ClaimEvent, now: int)
    requires WellFormed(c)
    ensures WellFormed(Apply(c, e, now))
  {
  }

  class Claim {
    const id: int
    const wishId: int
    const shareId: int
    const requesterStoreId: int
    const quantity: int
    var status: ClaimStatus
    var decidedAt: Option<int>

    function Row(): ClaimRow
      reads this
    {
      ClaimRow(id, wishId, shareId, requesterStoreId, quantity, status, decidedAt)
    }

    /** from: a PENDING, undecided claim of the wish on the share, made by the
        wish's store for the wish's quantity. */
    constructor From(id: int, wish: WishEntity.Wish, share: ShareEntity.Share)
      ensures Row() == ClaimRow(id, wish.id, share.id, wish.storeId, wish.quantity, Pending, None)
      ensures WellFormed(Row())
    {
      this.id := id;
      this.wishId := wish.id;
      this.shareId := share.id;
      this.requesterStoreId := wish.storeId;
      this.quantity := wish.quantity;
      this.status := Pending;
      this.decidedAt := None;
    }

    /** accept: from PENDING only, to ACCEPTED decided at `now`. */
    method Accept(now: int)
      modifies this
      ensures Row() == Apply(old(Row()), AcceptEvent, now)
      ensures old(status) == Pending ==> status == Accepted && decidedAt == Some(now)
      ensures old(status) != Pending ==> Row() == old(Row())
    {
      if status != Pending {
        return;
      }
      status := Accepted;
      decidedAt := Some(now);
    }

    /** reject: from PENDING only, to REJECTED decided at `now`. */
    method Reject(now: int)
      modifies this
      ensures Row() == Apply(old(Row()), RejectEvent, now)
      ensures old(status) == Pending ==> status == Rejected && decidedAt == Some(now)
      ensures old(status) != Pending ==> Row() == old(Row())
    {
      if status != Pending {
        return;
      }
      status := Rejected;
      decidedAt := Some(now);
    }

    /** cancel: nothing on CANCELED or REJECTED; PENDING and ACCEPTED go to
        CANCELED decided at `now`. */
    method Cancel(now: int)
      modifies this
      ensures Row() == Apply(old(Row()), CancelEvent, now)
      ensures old(status) == Canceled || old(status) == Rejected ==> Row() == old(Row())
      ensures old(status) == Pending || old(status) == Accepted ==>
        status == Canceled && decidedAt == Some(now)
    {
      if status == Canceled || status == Rejected {
        return;
      }
      if status == Pending || status == Accepted {
        status := Canceled;
        decidedAt := Some(now);
      }
    }
  }
}
