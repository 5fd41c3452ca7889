# ITGO server: a verified model of the sharing core

ITGO lets stores give away surplus food and goods. A store posts a **share**
(an item with a stock count, an expiry date and opening hours) and a **wish**
(what it would like to receive). Another store's wish can **claim** a share.
The share's owner accepts or rejects the claim. An accepted claim takes its
quantity off the share's stock and opens a **trade**. The trade is later
completed, which closes the wish and bumps both stores' give and receive
counters, or cancelled, which returns the stock. Images live in object
storage: the server hands out upload keys, checks what was uploaded and
records the keys.

This project models that core in Dafny and proves what the code promises
about it.

- **Entities.** These six modules are classes whose methods update their
  fields in place, each with a `Row()` value describing it:
  - `ClaimEntity` (claim.dfy), whose state machine is PENDING to
    ACCEPTED, REJECTED or CANCELED;
  - `TradeEntity` (trade.dfy), whose state machine is MATCHED to COMPLETED
    or CANCELED;
  - `ShareEntity` (share.dfy), which holds the stock and the image list;
  - `WishEntity` (wish.dfy), which holds the active flag;
  - `StoreEntity` (store.dfy), which holds the two 32-bit counters;
  - `Common` (common.dfy), which holds the shared value types.
- **The tables.** `Database` (database.dfy) sees the database as plain rows.
  It holds the invariant:
  - keys and ids agree, and every key lies below the next IDENTITY value;
  - stock is never negative and fits an `int`;
  - there is one claim per (wish, share) pair, as the `uk_wish_share`
    constraint demands, and one trade per claim, as `uk_trade_claim` demands;
  - trades agree with their claims.

  It also defines each share's **committed stock**: its quantity plus the
  quantities of its ACCEPTED claims. `TableWrites` (table_writes.dfy)
  proves the invariant under each kind of row write.
- **Repositories.** `Repositories` (repositories.dfy) is the persistence
  context. It has one class per repository, with a map from id to entity
  object, and a `Db` class whose `Rows()` is the current tables.
- **Services.**
  - `ClaimService` (claim_service.dfy) covers request, accept, reject and
    cancel.
  - `TradeService` (trade_service.dfy) covers createFromAcceptedClaim,
    get, complete and cancel.
  - `Lifecycle` (lifecycle.dfy) covers any sequence of these calls.

  Each service method is proved against a pure step function on the
  tables: `Step(result, new tables) == XStep(old tables, ...)`. The
  lemmas about the step functions prove two things. Each call keeps the
  invariant. The committed stock of every share is never changed by any
  call.
- **Listings.** `ShareListing` (listing.dfy) covers the where-clauses and
  ordering of `findMatchesForWish` and `findActiveByDong`. `Sequences`
  (sequences.dfy) supplies filtering, sorting and slicing.
- **Strings and keys.**
  - `Text` (text.dfy) covers the `java.lang.String` operations used.
  - `S3ImageService` (s3_keys.dfy) covers the object-key builders and
    their helpers.
  - `PublicUrlResolver` (public_url.dfy) covers turning a key into a URL.
- **Images.**
  - `ImageUploads` (image_uploads.dfy) holds the limits and MIME-type
    parsing.
  - `ShareImageRequests` (image_requests.dfy) covers the `isSeqsValid`
    checks.
  - `ShareImageService` (share_images.dfy) covers presign and confirm.
  - `StoreImageService` (store_images.dfy) covers presignDraft and
    commitFromDraft.
- **Shares.** `ShareService` (share_service.dfy) covers create, get and the
  "my share cards" listing.

Java's `null` is `None`. An exception that the code throws deliberately
is an `Err` carrying its `GlobalErrorCode`. An exception that the code
does not anticipate, such as a null dereference or an unboxing failure,
is `Err(Internal)`. A transaction that fails leaves the tables as they
were, which is what the rollback does. Wall-clock values (`now`, `today`)
and UUIDs are parameters.

Source paths below are relative to the repository root.

## Model

| member | source | states |
|---|---|---|
| ClaimEntity.NextIsEdge | src/main/java/likelion/itgoserver/domain/claim/entity/Claim.java:56-77 | each of accept, reject and cancel moves the status along an allowed edge (PENDING to any status, ACCEPTED only to CANCELED), and every such edge is taken by one of them |
| ClaimEntity.RunIsEdge | src/main/java/likelion/itgoserver/domain/claim/entity/Claim.java:56-77 | after any sequence of entity calls the status has moved only along the allowed edges |
| ClaimEntity.RunAbsorbing | src/main/java/likelion/itgoserver/domain/claim/entity/Claim.java:56-77 | REJECTED and CANCELED are absorbing under any sequence of accept, reject and cancel |
| ClaimEntity.ApplyEffect | src/main/java/likelion/itgoserver/domain/claim/entity/Claim.java:56-77 | accept and reject change only a PENDING claim and cancel only a PENDING or ACCEPTED one; a changed claim gets the method's status and decidedAt = now; every other column stays |
| ClaimEntity.ApplyWellFormed | src/main/java/likelion/itgoserver/domain/claim/entity/Claim.java:54-77 | "decidedAt is set exactly when the claim is no longer PENDING" is kept by every entity method |
| ClaimEntity.Claim.From | src/main/java/likelion/itgoserver/domain/claim/entity/Claim.java:79-87 | the new claim is PENDING with no decidedAt, for the wish and share, made by the wish's store for the wish's quantity |
| ClaimEntity.Claim.Accept | src/main/java/likelion/itgoserver/domain/claim/entity/Claim.java:56-60 | from PENDING: ACCEPTED with decidedAt = now; from any other status nothing changes |
| ClaimEntity.Claim.Reject | src/main/java/likelion/itgoserver/domain/claim/entity/Claim.java:62-66 | from PENDING: REJECTED with decidedAt = now; from any other status nothing changes |
| ClaimEntity.Claim.Cancel | src/main/java/likelion/itgoserver/domain/claim/entity/Claim.java:68-77 | nothing changes on CANCELED or REJECTED; PENDING and ACCEPTED become CANCELED with decidedAt = now |
| TradeEntity.ApplyWellFormed | src/main/java/likelion/itgoserver/domain/trade/entity/Trade.java:86-98 | complete and cancel keep a trade row well-formed (each end time is set only with its status) |
| TradeEntity.RunKeepsTimesApart | src/main/java/likelion/itgoserver/domain/trade/entity/Trade.java:86-98 | along any sequence of calls completedAt and canceledAt are never both set, and a trade that has left MATCHED never changes again |
| TradeEntity.Trade.FromAcceptedClaim | src/main/java/likelion/itgoserver/domain/trade/entity/Trade.java:68-84 | a MATCHED trade for the claim: the share's store gives, the wish's store receives, with the image-key snapshot, the share's item name, brand and expiry, the claim's quantity and the insert time as regDate |
| TradeEntity.Trade.Complete | src/main/java/likelion/itgoserver/domain/trade/entity/Trade.java:86-91 | from MATCHED: COMPLETED with completedAt = now; otherwise nothing changes |
| TradeEntity.Trade.Cancel | src/main/java/likelion/itgoserver/domain/trade/entity/Trade.java:93-98 | from MATCHED: CANCELED with canceledAt = now; otherwise nothing changes |
| ShareEntity.RemoveFirstRemovesOne | src/main/java/likelion/itgoserver/domain/share/entity/Share.java:58-60 | `List.remove` takes out exactly one occurrence of the image if there is one (multiset minus one, length minus one) and otherwise leaves the list as it is |
| ShareEntity.RemoveFirstSplits | src/main/java/likelion/itgoserver/domain/share/entity/Share.java:58-60 | `List.remove` keeps the order of the other images: what precedes the first occurrence and what follows it are joined |
| ShareEntity.PrimaryImageKey | src/main/java/likelion/itgoserver/domain/image/repository/ShareImageRepository.java:10 | `findByShareIdAndSeq(id, 0)`: no key exactly when the share has no slot-0 image; otherwise the key of one of its slot-0 images |
| ShareEntity.Share.constructor | src/main/java/likelion/itgoserver/domain/share/entity/Share.java:30-47 | the builder stores every column it is given and starts with no images |
| ShareEntity.Share.AddImage | src/main/java/likelion/itgoserver/domain/share/entity/Share.java:53-56 | the image, linked to this share, is appended at the end of the list; nothing else changes |
| ShareEntity.Share.RemoveImage | src/main/java/likelion/itgoserver/domain/share/entity/Share.java:58-60 | the list loses its first image equal to the argument; nothing else changes |
| ShareEntity.Share.ClearImages | src/main/java/likelion/itgoserver/domain/image/service/ShareImageService.java:142 | the image list becomes empty; nothing else changes |
| ShareEntity.Share.DecreaseQuantity | src/main/java/likelion/itgoserver/domain/share/entity/Share.java:66-71 | stock below the amount: BAD_REQUEST and nothing changes; otherwise the stock drops by exactly the amount on a Java int, and an int stock with an amount of at least 0 stays at least 0 |
| ShareEntity.Share.IncreaseQuantity | src/main/java/likelion/itgoserver/domain/trade/service/TradeService.java:135 | `quantity += amount` on a Java int (the method is not in Share.java; see Left out) |
| WishEntity.Wish.constructor | src/main/java/likelion/itgoserver/domain/wish/entity/Wish.java:52-54 | a new wish is active; every other column comes from its argument |
| WishEntity.Wish.Close | src/main/java/likelion/itgoserver/domain/wish/entity/Wish.java:60-62 | the wish is inactive afterwards, no other column changes, and closing a closed wish changes nothing |
| StoreEntity.Store.constructor | src/main/java/likelion/itgoserver/domain/store/entity/Store.java:41-47 | giveTimes and receivedTimes start at 0 and there is no image key |
| StoreEntity.Store.Update | src/main/java/likelion/itgoserver/domain/store/entity/Store.java:52-59 | name, address, opening hours, phone and description are replaced; owner, image key and both counters keep their values |
| StoreEntity.Store.UpdateImageKey | src/main/java/likelion/itgoserver/domain/store/entity/Store.java:68-70 | only the image key changes |
| StoreEntity.Store.IncreaseGiveTimes | src/main/java/likelion/itgoserver/domain/store/entity/Store.java:72 | giveTimes goes up by exactly 1 on a Java int (wrapping at the top); receivedTimes and every other column stay |
| StoreEntity.Store.IncreaseReceivedTimes | src/main/java/likelion/itgoserver/domain/store/entity/Store.java:73 | receivedTimes goes up by exactly 1 on a Java int (wrapping at the top); giveTimes and every other column stay |
| StoreEntity.CounterWrapsAtTop | src/main/java/likelion/itgoserver/domain/store/entity/Store.java:72-73 | the wrap-around is real: a counter at 2^31 - 1 becomes -2^31 after one more increment |
| Common.Wrap32 | src/main/java/likelion/itgoserver/domain/store/entity/Store.java:72-73 | Java's int `+=`: the result lies in the int range and equals the exact value when that fits |
| Common.Wrap32Congruent | src/main/java/likelion/itgoserver/domain/store/entity/Store.java:72-73 | the wrapped value is congruent to the exact value modulo 2^32 |
| Database.SumUpdate | src/main/java/likelion/itgoserver/domain/trade/service/TradeService.java:132-137 | replacing one claim row changes a share's accepted-claim total by exactly the difference of the two rows' contributions |
| Database.SumExtended | src/main/java/likelion/itgoserver/domain/claim/service/ClaimService.java:62-65 | a claim inserted under the next id adds its own contribution to the accepted-claim total |
| Database.SumCovers | src/main/java/likelion/itgoserver/domain/claim/service/ClaimService.java:93-101 | with non-negative claim quantities, each accepted claim's quantity is part of its share's total, and the total is not negative |
| Database.SumUnreferenced | src/main/java/likelion/itgoserver/domain/share/service/ShareService.java:72-73 | a share that no claim refers to has nothing committed to accepted claims |
| Database.ConservesUntouched | src/main/java/likelion/itgoserver/domain/claim/service/ClaimService.java:85-87 | a step that writes neither shares nor claims keeps every share's committed stock (stock plus accepted claims) |
| Database.WithImagesTwice | src/main/java/likelion/itgoserver/domain/image/service/ShareImageService.java:141-149 | of two replacements of one share's image list, the later one stands |
| Database.StoreOwnedBy | src/main/java/likelion/itgoserver/domain/store/repository/StoreRepository.java:14-16 | `findByOwnerId`: a store the member owns, none exactly when no store has that owner, and with owners unique the only one |
| Database.EmptyInvariant | src/main/java/likelion/itgoserver/domain/claim/entity/Claim.java:17-21 | the empty database meets the invariant (ids under their keys, quantities in range, uk_wish_share, uk_trade_claim, trades linked to their claims) |
| TableWrites.TradeInserted | src/main/java/likelion/itgoserver/domain/trade/entity/Trade.java:19-21 | inserting a well-formed trade under the next id, for a claim without a trade, MATCHED only when the claim is ACCEPTED, keeps the invariant, uk_trade_claim included |
| TableWrites.TradeReplaced | src/main/java/likelion/itgoserver/domain/trade/entity/Trade.java:86-98 | replacing a trade by one with the same id, claim and share that is well-formed and MATCHED only if the old one was keeps the invariant |
| TableWrites.WishReplaced | src/main/java/likelion/itgoserver/domain/wish/entity/Wish.java:60-62 | replacing a wish by one with the same id and quantity keeps the invariant |
| TableWrites.StoreReplaced | src/main/java/likelion/itgoserver/domain/store/entity/Store.java:68-73 | replacing a store by one with the same id and owner keeps the invariant |
| TableWrites.ClaimInserted | src/main/java/likelion/itgoserver/domain/claim/entity/Claim.java:17-21 | inserting a PENDING, well-formed claim under the next id for a (wish, share) pair without a claim keeps the invariant, uk_wish_share included, and every share's committed stock |
| TableWrites.ClaimReplaced | src/main/java/likelion/itgoserver/domain/claim/entity/Claim.java:56-77 | replacing a claim by a well-formed one with the same keys and quantity that is ACCEPTED exactly when the old one was keeps the invariant and every committed stock |
| TableWrites.ClaimAndShareReplaced | src/main/java/likelion/itgoserver/domain/claim/service/ClaimService.java:99-101 | moving a share's stock by the change in what its claim holds, while the claim row is replaced, keeps the invariant and every committed stock when the stock stays non-negative |
| TableWrites.ClaimAndShareConserves | src/main/java/likelion/itgoserver/domain/trade/service/TradeService.java:132-137 | such a combined claim and share write leaves the committed stock of every share as it was |
| ClaimService.RequestOutcome | src/main/java/likelion/itgoserver/domain/claim/service/ClaimService.java:55-72 | an unknown wish or share is NOT_FOUND and a repeated (wish, share) pair BAD_REQUEST, with nothing written; a new claim is PENDING, undecided and by the wish's store for the wish's quantity under a fresh id; every old claim stays; afterwards the pair has exactly one claim and asking again is BAD_REQUEST |
| ClaimService.RequestKeepsInvariant | src/main/java/likelion/itgoserver/domain/claim/service/ClaimService.java:55-72 | request keeps the invariant and every share's committed stock |
| ClaimService.AcceptOutcome | src/main/java/likelion/itgoserver/domain/claim/service/ClaimService.java:81-107 | unknown claim: NOT_FOUND; claim not PENDING: returned unchanged with nothing written; missing share: NOT_FOUND; stock below the claim: claim REJECTED at now, stock unchanged, no trade; enough stock: stock lowered by exactly the claim's quantity and still at least 0, claim ACCEPTED at now, exactly one trade for the claim (or nothing written when making the trade throws) |
| ClaimService.AcceptedStock | src/main/java/likelion/itgoserver/domain/claim/service/ClaimService.java:99-101 | the stock and claim writes of a successful accept keep the invariant and every committed stock |
| ClaimService.AcceptKeepsInvariant | src/main/java/likelion/itgoserver/domain/claim/service/ClaimService.java:81-107 | accept keeps the invariant and every share's committed stock |
| ClaimService.RejectOutcome | src/main/java/likelion/itgoserver/domain/claim/service/ClaimService.java:115-124 | unknown claim: NOT_FOUND; PENDING: REJECTED at now and nothing else changes; any other status: returned unchanged with nothing written |
| ClaimService.CancelOutcome | src/main/java/likelion/itgoserver/domain/claim/service/ClaimService.java:131-153 | unknown claim: NOT_FOUND; CANCELED or REJECTED: returned unchanged; PENDING: CANCELED at now and nothing else changes; ACCEPTED: BAD_REQUEST with nothing written |
| ClaimService.RejectKeepsInvariant | src/main/java/likelion/itgoserver/domain/claim/service/ClaimService.java:115-124 | reject keeps the invariant and every committed stock |
| ClaimService.CancelKeepsInvariant | src/main/java/likelion/itgoserver/domain/claim/service/ClaimService.java:131-153 | cancel keeps the invariant and every committed stock |
| ClaimService.Request | src/main/java/likelion/itgoserver/domain/claim/service/ClaimService.java:55-72 | on the repositories: the result and the new tables are those of the request step |
| ClaimService.AcceptWithStock | src/main/java/likelion/itgoserver/domain/claim/service/ClaimService.java:99-104 | on the repositories, for a PENDING claim with enough stock: the result and new tables of the accept step |
| ClaimService.Accept | src/main/java/likelion/itgoserver/domain/claim/service/ClaimService.java:81-107 | on the repositories: the result and the new tables are those of the accept step |
| ClaimService.Reject | src/main/java/likelion/itgoserver/domain/claim/service/ClaimService.java:115-124 | on the repositories: the result and the new tables are those of the reject step |
| ClaimService.Cancel | src/main/java/likelion/itgoserver/domain/claim/service/ClaimService.java:131-153 | on the repositories: the result and the new tables are those of the cancel step |
| TradeService.DetailOutcome | src/main/java/likelion/itgoserver/domain/trade/service/TradeService.java:56-92 | get: unknown trade NOT_FOUND, success exactly when both stores exist; the detail carries the trade's id, item name, brand, quantity, expiry, status and completedAt, its regDate as matchedAt, and the two stores' ids, and has an image URL exactly when the trade has a non-blank image key |
| TradeService.RespondCases | src/main/java/likelion/itgoserver/domain/trade/service/TradeService.java:110 | a call that ends in `get` answers the detail of the trade in the new tables, or an error with the old tables |
| TradeService.NewTradeOnce | src/main/java/likelion/itgoserver/domain/trade/service/TradeService.java:35-52 | the claim ends with exactly one trade and a second call changes nothing; old trades stay; a new trade is MATCHED, is the claim's, has the call's now as regDate, and carries the key of a slot-0 image of the share, or no key when there is none |
| TradeService.NewTradeKeepsInvariant | src/main/java/likelion/itgoserver/domain/trade/service/TradeService.java:35-52 | for an ACCEPTED claim, createFromAcceptedClaim keeps the invariant and moves no stock |
| TradeService.CompleteOutcome | src/main/java/likelion/itgoserver/domain/trade/service/TradeService.java:96-111 | unknown trade: NOT_FOUND; a MATCHED trade becomes COMPLETED at now and its wish is closed, any other trade and every wish stay; in every case the giver's giveTimes and the receiver's receivedTimes go up by 1 (Java int), no other store, claim or share changes |
| TradeService.CompleteKeepsInvariant | src/main/java/likelion/itgoserver/domain/trade/service/TradeService.java:96-111 | complete keeps the invariant and moves no stock |
| TradeService.MatchedClaimAccepted | src/main/java/likelion/itgoserver/domain/trade/service/TradeService.java:128-137 | in tables meeting the invariant, a MATCHED trade's claim is ACCEPTED and on the trade's share, and giving its quantity back stays within Java's int |
| TradeService.CancelOutcome | src/main/java/likelion/itgoserver/domain/trade/service/TradeService.java:115-142 | unknown trade: NOT_FOUND; COMPLETED: BAD_REQUEST with nothing written; CANCELED: left as it is; MATCHED with claim and share there: the claim's quantity goes back to the share exactly, claim and trade become CANCELED at now, nothing else changes |
| TradeService.CancelKeepsInvariant | src/main/java/likelion/itgoserver/domain/trade/service/TradeService.java:115-142 | cancel keeps the invariant and every share's committed stock |
| TradeService.Get | src/main/java/likelion/itgoserver/domain/trade/service/TradeService.java:56-92 | on the repositories: the answer is the detail function of the tables |
| TradeService.CreateFromAcceptedClaim | src/main/java/likelion/itgoserver/domain/trade/service/TradeService.java:35-52 | on the repositories: the new tables are those of the create-trade step, or unchanged with its error |
| TradeService.Complete | src/main/java/likelion/itgoserver/domain/trade/service/TradeService.java:96-111 | on the repositories: the result and the new tables are those of the complete step |
| TradeService.Cancel | src/main/java/likelion/itgoserver/domain/trade/service/TradeService.java:115-142 | on the repositories: the result and the new tables are those of the cancel step |
| Lifecycle.AfterKeepsInvariant | src/main/java/likelion/itgoserver/domain/claim/service/ClaimService.java:55-153 | each claim or trade service call keeps the invariant and every share's committed stock |
| Lifecycle.AfterAllKeepsInvariant | src/main/java/likelion/itgoserver/domain/trade/service/TradeService.java:132-137 | any sequence of calls from tables meeting the invariant ends meeting it (stock never negative, at most one trade per claim, at most one claim per wish and share), and every share that existed at the start keeps stock plus accepted claims exactly |
| Lifecycle.AcceptLeavesTrade | src/main/java/likelion/itgoserver/domain/claim/service/ClaimService.java:99-104 | an accept with enough stock leaves a MATCHED trade for the claim under the next trade id, on the claim's share, with both stores in place |
| Lifecycle.AcceptThenCancelRestoresStock | src/main/java/likelion/itgoserver/domain/trade/service/TradeService.java:132-140 | accepting a PENDING claim with enough stock and then cancelling the trade it made gives the share back exactly its stock from before the accept, and leaves claim and trade CANCELED |
| Repositories.ClaimRepository.Save | src/main/java/likelion/itgoserver/domain/claim/service/ClaimService.java:64-69 | the save is refused exactly when the (wish, share) pair already has a claim (uk_wish_share), and then nothing changes; otherwise the claim is stored under the next id |
| Repositories.TradeRepository.Save | src/main/java/likelion/itgoserver/domain/trade/service/TradeService.java:44-46 | the new trade is stored under the next id and nothing else changes |
| Repositories.ShareRepository.TakeQuantity | src/main/java/likelion/itgoserver/domain/share/entity/Share.java:66-71 | a stored share with stock below the amount: BAD_REQUEST and nothing written; otherwise its row is the decreased one |
| Repositories.StoreRepository.FindByOwner | src/main/java/likelion/itgoserver/domain/store/repository/StoreRepository.java:14-16 | the answer is the store the member owns: found stores are owned by the member, and none is found exactly when no store is |
| Repositories.ShareRepository.Save | src/main/java/likelion/itgoserver/domain/share/service/ShareService.java:73 | the new share is stored under the next id; the other rows stay |
| Repositories.ShareRepository.AddQuantity | src/main/java/likelion/itgoserver/domain/trade/service/TradeService.java:135 | only the one share's stock changes, by the int `+=` |
| Repositories.ShareRepository.ClearImages | src/main/java/likelion/itgoserver/domain/image/service/ShareImageService.java:142-143 | only the one share's image list changes, to empty |
| Repositories.ShareRepository.AddImage | src/main/java/likelion/itgoserver/domain/share/entity/Share.java:53-56 | only the one share's image list changes: the image, linked to the share, goes at the end |
| Repositories.WishRepository.Close | src/main/java/likelion/itgoserver/domain/trade/service/TradeService.java:101 | only the one wish changes, to inactive |
| Repositories.StoreRepository.IncreaseGiveTimes | src/main/java/likelion/itgoserver/domain/trade/service/TradeService.java:107 | only the giver's giveTimes changes, by one on a Java int |
| Repositories.StoreRepository.IncreaseReceivedTimes | src/main/java/likelion/itgoserver/domain/trade/service/TradeService.java:108 | only the receiver's receivedTimes changes, by one on a Java int |
| Repositories.StoreRepository.SetImageKey | src/main/java/likelion/itgoserver/domain/store/service/StoreImageService.java:80-82 | only the one store's image key changes |
| TradeService.CompleteTrade | src/main/java/likelion/itgoserver/domain/trade/service/TradeService.java:99-102 | the tables become those of the complete step's writes: a MATCHED trade becomes COMPLETED at now and its wish inactive, and a trade in any other status writes nothing |
| TradeService.CountTrade | src/main/java/likelion/itgoserver/domain/trade/service/TradeService.java:105-108 | the giver's giveTimes and the receiver's receivedTimes rise by one, and nothing else changes |
| TradeService.ReturnClaimStock | src/main/java/likelion/itgoserver/domain/trade/service/TradeService.java:132-137 | a claim not yet CANCELED gives its quantity back to the share and becomes CANCELED |
| TradeService.CancelTrade | src/main/java/likelion/itgoserver/domain/trade/service/TradeService.java:128-140 | the claim's stock goes back and the trade becomes CANCELED, as in the cancel step |
| TradeService.MarkCanceledKeepsInvariant | src/main/java/likelion/itgoserver/domain/trade/service/TradeService.java:128-140 | the writes of cancel on a MATCHED trade keep the invariant and every committed stock |
| TradeService.CountedKeepsInvariant | src/main/java/likelion/itgoserver/domain/trade/service/TradeService.java:105-108 | bumping the two counters keeps the invariant |
| ClaimService.TakeAndAccept | src/main/java/likelion/itgoserver/domain/claim/service/ClaimService.java:99-101 | the stock drops by the claim's quantity and the claim becomes ACCEPTED |
| Text.TrimStartShape | src/main/java/likelion/itgoserver/global/infra/s3/service/S3ImageService.java:138-140 | Java's trim drops exactly the longest prefix of chars at or below U+0020; the first char kept lies above it |
| Text.TrimEndShape | src/main/java/likelion/itgoserver/global/infra/s3/service/S3ImageService.java:138-140 | Java's trim drops exactly the longest suffix of chars at or below U+0020; the last char kept lies above it |
| Text.TrimEnds | src/main/java/likelion/itgoserver/global/infra/s3/service/S3ImageService.java:138-140 | a non-empty trimmed string starts and ends with a char above U+0020 |
| Text.TrimEmptyIff | src/main/java/likelion/itgoserver/global/infra/s3/service/S3ImageService.java:138-140 | trim gives the empty string if and only if every char is at or below U+0020, which is what isBlank tests |
| Text.TrimOfTrimmed | src/main/java/likelion/itgoserver/global/infra/s3/service/PublicUrlResolver.java:54-56 | a string whose ends lie above U+0020 is its own trim |
| Text.ToLower | src/main/java/likelion/itgoserver/global/infra/s3/service/PublicUrlResolver.java:38-41 | toLowerCase(Locale.ROOT) keeps the length and maps each char on its own |
| Text.ToLowerIdempotent | src/main/java/likelion/itgoserver/global/infra/s3/service/PublicUrlResolver.java:38-41 | lower-casing twice is lower-casing once |
| Text.ToLowerConcat | src/main/java/likelion/itgoserver/global/infra/s3/service/S3ImageService.java:105 | lower-casing distributes over concatenation |
| Text.LastIndexOf | src/main/java/likelion/itgoserver/global/infra/s3/service/S3ImageService.java:103 | lastIndexOf gives -1 or an index holding the char, and no later index holds it |
| Text.LastIndexOfSplit | src/main/java/likelion/itgoserver/global/infra/s3/service/S3ImageService.java:103 | in a + c + b with no c in b, the last c is the one at index \|a\| |
| Text.BeforeSemicolon | src/main/java/likelion/itgoserver/domain/image/service/ShareImageService.java:198 | split(";", 2)[0] is the longest prefix without ';', followed in the input by a ';' when it is shorter than the input |
| Text.BeforeSemicolonSplit | src/main/java/likelion/itgoserver/domain/image/service/ShareImageService.java:198 | for a + ";" + b with no ';' in a, the part before the first ';' is a |
| Text.IntToString | src/main/java/likelion/itgoserver/global/infra/s3/service/S3ImageService.java:33-46 | the decimal form of a Long or int is non-empty, made only of digits and '-', and ends with a digit |
| Text.TrimmedSlashesShape | src/main/java/likelion/itgoserver/global/infra/s3/service/S3ImageService.java:131-136 | trimSlashes returns a contiguous piece of its input with no '/' at either end, and everything it cuts off is '/' |
| Text.TrimmedSlashesNoop | src/main/java/likelion/itgoserver/global/infra/s3/service/S3ImageService.java:131-136 | a string with no '/' at either end is returned unchanged |
| Text.TrimmedSlashesIdempotent | src/main/java/likelion/itgoserver/global/infra/s3/service/S3ImageService.java:131-136 | trimSlashes is idempotent |
| Text.TrimSlashes | src/main/java/likelion/itgoserver/global/infra/s3/service/S3ImageService.java:131-136 | the two loops moving start and end inwards compute the slash-trimmed string |
| S3ImageService.AllowedExtShape | src/main/java/likelion/itgoserver/global/infra/s3/service/S3ImageService.java:25 | every allowed extension (jpg, jpeg, png, webp, gif) is a non-empty run of lower-case ASCII letters |
| S3ImageService.CleanExt | src/main/java/likelion/itgoserver/global/infra/s3/service/S3ImageService.java:109-114 | cleanExt always returns an allowed extension: "jpg" for a blank one or one not allowed, else the trimmed, lower-cased extension without a leading '.' |
| S3ImageService.CleanExtIdempotent | src/main/java/likelion/itgoserver/global/infra/s3/service/S3ImageService.java:109-114 | cleaning a cleaned extension changes nothing |
| S3ImageService.CleanExtDotted | src/main/java/likelion/itgoserver/global/infra/s3/service/S3ImageService.java:112 | a leading '.' is dropped, so ".png" cleans to "png" |
| S3ImageService.ExtractExtFromKey | src/main/java/likelion/itgoserver/global/infra/s3/service/S3ImageService.java:101-107 | extractExtFromKey always returns an allowed extension: "jpg" when the trimmed key has no '.' or ends with it, else the lower-cased text after the last '.' when that is allowed |
| S3ImageService.Join | src/main/java/likelion/itgoserver/global/infra/s3/service/S3ImageService.java:120-129 | the StringBuilder loop of join computes the fold that skips blank parts and puts a '/' before each slash-trimmed part except the first |
| S3ImageService.JoinSkipsBlank | src/main/java/likelion/itgoserver/global/infra/s3/service/S3ImageService.java:123 | join gives the same key with the blank parts removed |
| S3ImageService.JoinedClean | src/main/java/likelion/itgoserver/global/infra/s3/service/S3ImageService.java:120-129 | for non-blank parts with no '/' at either end, join is the parts separated by single '/' |
| S3ImageService.FileNameClean | src/main/java/likelion/itgoserver/global/infra/s3/service/S3ImageService.java:33-46 | the file name uuid + "." + cleanExt(ext) that ends every key is a clean segment with no '/' |
| S3ImageService.StoreDraftKeyJoined | src/main/java/likelion/itgoserver/global/infra/s3/service/S3ImageService.java:32-34 | storeDraftKey is drafts/<memberId>/store/image/<uuid>.<ext> |
| S3ImageService.StoreImageKeyJoined | src/main/java/likelion/itgoserver/global/infra/s3/service/S3ImageService.java:35-37 | storeImageKey is stores/<storeId>/image/<uuid>.<ext> |
| S3ImageService.DraftKeyJoined | src/main/java/likelion/itgoserver/global/infra/s3/service/S3ImageService.java:40-42 | draftKey is drafts/<memberId>/images/<seq>_<uuid>.<ext> |
| S3ImageService.ShareKeyJoined | src/main/java/likelion/itgoserver/global/infra/s3/service/S3ImageService.java:45-47 | shareKey is shares/<shareId>/images/<seq>_<uuid>.<ext> |
| S3ImageService.ShareKeyShape | src/main/java/likelion/itgoserver/global/infra/s3/service/S3ImageService.java:45-47 | a share key starts with shares/<shareId>/images/<seq>_, the prefix confirm demands, and ends with the cleaned extension |
| S3ImageService.StoreDraftKeyInDir | src/main/java/likelion/itgoserver/global/infra/s3/service/S3ImageService.java:32-34 | a store draft key starts with drafts/<memberId>/store/image/, the prefix commitFromDraft demands |
| S3ImageService.ExtractExtOfStoreDraftKey | src/main/java/likelion/itgoserver/global/infra/s3/service/S3ImageService.java:32-34 | extractExtFromKey reads back from a store draft key the cleaned extension it was built with |
| S3ImageService.ExtractExtOfStoreImageKey | src/main/java/likelion/itgoserver/global/infra/s3/service/S3ImageService.java:35-37 | extractExtFromKey reads back from a store image key the cleaned extension it was built with |
| S3ImageService.ExtractExtOfKey | src/main/java/likelion/itgoserver/global/infra/s3/service/S3ImageService.java:101-107 | any key <path>.<e>, with e allowed, a '.'-free e and a path not starting with '/', yields e |
| S3ImageService.ClampTtl | src/main/java/likelion/itgoserver/global/infra/s3/service/S3ImageService.java:142-145 | a missing, zero or negative lifetime becomes 15 minutes, one above 7 days becomes 7 days, any other is kept; the result lies in (0, 7 days] |
| S3ImageService.ClampTtlIdempotent | src/main/java/likelion/itgoserver/global/infra/s3/service/S3ImageService.java:142-145 | clamping a clamped lifetime changes nothing |
| PublicUrlResolver.RemoveTrailingSlash | src/main/java/likelion/itgoserver/global/infra/s3/service/PublicUrlResolver.java:50-52 | one trailing '/' is dropped if there is one; otherwise the string is kept |
| PublicUrlResolver.RemoveTrailingSlashOnce | src/main/java/likelion/itgoserver/global/infra/s3/service/PublicUrlResolver.java:50-52 | only one '/' goes: a base ending in "//" keeps one |
| PublicUrlResolver.HasCdnIff | src/main/java/likelion/itgoserver/global/infra/s3/service/PublicUrlResolver.java:26-28 | trimming the CDN base before the blank test changes nothing: the CDN is used exactly when the configured base is not blank |
| PublicUrlResolver.ToUrl | src/main/java/likelion/itgoserver/global/infra/s3/service/PublicUrlResolver.java:21-33 | no URL for a blank key; an absolute URL unchanged; otherwise the slash-trimmed key under the CDN base without its trailing '/', or the storage client's URL for the bucket and key when there is no CDN |
| PublicUrlResolver.AbsoluteUrlNotBlank | src/main/java/likelion/itgoserver/global/infra/s3/service/PublicUrlResolver.java:38-41 | an absolute URL starts with an 'h' or 'H' and so is never blank |
| PublicUrlResolver.ToUrlIdempotentWithCdn | src/main/java/likelion/itgoserver/global/infra/s3/service/PublicUrlResolver.java:21-33 | with a CDN base that gives an absolute URL, resolving a resolved URL again changes nothing |
| PublicUrlResolver.ToUrlIdempotentWithoutCdn | src/main/java/likelion/itgoserver/global/infra/s3/service/PublicUrlResolver.java:21-33 | without a CDN base, resolving twice is stable when the storage client returns an absolute URL |
| PublicUrlResolver.ToUrlNotIdempotentWithoutScheme | src/main/java/likelion/itgoserver/global/infra/s3/service/PublicUrlResolver.java:21-33 | a CDN base without a scheme ("cdn") is not stable: "a" resolves to "cdn/a" and then to "cdn/cdn/a" |
| Sequences.SortBy | src/main/java/likelion/itgoserver/domain/share/repository/ShareRepositoryImpl.java:70 | an ORDER BY: the result is sorted by the key and is a permutation of the input |
| Sequences.Filter | src/main/java/likelion/itgoserver/domain/share/repository/ShareRepositoryImpl.java:40-46 | a WHERE: exactly the kept rows, each as often as in the input |
| Sequences.SortedSlice | src/main/java/likelion/itgoserver/domain/share/repository/ShareRepositoryImpl.java:72-75 | a contiguous part of a sorted listing is sorted |
| ShareListing.OverlapIffCommonTime | src/main/java/likelion/itgoserver/domain/share/repository/ShareRepositoryImpl.java:161-167 | the overlap test is symmetric and, for windows with start at or before end, holds exactly when some moment lies in both windows |
| ShareListing.Slice | src/main/java/likelion/itgoserver/domain/share/repository/ShareRepositoryImpl.java:72-75 | offset/limit gives at most size rows, the rows from the offset on in order, and exactly size of them when the listing reaches that far |
| ShareListing.SliceSorted | src/main/java/likelion/itgoserver/domain/share/repository/ShareRepositoryImpl.java:72-75 | a page of a sorted listing is sorted |
| ShareListing.PageOfFilter | src/main/java/likelion/itgoserver/domain/share/repository/ShareRepositoryImpl.java:65-75 | a page of the ordered filter holds only rows of the table that the filter keeps, and it is sorted |
| ShareListing.MatchesForClosedWish | src/main/java/likelion/itgoserver/domain/share/repository/ShareRepositoryImpl.java:37-38 | a missing or inactive wish gives an empty page with total 0 |
| ShareListing.MatchesForWishFailure | src/main/java/likelion/itgoserver/domain/share/repository/ShareRepositoryImpl.java:36-40 | the call fails exactly when the wish is there and active but its store row is missing, and then with the unexpected-error code |
| ShareListing.MatchesForWishSound | src/main/java/likelion/itgoserver/domain/share/repository/ShareRepositoryImpl.java:36-86 | each share on a page lies in the wish's dong, has the wish's item name, at least its quantity, stock, an expiry not before today and opening hours overlapping the wish's; the page runs nearest first, then newest first, and holds at most size rows |
| ShareListing.MatchesForWishComplete | src/main/java/likelion/itgoserver/domain/share/repository/ShareRepositoryImpl.java:40-55 | every share meeting the where-clause is in the ordered listing, the total counts the listing, it is positive, and the page is the listing's slice |
| ShareListing.ActiveByDongSound | src/main/java/likelion/itgoserver/domain/share/repository/ShareRepositoryImpl.java:89-159 | every listed share lies in the dong, has stock, has no expiry or one not before today and belongs to another store; the page is sorted by the listing's order and the total counts every such share of the table |
| ShareListing.ActiveByDongNewestFirst | src/main/java/likelion/itgoserver/domain/share/repository/ShareRepositoryImpl.java:109-115 | without origin coordinates the listing runs newest first, ties going to the higher id |
| ImageUploads.MediaTypeIgnoresParameters | src/main/java/likelion/itgoserver/domain/image/service/ShareImageService.java:197-198 | parameters after a ';' in the stored MIME type do not change the type compared |
| ImageUploads.MediaTypeIgnoresCase | src/main/java/likelion/itgoserver/domain/image/service/ShareImageService.java:197 | letter case of the stored MIME type does not change the type compared |
| ImageUploads.MediaTypeOfClean | src/main/java/likelion/itgoserver/domain/image/service/ShareImageService.java:197-198 | a lower-case type without parameters or surrounding blanks is compared as itself |
| ImageUploads.MediaTypeOfAllowed | src/main/java/likelion/itgoserver/domain/image/service/ShareImageService.java:197-199 | each allowed MIME type is accepted as itself, and an object without a MIME type is never accepted |
| ShareImageRequests.CheckSlots | src/main/java/likelion/itgoserver/domain/image/dto/ShareImageConfirmRequest.java:26-36 | the HashSet loop returns true if and only if every slot is present, lies in [0, 4] and no two items share one |
| ShareImageRequests.SlotsValidAtMostFive | src/main/java/likelion/itgoserver/domain/image/dto/ShareImageConfirmRequest.java:26-36 | a list passing the slot check has at most five items |
| ShareImageRequests.ConfirmSeqsValid | src/main/java/likelion/itgoserver/domain/image/dto/ShareImageConfirmRequest.java:26-36 | false for a missing or empty list, otherwise the slot check; a true verdict leaves one to five items |
| ShareImageRequests.PresignSeqsValid | src/main/java/likelion/itgoserver/domain/image/dto/ShareImageDraftPresignRequest.java:35-45 | false for a missing list, true for an empty one, otherwise the slot check |
| ShareImageRequests.CommitSeqsValid | src/main/java/likelion/itgoserver/domain/image/dto/ShareImageCommitFromDraftRequest.java:23-32 | a missing list fails with an error (the loop dereferences it), an empty one passes, otherwise the slot check |
| ShareImageRequests.ConfirmVerdictPermutation | src/main/java/likelion/itgoserver/domain/image/dto/ShareImageConfirmRequest.java:26-36 | the verdict does not depend on the order of the items |
| ShareImageRequests.SlotsValidTransfer | src/main/java/likelion/itgoserver/domain/image/dto/ShareImageConfirmRequest.java:26-36 | items in any order pass the slot check when they pass it in one order |
| ShareImageService.ValidateMetadata | src/main/java/likelion/itgoserver/domain/image/service/ShareImageService.java:186-203 | the metadata passes exactly when the size lies in (0, 10 MiB] and the MIME type, lower-cased, cut at ';' and trimmed, is one of the four allowed; every failure is BAD_REQUEST |
| ShareImageService.ValidateMetadataAllowed | src/main/java/likelion/itgoserver/domain/image/service/ShareImageService.java:197-199 | an allowed type passes bare and with parameters; an object without a type fails with BAD_REQUEST |
| ShareImageService.PresignItemCheck | src/main/java/likelion/itgoserver/domain/image/service/ShareImageService.java:66-73 | an item passes exactly when it is present, its announced size (if any) is at most 10 MiB and its type is allowed; a null item is an error |
| ShareImageService.PresignItemsCheck | src/main/java/likelion/itgoserver/domain/image/service/ShareImageService.java:66-73 | the items pass exactly when each passes, and a failure is the failure of some item |
| ShareImageService.CheckPresignItems | src/main/java/likelion/itgoserver/domain/image/service/ShareImageService.java:66-73 | the loop returns the checks' verdict on the items in order |
| ShareImageService.PresignResult | src/main/java/likelion/itgoserver/domain/image/service/ShareImageService.java:56-91 | an unknown share is NOT_FOUND; a missing, empty or over-five list is BAD_REQUEST; a success has one to five items, each of which passed its checks |
| ShareImageService.PresignedShape | src/main/java/likelion/itgoserver/domain/image/service/ShareImageService.java:76-88 | each entry carries the item's slot, a key under shares/<id>/images/<slot>_ and the key's public URL |
| ShareImageService.PresignedKeysConfirmable | src/main/java/likelion/itgoserver/domain/image/service/ShareImageService.java:76-90 | every key presign hands out lies under the share's image directory, the prefix confirm demands, and under the item's own slot |
| ShareImageService.Presign | src/main/java/likelion/itgoserver/domain/image/service/ShareImageService.java:55-91 | the read-only presign method returns the presign result for the current tables and writes nothing |
| ShareImageService.PrepareItem | src/main/java/likelion/itgoserver/domain/image/service/ShareImageService.java:115-138 | an item is accepted exactly when it and its key are present, its slot is new, its key lies under the share's directory and the stored object exists with valid metadata; it is prepared with its own slot and key |
| ShareImageService.Prepare | src/main/java/likelion/itgoserver/domain/image/service/ShareImageService.java:112-139 | a successful loop prepares one entry per item, each with that item's slot and key, in request order |
| ShareImageService.PrepareAccepts | src/main/java/likelion/itgoserver/domain/image/service/ShareImageService.java:112-139 | the loop succeeds exactly when every item and key is accepted and the slots are pairwise distinct, and then prepares each item's own slot and key in order |
| ShareImageService.PrepareAcceptsIff | src/main/java/likelion/itgoserver/domain/image/service/ShareImageService.java:112-139 | the loop succeeds if and only if the items are accepted as a whole |
| ShareImageService.PrepareFailsFast | src/main/java/likelion/itgoserver/domain/image/service/ShareImageService.java:115-139 | the first failing item decides the outcome; later items are not looked at |
| ShareImageService.ImagesBySlot | src/main/java/likelion/itgoserver/domain/image/service/ShareImageService.java:205-215 | the response lists the share's images, each with its URL, as a permutation sorted by ascending slot |
| ShareImageService.Orphans | src/main/java/likelion/itgoserver/domain/image/service/ShareImageService.java:152-156 | the keys to delete are exactly the old keys not kept and under the share's directory, each no more often than among the old keys |
| ShareImageService.ConfirmStep | src/main/java/likelion/itgoserver/domain/image/service/ShareImageService.java:94-171 | a failure writes nothing; a null or unknown share id (after the item-count check) is NOT_FOUND; a success replaces only the share's images, by the prepared items linked to the share |
| ShareImageService.ConfirmImages | src/main/java/likelion/itgoserver/domain/image/service/ShareImageService.java:94-149 | a successful confirm replaces the share's images, and nothing else, by the requested items in request order, with pairwise distinct slots and keys under the share's directory that exist in storage with valid metadata |
| ShareImageService.ConfirmOrphans | src/main/java/likelion/itgoserver/domain/image/service/ShareImageService.java:151-168 | the keys deleted after commit are exactly the old keys under the share's directory that no new image keeps |
| ShareImageService.ConfirmResponse | src/main/java/likelion/itgoserver/domain/image/service/ShareImageService.java:170 | a successful confirm answers with the share's new images in ascending slot |
| ShareImageService.ConfirmRejects | src/main/java/likelion/itgoserver/domain/image/service/ShareImageService.java:115-127 | confirm fails, writing nothing, when two items name one slot or a key lies outside the share's directory |
| ShareImageService.ImagesReplaced | src/main/java/likelion/itgoserver/domain/image/service/ShareImageService.java:142-149 | replacing a share's images keeps the table invariant and the committed stock |
| ShareImageService.ConfirmKeepsInvariant | src/main/java/likelion/itgoserver/domain/image/service/ShareImageService.java:94-171 | confirm keeps the table invariant and the committed stock |
| ShareImageService.PrepareImages | src/main/java/likelion/itgoserver/domain/image/service/ShareImageService.java:112-139 | the loop with the seenSeq set and the nextImages list computes the prepared items or the first failure |
| ShareImageService.ReplaceImages | src/main/java/likelion/itgoserver/domain/image/service/ShareImageService.java:142-149 | clearing the images and adding each prepared one leaves the share's images equal to the prepared items linked to the share, and nothing else changed |
| ShareImageService.Confirm | src/main/java/likelion/itgoserver/domain/image/service/ShareImageService.java:93-171 | the transactional confirm changes the tables exactly as the confirm step says, and a failure leaves them unchanged |
| ShareService.ValidateBusinessRules | src/main/java/likelion/itgoserver/domain/share/service/ShareService.java:140-149 | the request passes exactly when its quantity is not negative and its expiry, if any, is not before today; both failures are BAD_REQUEST |
| ShareService.ToResponse | src/main/java/likelion/itgoserver/domain/share/service/ShareService.java:151-175 | the response's images are the share's images with their URLs, as a permutation in ascending slot |
| ShareService.ResponseImagesAreTheShares | src/main/java/likelion/itgoserver/domain/share/service/ShareService.java:151-175 | every image of the response comes from one of the share's images, and every image of the share appears in the response |
| ShareService.CreateStep | src/main/java/likelion/itgoserver/domain/share/service/ShareService.java:52-78 | a rule failure is BAD_REQUEST and a member without a store NOT_FOUND, both writing nothing; create succeeds exactly when the rules pass and the member has a store |
| ShareService.CreateOutcome | src/main/java/likelion/itgoserver/domain/share/service/ShareService.java:52-78 | a successful create stores under the next id a share of the member's store holding every request field, no images and now as its registration time, and answers with that share |
| ShareService.CreateKeepsInvariant | src/main/java/likelion/itgoserver/domain/share/service/ShareService.java:52-78 | create keeps the table invariant for an int quantity; earlier shares keep their committed stock and the new share's committed stock is its quantity |
| ShareService.ShareInserted | src/main/java/likelion/itgoserver/domain/share/service/ShareService.java:73 | saving a new share with a non-negative int quantity under the next id keeps the invariant |
| ShareService.Create | src/main/java/likelion/itgoserver/domain/share/service/ShareService.java:51-78 | the transactional create changes the tables exactly as the create step says |
| ShareService.Get | src/main/java/likelion/itgoserver/domain/share/service/ShareService.java:83-88 | an unknown share is NOT_FOUND; a known one whose store row exists is answered with that share's id and quantity |
| ShareService.GetAfterCreate | src/main/java/likelion/itgoserver/domain/share/service/ShareService.java:52-88 | reading a share back right after creating it answers exactly what create answered |
| ShareService.RowsInIdOrder | src/main/java/likelion/itgoserver/domain/share/service/ShareService.java:98 | the rows the listing reads are exactly the share table's rows |
| ShareService.MyShareCards | src/main/java/likelion/itgoserver/domain/share/service/ShareService.java:90-135 | a member without a store is NOT_FOUND, and only then; a page holds at most size cards |
| ShareService.PageContent | src/main/java/likelion/itgoserver/domain/share/service/ShareService.java:98-134 | a successful page is the cards of the newest-first slice of the store's shares |
| ShareService.MyShareCardsListing | src/main/java/likelion/itgoserver/domain/share/service/ShareService.java:90-135 | every card on a page is a share of the member's store, with that share's columns |
| ShareService.MyShareCardsNewestFirst | src/main/java/likelion/itgoserver/domain/share/service/ShareService.java:94-96 | the cards of a page run newest first, ties going to the higher id |
| ShareService.CardDefaultsOne | src/main/java/likelion/itgoserver/domain/share/service/ShareService.java:123-134 | a card counts 0 without claims and all of them when the count fits an int; it has no primary URL without a slot-0 image and has one when its slot-0 image resolves |
| ShareService.CardDefaults | src/main/java/likelion/itgoserver/domain/share/service/ShareService.java:104-134 | on every card of a page: 0 without claims, all claims when they fit an int, no primary URL without a slot-0 image and one with it |
| ShareService.PastTheEndReportsNoShares | src/main/java/likelion/itgoserver/domain/share/service/ShareService.java:99 | a page past the end of the store's listing is Page.empty, with no content and a total of 0 |
| StoreImageService.PresignDraft | src/main/java/likelion/itgoserver/domain/store/service/StoreImageService.java:49-60 | an announced size over 10 MiB is BAD_REQUEST; the presign succeeds exactly when the size is acceptable and the type is one of the four; the answer is for the calling member |
| StoreImageService.Validate | src/main/java/likelion/itgoserver/domain/store/service/StoreImageService.java:94-102 | every failure of the store's metadata check is BAD_REQUEST |
| StoreImageService.ValidateAgrees | src/main/java/likelion/itgoserver/domain/store/service/StoreImageService.java:94-102 | the store check and the share check accept and reject the same objects with the same error: size in (0, 10 MiB] and an allowed MIME type |
| StoreImageService.CommitStep | src/main/java/likelion/itgoserver/domain/store/service/StoreImageService.java:63-92 | a failure writes nothing, and a success needs the store to exist and be owned by the member |
| StoreImageService.CommitRejects | src/main/java/likelion/itgoserver/domain/store/service/StoreImageService.java:63-71 | a member who does not own the store gets INVALID_PERMISSION and a draft key outside the member's draft directory BAD_REQUEST, neither writing anything |
| StoreImageService.FinalKeyShape | src/main/java/likelion/itgoserver/domain/store/service/StoreImageService.java:76-77 | the final key lies under stores/<storeId>/image/ and carries the draft's extension |
| StoreImageService.CommitOutcome | src/main/java/likelion/itgoserver/domain/store/service/StoreImageService.java:63-92 | a successful commit sets the store's image key to a key under stores/<storeId>/image/ with the draft's extension, remembers the old key, and changes nothing else |
| StoreImageService.CommitKeepsInvariant | src/main/java/likelion/itgoserver/domain/store/service/StoreImageService.java:63-92 | commitFromDraft keeps the table invariant and the committed stock |
| StoreImageService.PresignThenCommit | src/main/java/likelion/itgoserver/domain/store/service/StoreImageService.java:49-77 | a draft key from presignDraft passes the member's prefix check in commitFromDraft, and the final key keeps the extension the draft was presigned with |
| StoreImageService.Cleanup | src/main/java/likelion/itgoserver/domain/store/service/StoreImageService.java:84-107 | after a commit the draft and the replaced key are deleted, after a rollback the copied final key, each only when not null or blank |
| StoreImageService.CleanupSparesNewImage | src/main/java/likelion/itgoserver/domain/store/service/StoreImageService.java:84-91 | the commit cleanup deletes the draft but never the new image, when the replaced key is a different key; the rollback cleanup deletes only the copy |
| StoreImageService.CommitCleanup | src/main/java/likelion/itgoserver/domain/store/service/StoreImageService.java:63-91 | every successful commit has its draft under drafts/ and its final key under stores/, so its cleanup spares the new image |
| StoreImageService.PresignDraftCall | src/main/java/likelion/itgoserver/domain/store/service/StoreImageService.java:48-60 | the read-only presign call returns the presign result |
| StoreImageService.CommitFromDraft | src/main/java/likelion/itgoserver/domain/store/service/StoreImageService.java:62-92 | the transactional commit changes the tables exactly as the commit step says |

## Left out

- Concurrency and locking are not modelled. This covers `findByIdForUpdate` and races on the unique constraints. Each service call is one atomic sequential step, and each unique constraint is a membership check on the tables.
- Transactions are not modelled as such. A failing call leaves the tables unchanged, which stands for the rollback. The model does every lookup that can fail before the first write.
- The after-commit and after-completion hooks are not run. The model computes the keys they would delete (`ShareImageService.Orphans`, `StoreImageService.Cleanup`) but does not perform the deletions.
- Storage and network I/O are parameters or left out:
  - The presigned PUT URL and its expiry are not modelled; only the TTL clamp is.
  - The HEAD request is a function parameter `head` from key to metadata. A missing object is `None`.
  - `copyObject` and `deleteObject` are left out, and the copy is taken to succeed.
  - The storage client's `getUrl` is a function parameter of `UrlConfig`.
- Floating-point distance is not modelled. That covers `ST_Distance_Sphere`, the metre-to-kilometre division and the distances in the response. The listings order by an abstract integer rank `distance(storeId)`.
- Among rows with equal sort keys, the SQL order is unspecified. The model only promises a sorted permutation, so it says nothing about the order of such ties.
- Controllers, authentication, the AI proxy, TradeListService, WishService, StoreService and the claim listings (`receivedByShare`, `sentByWish`) are not part of this model.
- The count and page queries of the listings are one filtered sequence, and the total is its length.
- TradeService.CreateFromAcceptedClaim: the catch branch that re-reads the trade after a unique-key violation (src/main/java/likelion/itgoserver/domain/trade/service/TradeService.java:45-50) is not modelled. A call that is purely sequential has already found no trade for the claim, so the violation cannot happen. `TradeRepository.Save` therefore requires that no trade exists for the claim.
- ShareEntity.Share.IncreaseQuantity is modelled as `quantity += amount` on a Java `int`. The method is called at src/main/java/likelion/itgoserver/domain/trade/service/TradeService.java:135, but Share.java does not define it.
- ClaimEntity.Claim.Cancel follows the entity, which lets an ACCEPTED claim become CANCELED. ClaimService refuses that case with BAD_REQUEST before calling it (src/main/java/likelion/itgoserver/domain/claim/service/ClaimService.java:148-150). TradeService's cancel reaches it for the claim of a MATCHED trade.
- ShareEntity.Share.IsAvailable is a predicate whose body is the whole property ("stock above zero"), so no lemma is stated about it.
- Repositories.Db.SaveShare and ShareService.Create require that no two stores have the same owner. With Member's one-to-one `store` mapping a member owns at most one store, so `findByOwnerId` returns at most one row. The table invariant includes this.
- Text.ToLower implements only the ASCII letters of `toLowerCase(Locale.ROOT)`. Other letters stay as they are.
- `@NotNull`, `@NotBlank`, `@Min`, `@Max` and `@Pattern` bean validation is not run. Request fields marked `@NotNull` or `@NotBlank` and validated by a controller's `@Valid` (the share upsert request's item name, quantity, storage type and opening hours) are plain types; every other request field is an `Option`, and its null path is modelled where the code could reach it. `isSeqsValid` is modelled in full.
- The audit columns (`regDate`) are the `now` of the call that inserts the row: a share's is the `now` of create, a trade's the `now` of the accept call that creates it. BaseTimeEntity is not part of this model.
- ShareImage ids are not modelled. An image is its share, slot and key, and `getImages()` is the list order, which is also taken as the database's order for `findByShareIdInAndSeq`.
- ShareService.MyShareCards: `Collectors.toMap`'s duplicate-key merge keeps the first slot-0 image in list order. A slot-0 image whose key resolves to no URL (a blank key) makes `toMap` throw `NullPointerException`; the model returns `Err(Internal)` for it.
- ShareService.ToResponse and ShareService.MyShareCards follow the service's field lists. The response and card records, which have a different number of components, are not part of this model.
- The `freshCertified` field of the share request and of the share card is not modelled. Share has no such column, and create does not copy it.
- The descriptive text columns (brand, description, storage type, phone number) are carried unchanged, and nothing is proved about them beyond the copy.
