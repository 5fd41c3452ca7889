/** ShareService: registering a share, reading one back, and the cards of
    the shares of a member's own store. The current date (`LocalDate.now()`)
    and the creation timestamp the audit listener writes into `regDate` are
    parameters. */
module ShareService {
  import opened Common
  import opened Database
  import opened Repositories
  import opened Sequences
  import opened ShareEntity
  import opened StoreEntity
  import opened ClaimEntity
  import opened PublicUrlResolver
  import opened ShareListing
  import ShareImageService

  /** ShareUpsertRequest. The fields the controller validates as not null
      have plain types; dates are day numbers, times of day integers. */
  datatype ShareUpsertRequest = ShareUpsertRequest(
    itemName: string,
    brand: Option<string>,
    quantity: int,
    description: Option<string>,
    expirationDate: Option<int>,
    storageType: StorageType,
    freshCertified: Option<bool>,
    openTime: int,
    closeTime: int)

  /** ShareResponse, with the arguments `toResponse` passes. */
  datatype ShareResponse = ShareResponse(
    shareId: int,
    itemName: string,
    brand: Option<string>,
    quantity: int,
    description: Option<string>,
    expirationDate: Option<int>,
    storageType: StorageType,
    openTime: int,
    closeTime: int,
    images: seq<ShareImageService.ImageResponse>,
    roadAddress: string,
    regDate: int)

  /** validateBusinessRules: the quantity is not negative and the expiry, when
      there is one, is not before today. Both failures are BAD_REQUEST. */
  function ValidateBusinessRules(req: ShareUpsertRequest, today: int): (r: Outcome)
    ensures r == Pass <==> req.quantity >= 0 && (req.expirationDate.None? || req.expirationDate.value >= today)
    ensures r != Pass ==> r == Fail(BadRequest)
    ensures req.quantity < 0 ==> r == Fail(BadRequest)
    ensures req.quantity >= 0 && req.expirationDate.None? ==> r == Pass
  {
    if req.quantity < 0 then Fail(BadRequest)
    else if req.expirationDate.Some? && req.expirationDate.value < today then Fail(BadRequest)
    else Pass
  }

  /** The share the builder makes from a request: no images. The request's
      `freshCertified` has no column and is dropped. */
  function Built(id: int, storeId: int, req: ShareUpsertRequest, regDate: int): ShareRow {
    ShareRow(id, storeId, [], req.itemName, req.brand, req.quantity, req.description, req.expirationDate,
             req.storageType, req.openTime, req.closeTime, regDate)
  }

  /** toResponse: the share's columns, its images listed in ascending slot
      with their URLs, and the road address of its store. */
  function ToResponse(s: ShareRow, roadAddress: string, cfg: UrlConfig): (r: ShareResponse)
    ensures forall i, j :: 0 <= i < j < |r.images| ==> r.images[i].slot <= r.images[j].slot
    ensures multiset(r.images) == multiset(ShareImageService.Responses(s.images, cfg))
    ensures |r.images| == |s.images|
  {
    var images := ShareImageService.ImagesBySlot(s.images, cfg);
    assert |images| == |multiset(images)| == |multiset(ShareImageService.Responses(s.images, cfg))|;
    ShareResponse(s.id, s.itemName, s.brand, s.quantity, s.description, s.expirationDate, s.storageType,
                  s.openTime, s.closeTime, images, roadAddress, s.regDate)
  }

  /** Every image of a response is the response of one of the share's
      images, and every image of the share appears in the response. */
  lemma ResponseImagesAreTheShares(s: ShareRow, roadAddress: string, cfg: UrlConfig)
    ensures var r := ToResponse(s, roadAddress, cfg);
      && (forall x :: x in r.images ==> exists i :: 0 <= i < |s.images| && x == ShareImageService.ResponseOf(s.images[i], cfg))
      && (forall i :: 0 <= i < |s.images| ==> ShareImageService.ResponseOf(s.images[i], cfg) in r.images)
  {
    var r := ToResponse(s, roadAddress, cfg);
    var all := ShareImageService.Responses(s.images, cfg);
    forall x | x in r.images
      ensures exists i :: 0 <= i < |s.images| && x == ShareImageService.ResponseOf(s.images[i], cfg)
    {
      assert x in multiset(all);
      var i :| 0 <= i < |all| && all[i] == x;
    }
    forall i | 0 <= i < |s.images|
      ensures ShareImageService.ResponseOf(s.images[i], cfg) in r.images
    {
      assert all[i] in multiset(r.images);
    }
  }

  /* ---------------------------------------------------------------------
     create
     --------------------------------------------------------------------- */

  /** create: the business rules (BAD_REQUEST), then the member's store
      (NOT_FOUND); then the share is built from the request under the next
      id, with no images, and saved. Nothing is written on a failure. */
  ghost function CreateStep(t: Tables, memberId: int, req: ShareUpsertRequest, today: int, now: int,
                            cfg: UrlConfig): (r: Step<ShareResponse>)
    ensures r.result.Err? ==> r.tables == t
    ensures ValidateBusinessRules(req, today).Fail? ==> r.result == Err(BadRequest)
    ensures ValidateBusinessRules(req, today).Pass? && StoreOwnedBy(t.stores, memberId).None? ==>
      r.result == Err(NotFound)
    ensures r.result.Ok? <==> ValidateBusinessRules(req, today).Pass? && StoreOwnedBy(t.stores, memberId).Some?
    ensures r.result.Ok? ==>
      && r.tables.nextShareId == t.nextShareId + 1
      && r.tables.shares.Keys == t.shares.Keys + {t.nextShareId}
      && (forall k :: k in t.shares && k != t.nextShareId ==> r.tables.shares[k] == t.shares[k])
      && r.tables.claims == t.claims && r.tables.stores == t.stores && r.tables.wishes == t.wishes
      && r.tables.trades == t.trades
      && r.tables.nextClaimId == t.nextClaimId && r.tables.nextTradeId == t.nextTradeId
      && r.tables.nextWishId == t.nextWishId && r.tables.nextStoreId == t.nextStoreId
  {
    var v := ValidateBusinessRules(req, today);
    if v.Fail? then Step(Err(v.code), t)
    else
      match StoreOwnedBy(t.stores, memberId)
      case None => Step(Err(NotFound), t)
      case Some(sid) =>
        var s := Built(t.nextShareId, sid, req, now);
        Step(Ok(ToResponse(s, t.stores[sid].address.roadAddress, cfg)),
             t.(shares := t.shares[s.id := s], nextShareId := t.nextShareId + 1))
  }

  /** A successful create stores under the next id a share of the member's
      store holding every request field, no images and `now` as its
      registration time; the response describes that share, with no
      images. */
  lemma CreateOutcome(t: Tables, memberId: int, req: ShareUpsertRequest, today: int, now: int, cfg: UrlConfig)
    requires CreateStep(t, memberId, req, today, now, cfg).result.Ok?
    ensures var r := CreateStep(t, memberId, req, today, now, cfg);
      var id := t.nextShareId;
      && id in r.tables.shares
      && var s := r.tables.shares[id];
      && s.id == id && s.storeId in t.stores && t.stores[s.storeId].owner == Some(memberId)
      && s.images == []
      && s.itemName == req.itemName && s.brand == req.brand && s.quantity == req.quantity
      && s.description == req.description && s.expirationDate == req.expirationDate
      && s.storageType == req.storageType && s.openTime == req.openTime && s.closeTime == req.closeTime
      && s.regDate == now
      && r.result.value.shareId == id && r.result.value.images == []
      && r.result.value.roadAddress == t.stores[s.storeId].address.roadAddress
  {
  }

  /** A create from tables that keep the invariant, with a quantity that is
      a Java `int`, keeps it; every earlier share keeps its committed stock,
      and the new share's committed stock is its quantity. */
  lemma CreateKeepsInvariant(t: Tables, memberId: int, req: ShareUpsertRequest, today: int, now: int,
                             cfg: UrlConfig)
    requires Invariant(t) && InInt32(req.quantity)
    ensures var u := CreateStep(t, memberId, req, today, now, cfg).tables;
      Invariant(u) && Conserves(t, u)
    ensures var r := CreateStep(t, memberId, req, today, now, cfg);
      r.result.Ok? ==> t.nextShareId in r.tables.shares && Committed(r.tables, t.nextShareId) == req.quantity
  {
    var r := CreateStep(t, memberId, req, today, now, cfg);
    if r.result.Err? {
      ConservesUntouched(t, t);
    } else {
      var sid := StoreOwnedBy(t.stores, memberId).value;
      ShareInserted(t, Built(t.nextShareId, sid, req, now));
    }
  }

  /** Saving, under the next id, a share with a non-negative `int` quantity
      keeps the invariant: no claim names the new id, so its committed stock
      is its quantity, and every earlier share keeps its own. */
  lemma ShareInserted(t: Tables, s: ShareRow)
    requires Invariant(t) && s.id == t.nextShareId && 0 <= s.quantity <= INT_MAX
    ensures var u := t.(shares := t.shares[s.id := s], nextShareId := t.nextShareId + 1);
      && Invariant(u) && Conserves(t, u) && Committed(u, s.id) == s.quantity
  {
    var u := t.(shares := t.shares[s.id := s], nextShareId := t.nextShareId + 1);
    SumUnreferenced(u.claims, s.id, u.nextClaimId);
    forall sid | sid in u.shares
      ensures u.shares[sid].quantity >= 0 && Committed(u, sid) <= INT_MAX
    {
      if sid != s.id {
        assert u.shares[sid] == t.shares[sid];
      }
    }
    assert QuantitiesInRange(u);
  }

  /** create, on the repositories: the rules, the owner's store, then the new
      share saved. */
  method Create(db: Db, memberId: int, req: ShareUpsertRequest, today: int, now: int, cfg: UrlConfig)
    returns (r: Result<ShareResponse>)
    requires db.Valid() && OwnersUnique(db.stores.rows)
    modifies db.shares
    ensures db.Valid()
    ensures Step(r, db.Rows()) == CreateStep(old(db.Rows()), memberId, req, today, now, cfg)
  {
    ghost var t := db.Rows();
    var v := ValidateBusinessRules(req, today);
    if v.Fail? {
      return Err(v.code);
    }
    var storeId := db.stores.FindByOwner(memberId);
    if storeId.None? {
      return Err(NotFound);
    }
    var sid := storeId.value;
    var roadAddress := db.stores.byId[sid].address.roadAddress;
    assert db.stores.rows[sid] == db.stores.byId[sid].Row();
    assert t.stores[sid].address.roadAddress == roadAddress;
    var s := new Share(db.shares.nextId, sid, req.itemName, req.brand, req.quantity, req.description,
                       req.expirationDate, req.storageType, req.openTime, req.closeTime, now);
    assert s.Row() == Built(t.nextShareId, sid, req, now);
    db.SaveShare(s);
    assert db.Rows() == t.(shares := t.shares[s.id := s.Row()], nextShareId := t.nextShareId + 1);
    r := Ok(ToResponse(s.Row(), roadAddress, cfg));
  }

  /* ---------------------------------------------------------------------
     get
     --------------------------------------------------------------------- */

  /** get: NOT_FOUND for an unknown share; the lazy load of its store
      fails (an error here) when the store row is gone. */
  function Get(t: Tables, shareId: int, cfg: UrlConfig): (r: Result<ShareResponse>)
    ensures r == Err(NotFound) <==> shareId !in t.shares
    ensures r.Ok? <==> shareId in t.shares && t.shares[shareId].storeId in t.stores
    ensures r.Ok? ==> r.value.shareId == t.shares[shareId].id && r.value.quantity == t.shares[shareId].quantity
  {
    if shareId !in t.shares then Err(NotFound)
    else
      var s := t.shares[shareId];
      if s.storeId !in t.stores then Err(Internal)
      else Ok(ToResponse(s, t.stores[s.storeId].address.roadAddress, cfg))
  }

  /** Reading a share back right after creating it answers exactly what the
      create answered. */
  lemma GetAfterCreate(t: Tables, memberId: int, req: ShareUpsertRequest, today: int, now: int, cfg: UrlConfig)
    requires CreateStep(t, memberId, req, today, now, cfg).result.Ok?
    ensures var r := CreateStep(t, memberId, req, today, now, cfg);
      Get(r.tables, t.nextShareId, cfg) == r.result
  {
    var sid := StoreOwnedBy(t.stores, memberId).value;
    var r := CreateStep(t, memberId, req, today, now, cfg);
    assert r.tables.shares[t.nextShareId] == Built(t.nextShareId, sid, req, now);
  }

  /* ---------------------------------------------------------------------
     listMyShareCards
     --------------------------------------------------------------------- */

  /** The share table in ascending id, ids [0, n). */
  function RowsInIdOrder(shares: map<int, ShareRow>, n: nat): (r: seq<ShareRow>)
    ensures forall x :: x in r ==> exists k :: 0 <= k < n && k in shares && shares[k] == x
    ensures forall k :: 0 <= k < n && k in shares ==> shares[k] in r
    decreases n
  {
    if n == 0 then []
    else
      var r := RowsInIdOrder(shares, n - 1);
      if n - 1 in shares then r + [shares[n - 1]] else r
  }

  /** The fixed order of the listing: newest first, then the higher id. */
  function NewestFirst(s: ShareRow): Key {
    Key(-s.regDate, -s.id, 0)
  }

  /** ShareCardResponse, with the arguments the listing passes. */
  datatype ShareCard = ShareCard(
    shareId: int,
    itemName: string,
    brand: Option<string>,
    quantity: int,
    expirationDate: Option<int>,
    openTime: int,
    closeTime: int,
    regDate: int,
    primaryImageUrl: Option<string>,
    claimTotalCount: int)

  /** The claims on a share, of any status. */
  function ClaimsOn(claims: map<int, ClaimRow>, sid: int): set<int> {
    set k | k in claims && claims[k].shareId == sid
  }

  function UrlOf(key: string, cfg: UrlConfig): Option<string> {
    ToUrl(cfg.cdnBaseUrl, cfg.bucket, cfg.s3GetUrl, Some(key))
  }

  /** A slot-0 image whose key resolves to no URL: collecting it into the
      URL map throws. */
  predicate UnresolvablePrimary(s: ShareRow, cfg: UrlConfig) {
    exists i :: 0 <= i < |s.images| && s.images[i].slot == 0 && UrlOf(s.images[i].objectKey, cfg).None?
  }

  /** One card. The URL map holds the first slot-0 image of each share and
      the count map the shares that have claims, so a share without a
      slot-0 image reads the default null and one without claims the
      default 0. The count is a `long` narrowed to an `int`. */
  function Card(s: ShareRow, claims: map<int, ClaimRow>, cfg: UrlConfig): ShareCard {
    var key := PrimaryImageKey(s.images);
    var url := if key.None? then None else UrlOf(key.value, cfg);
    var n := |ClaimsOn(claims, s.id)|;
    ShareCard(s.id, s.itemName, s.brand, s.quantity, s.expirationDate, s.openTime, s.closeTime, s.regDate,
              url, if n == 0 then 0 else Wrap32(n))
  }

  function Cards(content: seq<ShareRow>, claims: map<int, ClaimRow>, cfg: UrlConfig): (r: seq<ShareCard>)
    ensures |r| == |content| && forall i :: 0 <= i < |r| ==> r[i] == Card(content[i], claims, cfg)
  {
    seq(|content|, i requires 0 <= i < |content| => Card(content[i], claims, cfg))
  }

  /** The shares of one store among the table's rows. */
  function StoreShares(t: Tables, storeId: int): seq<ShareRow> {
    Filter(RowsInIdOrder(t.shares, t.nextShareId), (s: ShareRow) => s.storeId == storeId)
  }

  /** listMyShareCards: NOT_FOUND without a store of the member; otherwise
      one page of its shares, newest first. An empty page is `Page.empty`,
      whose total is 0; a slot-0 image without a URL makes the URL map
      throw. */
  ghost function MyShareCards(t: Tables, memberId: int, page: Pageable, cfg: UrlConfig): (r: Result<Page<ShareCard>>)
    ensures r == Err(NotFound) <==> StoreOwnedBy(t.stores, memberId).None?
    ensures r.Ok? ==> |r.value.content| <= page.size
  {
    match StoreOwnedBy(t.stores, memberId)
    case None => Err(NotFound)
    case Some(sid) =>
      var mine := StoreShares(t, sid);
      var content := Slice(SortBy(mine, NewestFirst), page);
      if |content| == 0 then Ok(Page([], 0))
      else if exists i :: 0 <= i < |content| && UnresolvablePrimary(content[i], cfg) then Err(Internal)
      else Ok(Page(Cards(content, t.claims, cfg), |mine|))
  }

  /** The content of a successful listing page: the cards of the slice,
      none of whose shares has a slot-0 image without a URL. */
  lemma PageContent(t: Tables, memberId: int, page: Pageable, cfg: UrlConfig)
    requires MyShareCards(t, memberId, page, cfg).Ok?
    ensures StoreOwnedBy(t.stores, memberId).Some?
    ensures var content := Slice(SortBy(StoreShares(t, StoreOwnedBy(t.stores, memberId).value), NewestFirst), page);
      && MyShareCards(t, memberId, page, cfg).value.content == (if |content| == 0 then [] else Cards(content, t.claims, cfg))
      && (forall i :: 0 <= i < |content| ==> !UnresolvablePrimary(content[i], cfg))
  {
  }

  /** A row on a page of a store's listing is a share of that store. */
  lemma PageRowOfStore(t: Tables, storeId: int, page: Pageable, x: ShareRow)
    requires x in Slice(SortBy(StoreShares(t, storeId), NewestFirst), page)
    ensures x.storeId == storeId
    ensures exists k :: k in t.shares && t.shares[k] == x
  {
    var mine := StoreShares(t, storeId);
    var sorted := SortBy(mine, NewestFirst);
    assert x in sorted;
    assert x in multiset(mine);
    assert x in mine;
  }

  /** Every card on a page is a share of the member's store. */
  lemma MyShareCardsListing(t: Tables, memberId: int, page: Pageable, cfg: UrlConfig)
    requires MyShareCards(t, memberId, page, cfg).Ok?
    ensures var c := MyShareCards(t, memberId, page, cfg).value.content;
      forall i :: 0 <= i < |c| ==>
        exists k :: (k in t.shares && t.shares[k].id == c[i].shareId &&
          t.shares[k].storeId in t.stores && t.stores[t.shares[k].storeId].owner == Some(memberId))
  {
    PageContent(t, memberId, page, cfg);
    var sid := StoreOwnedBy(t.stores, memberId).value;
    var content := Slice(SortBy(StoreShares(t, sid), NewestFirst), page);
    if |content| > 0 {
      var c := Cards(content, t.claims, cfg);
      forall i | 0 <= i < |c|
        ensures exists k :: (k in t.shares && t.shares[k].id == c[i].shareId &&
          t.shares[k].storeId in t.stores && t.stores[t.shares[k].storeId].owner == Some(memberId))
      {
        PageRowOfStore(t, sid, page, content[i]);
      }
    }
  }

  /** The cards of a page run newest first, ties broken by the higher id
      first. */
  lemma MyShareCardsNewestFirst(t: Tables, memberId: int, page: Pageable, cfg: UrlConfig)
    requires MyShareCards(t, memberId, page, cfg).Ok?
    ensures var c := MyShareCards(t, memberId, page, cfg).value.content;
      forall i, j :: 0 <= i < j < |c| ==>
        c[i].regDate > c[j].regDate || (c[i].regDate == c[j].regDate && c[i].shareId >= c[j].shareId)
  {
    PageContent(t, memberId, page, cfg);
    var sid := StoreOwnedBy(t.stores, memberId).value;
    var content := Slice(SortBy(StoreShares(t, sid), NewestFirst), page);
    if |content| > 0 {
      var c := Cards(content, t.claims, cfg);
      SliceSorted(SortBy(StoreShares(t, sid), NewestFirst), page, NewestFirst);
      forall i, j | 0 <= i < j < |c|
        ensures c[i].regDate > c[j].regDate || (c[i].regDate == c[j].regDate && c[i].shareId >= c[j].shareId)
      {
        assert KeyLe(NewestFirst(content[i]), NewestFirst(content[j]));
      }
    }
  }

  /** One card: no claims count 0, claims that fit an `int` are all
      counted, and without a slot-0 image there is no primary URL, while
      with one whose URL resolves there is. */
  lemma CardDefaultsOne(s: ShareRow, claims: map<int, ClaimRow>, cfg: UrlConfig)
    requires !UnresolvablePrimary(s, cfg)
    ensures var c := Card(s, claims, cfg);
      && c.shareId == s.id
      && (ClaimsOn(claims, s.id) == {} ==> c.claimTotalCount == 0)
      && (|ClaimsOn(claims, s.id)| <= INT_MAX ==> c.claimTotalCount == |ClaimsOn(claims, s.id)|)
      && (c.primaryImageUrl.None? <==> forall j :: 0 <= j < |s.images| ==> s.images[j].slot != 0)
  {
    var key := PrimaryImageKey(s.images);
    if key.Some? {
      var p :| 0 <= p < |s.images| && s.images[p].slot == 0 && s.images[p].objectKey == key.value;
      assert UrlOf(s.images[p].objectKey, cfg).Some?;
    }
  }

  /** The card defaults on a page: a share with no claims counts 0 and one
      whose claims fit an `int` counts them all; a share without a slot-0
      image has no primary URL, and one with a slot-0 image has one. */
  lemma CardDefaults(t: Tables, memberId: int, page: Pageable, cfg: UrlConfig)
    requires MyShareCards(t, memberId, page, cfg).Ok?
    ensures var c := MyShareCards(t, memberId, page, cfg).value.content;
      forall i :: 0 <= i < |c| ==>
        && (ClaimsOn(t.claims, c[i].shareId) == {} ==> c[i].claimTotalCount == 0)
        && (|ClaimsOn(t.claims, c[i].shareId)| <= INT_MAX ==> c[i].claimTotalCount == |ClaimsOn(t.claims, c[i].shareId)|)
        && (exists k :: (k in t.shares && t.shares[k].id == c[i].shareId &&
              (c[i].primaryImageUrl.None? <==> forall j :: 0 <= j < |t.shares[k].images| ==> t.shares[k].images[j].slot != 0)))
  {
    PageContent(t, memberId, page, cfg);
    var sid := StoreOwnedBy(t.stores, memberId).value;
    var content := Slice(SortBy(StoreShares(t, sid), NewestFirst), page);
    if |content| > 0 {
      var c := Cards(content, t.claims, cfg);
      forall i | 0 <= i < |c|
        ensures && (ClaimsOn(t.claims, c[i].shareId) == {} ==> c[i].claimTotalCount == 0)
          && (|ClaimsOn(t.claims, c[i].shareId)| <= INT_MAX ==> c[i].claimTotalCount == |ClaimsOn(t.claims, c[i].shareId)|)
          && (exists k :: (k in t.shares && t.shares[k].id == c[i].shareId &&
                (c[i].primaryImageUrl.None? <==> forall j :: 0 <= j < |t.shares[k].images| ==> t.shares[k].images[j].slot != 0)))
      {
        var x := content[i];
        PageRowOfStore(t, sid, page, x);
        CardDefaultsOne(x, t.claims, cfg);
      }
    }
  }

  /** As written, a page past the end of a non-empty listing is
      `Page.empty`: no content and a total of 0, though the store has
      shares. */
  lemma PastTheEndReportsNoShares(t: Tables, memberId: int, page: Pageable, cfg: UrlConfig)
    requires StoreOwnedBy(t.stores, memberId).Some?
    requires page.offset >= |StoreShares(t, StoreOwnedBy(t.stores, memberId).value)|
    ensures MyShareCards(t, memberId, page, cfg) == Ok(Page([], 0))
  {
  }
}
