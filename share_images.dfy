/** ShareImageService: handing out upload keys for a share's images
    (presign) and replacing the share's image list by uploaded objects
    (confirm). The storage HEAD request is a parameter returning the
    object's metadata, or nothing when the request throws; the i-th UUID the
    key builder draws is a parameter too. */
module ShareImageService {
  import opened Common
  import opened Text
  import opened Database
  import opened Repositories
  import opened ShareEntity
  import opened Sequences
  import opened S3ImageService
  import opened PublicUrlResolver
  import opened ImageUploads
  import opened ShareImageRequests

  /** validateMetadata: the uploaded object is not empty, at most 10 MiB,
      and its MIME type, read as MediaType reads it, is allowed. Every
      failure is BAD_REQUEST. */
  function ValidateMetadata(md: ObjectMetadata): (r: Outcome)
    ensures r == Pass <==> 0 < md.contentLength <= MAX_IMAGE_BYTES && MediaType(md.contentType) in ALLOWED_IMAGE_MIME
    ensures r != Pass ==> r == Fail(BadRequest)
  {
    if md.contentLength <= 0 then Fail(BadRequest)
    else if md.contentLength > MAX_IMAGE_BYTES then Fail(BadRequest)
    else if MediaType(md.contentType) !in ALLOWED_IMAGE_MIME then Fail(BadRequest)
    else Pass
  }

  /** An allowed type passes in any letter case and with any parameters. */
  lemma ValidateMetadataAllowed(size: int, m: string, params: string)
    requires m in ALLOWED_IMAGE_MIME && 0 < size <= MAX_IMAGE_BYTES
    ensures ValidateMetadata(ObjectMetadata(size, Some(m))) == Pass
    ensures ValidateMetadata(ObjectMetadata(size, Some(m + ";" + params))) == Pass
    ensures ValidateMetadata(ObjectMetadata(size, None)) == Fail(BadRequest)
  {
    MediaTypeOfAllowed(m);
    AllowedMimeUnparameterised(m);
    MediaTypeIgnoresParameters(m, params);
  }

  /* ---------------------------------------------------------------------
     presign
     --------------------------------------------------------------------- */

  /** One presign item's checks: a null item throws; an announced size over
      10 MiB is BAD_REQUEST; a null type makes the immutable set's
      `contains` throw; a type outside the four is BAD_REQUEST. */
  function PresignItemCheck(it: Option<PresignItem>): (r: Outcome)
    ensures r == Pass <==>
      && it.Some?
      && (it.value.sizeBytes.None? || it.value.sizeBytes.value <= MAX_IMAGE_BYTES)
      && it.value.contentType.Some? && it.value.contentType.value in ALLOWED_IMAGE_MIME
    ensures it.None? ==> r == Fail(Internal)
  {
    if it.None? then Fail(Internal)
    else if it.value.sizeBytes.Some? && it.value.sizeBytes.value > MAX_IMAGE_BYTES then Fail(BadRequest)
    else if it.value.contentType.None? then Fail(Internal)
    else if it.value.contentType.value !in ALLOWED_IMAGE_MIME then Fail(BadRequest)
    else Pass
  }

  /** The checks of the items in order: the first failure, if any. */
  function PresignItemsCheck(items: seq<Option<PresignItem>>): (r: Outcome)
    ensures r == Pass <==> forall i :: 0 <= i < |items| ==> PresignItemCheck(items[i]) == Pass
    ensures r != Pass ==> exists i :: 0 <= i < |items| && PresignItemCheck(items[i]) == r &&
                                    (forall j :: 0 <= j < i ==> PresignItemCheck(items[j]) == Pass)
    decreases |items|
  {
    if |items| == 0 then Pass
    else
      var first := PresignItemCheck(items[0]);
      var rest := PresignItemsCheck(items[1..]);
      assert forall i :: 1 <= i < |items| ==> items[1..][i - 1] == items[i];
      if first != Pass then first else rest
  }

  /** The loop over the items. */
  method CheckPresignItems(items: seq<Option<PresignItem>>) returns (r: Outcome)
    ensures r == PresignItemsCheck(items)
  {
    var i := 0;
    while i < |items|
      invariant 0 <= i <= |items|
      invariant PresignItemsCheck(items[i..]) == PresignItemsCheck(items)
    {
      assert items[i..][1..] == items[i + 1..];
      r := PresignItemCheck(items[i]);
      if r != Pass {
        return r;
      }
      i := i + 1;
    }
    return Pass;
  }

  /** One entry of the presign response; the presigned PUT URL is not part
      of this model. */
  datatype PresignedItem = PresignedItem(slot: int, objectKey: string, publicUrl: Option<string>)

  /** The entry of one item with a slot: the key for its slot and
      extension, made with the given UUID, and the key's public URL. */
  function Presigned(shareId: int, it: PresignItem, uuid: string, cfg: UrlConfig): PresignedItem
    requires it.slot.Some?
  {
    var key := ShareKey(shareId, it.slot.value, it.ext, uuid);
    PresignedItem(it.slot.value, key, ToUrl(cfg.cdnBaseUrl, cfg.bucket, cfg.s3GetUrl, Some(key)))
  }

  /** The response entries, the i-th made with the i-th UUID. A null slot
      fails the unboxing into shareKey's `int` parameter. */
  function PresignedItems(shareId: int, items: seq<Option<PresignItem>>, uuid: nat -> string, cfg: UrlConfig):
    Result<seq<PresignedItem>>
    requires forall i :: 0 <= i < |items| ==> items[i].Some?
  {
    if exists i :: 0 <= i < |items| && items[i].value.slot.None? then Err(Internal)
    else Ok(seq(|items|, i requires 0 <= i < |items| => Presigned(shareId, items[i].value, uuid(i), cfg)))
  }

  /** presign: an unknown share is NOT_FOUND; a missing or empty list and
      more than five items are BAD_REQUEST; then the item checks; then one
      key per item. */
  function PresignResult(t: Tables, shareId: int, items: Option<seq<Option<PresignItem>>>, uuid: nat -> string,
                         cfg: UrlConfig): (r: Result<seq<PresignedItem>>)
    ensures shareId !in t.shares ==> r == Err(NotFound)
    ensures shareId in t.shares && (items.None? || |items.value| == 0 || |items.value| > MAX_IMAGES) ==>
      r == Err(BadRequest)
    ensures r.Ok? ==> shareId in t.shares && items.Some? && 1 <= |items.value| <= MAX_IMAGES
    ensures r.Ok? ==> forall i :: 0 <= i < |items.value| ==> PresignItemCheck(items.value[i]) == Pass
  {
    if shareId !in t.shares then Err(NotFound)
    else if items.None? || |items.value| == 0 then Err(BadRequest)
    else if |items.value| > MAX_IMAGES then Err(BadRequest)
    else match PresignItemsCheck(items.value)
      case Fail(e) => Err(e)
      case Pass => PresignedItems(shareId, items.value, uuid, cfg)
  }

  /** The key of one entry lies under the share's directory and the
      entry's slot. */
  lemma PresignedShape(shareId: int, it: PresignItem, uuid: string, cfg: UrlConfig)
    requires it.slot.Some? && IsHexUuid(uuid)
    ensures var p := Presigned(shareId, it, uuid, cfg);
      && p.slot == it.slot.value
      && StartsWith(p.objectKey, ShareImageDir(shareId) + IntToString(p.slot) + "_")
      && StartsWith(p.objectKey, ShareImageDir(shareId))
  {
    var key := ShareKey(shareId, it.slot.value, it.ext, uuid);
    ShareKeyShape(shareId, it.slot.value, it.ext, uuid);
    StartsWithShorter(key, ShareImageDir(shareId), IntToString(it.slot.value) + "_");
  }

  /** Every key presign hands out lies under the share's image directory,
      the prefix confirm demands, and under the item's own slot. */
  lemma PresignedKeysConfirmable(t: Tables, shareId: int, items: Option<seq<Option<PresignItem>>>,
                                 uuid: nat -> string, cfg: UrlConfig)
    requires forall i: nat :: IsHexUuid(uuid(i))
    ensures var r := PresignResult(t, shareId, items, uuid, cfg);
      r.Ok? ==> |r.value| == |items.value| && forall i :: 0 <= i < |r.value| ==>
        && Some(r.value[i].slot) == items.value[i].value.slot
        && StartsWith(r.value[i].objectKey, ShareImageDir(shareId) + IntToString(r.value[i].slot) + "_")
        && StartsWith(r.value[i].objectKey, ShareImageDir(shareId))
  {
    var r := PresignResult(t, shareId, items, uuid, cfg);
    if r.Ok? {
      var its := items.value;
      assert r == PresignedItems(shareId, its, uuid, cfg);
      forall i | 0 <= i < |r.value|
        ensures Some(r.value[i].slot) == its[i].value.slot
        ensures StartsWith(r.value[i].objectKey, ShareImageDir(shareId) + IntToString(r.value[i].slot) + "_")
        ensures StartsWith(r.value[i].objectKey, ShareImageDir(shareId))
      {
        assert r.value[i] == Presigned(shareId, its[i].value, uuid(i), cfg);
        PresignedShape(shareId, its[i].value, uuid(i), cfg);
      }
    }
  }

  /** The read-only presign call. */
  method Presign(db: Db, shareId: int, items: Option<seq<Option<PresignItem>>>, uuid: nat -> string,
                 cfg: UrlConfig) returns (r: Result<seq<PresignedItem>>)
    requires db.Valid()
    ensures r == PresignResult(db.Rows(), shareId, items, uuid, cfg)
  {
    if shareId !in db.shares.byId {
      return Err(NotFound);
    }
    if items.None? || |items.value| == 0 || |items.value| > MAX_IMAGES {
      return Err(BadRequest);
    }
    var check := CheckPresignItems(items.value);
    if check.Fail? {
      return Err(check.code);
    }
    r := PresignedItems(shareId, items.value, uuid, cfg);
  }

  /* ---------------------------------------------------------------------
     confirm
     --------------------------------------------------------------------- */

  /** The confirm request: the share's id and the items, each possibly
      null. */
  datatype ConfirmRequest = ConfirmRequest(shareId: Option<int>, items: Option<seq<Option<ConfirmItem>>>)

  /** An item that passed the loop: its slot (still possibly null) and its
      key. */
  datatype Prepared = Prepared(slot: Option<int>, objectKey: string)

  /** The slots in the `seenSeq` set after the items prepared so far. */
  function SlotSet(ps: seq<Prepared>): set<Option<int>> {
    set p | p in ps :: p.slot
  }

  /** The checks of the loop body on one item, given the slots seen before
      it: a null item or key throws; a repeated slot, a key outside the
      share's directory, a missing object and bad metadata are BAD_REQUEST. */
  function PrepareItem(it: Option<ConfirmItem>, seen: set<Option<int>>, prefix: string,
                       head: string -> Option<ObjectMetadata>): (r: Result<Prepared>)
    ensures r.Ok? <==>
      it.Some? && it.value.slot !in seen && it.value.objectKey.Some? && KeyAccepted(it.value.objectKey.value, prefix, head)
    ensures r.Ok? ==> r.value == Prepared(it.value.slot, it.value.objectKey.value)
  {
    if it.None? then Err(Internal)
    else if it.value.slot in seen then Err(BadRequest)
    else if it.value.objectKey.None? then Err(Internal)
    else if !KeyAccepted(it.value.objectKey.value, prefix, head) then Err(BadRequest)
    else Ok(Prepared(it.value.slot, it.value.objectKey.value))
  }

  /** The loop over the items, as a function: the first item that fails
      decides the error. */
  function Prepare(items: seq<Option<ConfirmItem>>, prefix: string, head: string -> Option<ObjectMetadata>):
    (r: Result<seq<Prepared>>)
    ensures r.Ok? ==> |r.value| == |items|
    ensures r.Ok? ==> forall i :: 0 <= i < |items| ==> Intended(items[i]) == Some(r.value[i])
    decreases |items|
  {
    if |items| == 0 then Ok([])
    else
      var n := |items| - 1;
      match Prepare(items[..n], prefix, head)
      case Err(e) => Err(e)
      case Ok(done) =>
        match PrepareItem(items[n], SlotSet(done), prefix, head)
        case Err(e) => Err(e)
        case Ok(p) =>
          IntendedAppend(items, done, p);
          Ok(done + [p])
  }

  /** What an item prepares to when it passes: its own slot and key. */
  function Intended(it: Option<ConfirmItem>): Option<Prepared> {
    if it.Some? && it.value.objectKey.Some? then Some(Prepared(it.value.slot, it.value.objectKey.value)) else None
  }

  /** Extending the prepared prefix by the last item's value. */
  lemma IntendedAppend(items: seq<Option<ConfirmItem>>, done: seq<Prepared>, p: Prepared)
    requires |items| > 0 && |done| == |items| - 1
    requires forall i :: 0 <= i < |done| ==> Intended(items[..|done|][i]) == Some(done[i])
    requires Intended(items[|done|]) == Some(p)
    ensures forall i :: 0 <= i < |items| ==> Intended(items[i]) == Some((done + [p])[i])
  {
    forall i | 0 <= i < |items| ensures Intended(items[i]) == Some((done + [p])[i]) {
      if i < |done| {
        assert items[..|done|][i] == items[i];
      }
    }
  }

  /** A key confirm takes: under the share's directory, present in storage,
      with valid metadata. */
  predicate KeyAccepted(key: string, prefix: string, head: string -> Option<ObjectMetadata>) {
    StartsWith(key, prefix) && head(key).Some? && ValidateMetadata(head(key).value) == Pass
  }

  /** Every item and every key is present, and every key is accepted. */
  predicate KeysAccepted(items: seq<Option<ConfirmItem>>, prefix: string, head: string -> Option<ObjectMetadata>) {
    forall i :: 0 <= i < |items| ==> ItemKeyAccepted(items[i], prefix, head)
  }

  /** One item and its key are present, and the key is accepted. */
  predicate ItemKeyAccepted(it: Option<ConfirmItem>, prefix: string, head: string -> Option<ObjectMetadata>) {
    it.Some? && it.value.objectKey.Some? && KeyAccepted(it.value.objectKey.value, prefix, head)
  }

  /** No slot, a null one included, comes twice. */
  predicate ItemSlotsDistinct(items: seq<Option<ConfirmItem>>) {
    forall i, j :: 0 <= i < j < |items| ==> ConfirmSlot(items[i]) != ConfirmSlot(items[j])
  }

  /** What the loop lets through, stated without it. */
  predicate ItemsAccepted(items: seq<Option<ConfirmItem>>, prefix: string, head: string -> Option<ObjectMetadata>) {
    KeysAccepted(items, prefix, head) && ItemSlotsDistinct(items)
  }

  lemma KeysAcceptedExtend(items: seq<Option<ConfirmItem>>, prefix: string, head: string -> Option<ObjectMetadata>)
    requires |items| > 0
    ensures var n := |items| - 1;
      KeysAccepted(items, prefix, head) <==>
        && KeysAccepted(items[..n], prefix, head)
        && ItemKeyAccepted(items[n], prefix, head)
  {
    AllExtend(items, items[..|items| - 1], it => ItemKeyAccepted(it, prefix, head));
  }

  /** A property holds of every element exactly when it holds of every
      element but the last, and of the last. */
  lemma AllExtend<T>(s: seq<T>, front: seq<T>, ok: T -> bool)
    requires |s| > 0 && front == s[..|s| - 1]
    ensures (forall i :: 0 <= i < |s| ==> ok(s[i])) <==>
      (forall i :: 0 <= i < |front| ==> ok(front[i])) && ok(s[|s| - 1])
  {
    assert forall i :: 0 <= i < |front| ==> front[i] == s[i];
  }

  lemma SlotsDistinctExtend(items: seq<Option<ConfirmItem>>)
    requires |items| > 0
    ensures var n := |items| - 1;
      ItemSlotsDistinct(items) <==>
        ItemSlotsDistinct(items[..n]) && forall i :: 0 <= i < n ==> ConfirmSlot(items[i]) != ConfirmSlot(items[n])
  {
    var n := |items| - 1;
    var front := items[..n];
    assert forall i :: 0 <= i < n ==> front[i] == items[i];
    if ItemSlotsDistinct(front) && forall i :: 0 <= i < n ==> ConfirmSlot(items[i]) != ConfirmSlot(items[n]) {
      forall i, j | 0 <= i < j < |items|
        ensures ConfirmSlot(items[i]) != ConfirmSlot(items[j])
      {
        if j < n {
          assert front[i] == items[i] && front[j] == items[j];
        }
      }
    }
  }

  /** ItemsAccepted of a non-empty list: the list without its last item is
      accepted, the last item and its key are, and its slot is new. */
  lemma AcceptedExtend(items: seq<Option<ConfirmItem>>, prefix: string, head: string -> Option<ObjectMetadata>)
    requires |items| > 0
    ensures var n := |items| - 1;
      ItemsAccepted(items, prefix, head) <==>
        && ItemsAccepted(items[..n], prefix, head)
        && items[n].Some? && items[n].value.objectKey.Some? && KeyAccepted(items[n].value.objectKey.value, prefix, head)
        && (forall i :: 0 <= i < n ==> ConfirmSlot(items[i]) != ConfirmSlot(items[n]))
  {
    KeysAcceptedExtend(items, prefix, head);
    SlotsDistinctExtend(items);
  }

  /** The slots seen are the slots of the items prepared. */
  lemma SlotSetMembers(ps: seq<Prepared>, x: Option<int>)
    ensures x in SlotSet(ps) <==> exists i :: 0 <= i < |ps| && ps[i].slot == x
  {
    if x in SlotSet(ps) {
      var p :| p in ps && p.slot == x;
      var k :| 0 <= k < |ps| && ps[k] == p;
    }
    if exists i :: 0 <= i < |ps| && ps[i].slot == x {
      var k :| 0 <= k < |ps| && ps[k].slot == x;
      assert ps[k] in ps;
    }
  }

  /** The loop succeeds exactly on the items ItemsAccepted describes, and
      then prepares each item's own slot and key, in request order. */
  lemma PrepareAccepts(items: seq<Option<ConfirmItem>>, prefix: string, head: string -> Option<ObjectMetadata>)
    ensures Prepare(items, prefix, head).Ok? <==> ItemsAccepted(items, prefix, head)
    ensures Prepare(items, prefix, head).Ok? ==> forall i :: 0 <= i < |items| ==>
      items[i].Some? && items[i].value.objectKey.Some? &&
      Prepare(items, prefix, head).value[i] == Prepared(items[i].value.slot, items[i].value.objectKey.value)
  {
    PrepareAcceptsIff(items, prefix, head);
  }

  /** One more prepared item adds its slot to the slots seen. */
  lemma SlotSetAppend(ps: seq<Prepared>, p: Prepared)
    ensures SlotSet(ps + [p]) == SlotSet(ps) + {p.slot}
  {
    forall x | x in SlotSet(ps + [p]) ensures x in SlotSet(ps) + {p.slot} {
      var q :| q in ps + [p] && q.slot == x;
    }
    forall x | x in SlotSet(ps) ensures x in SlotSet(ps + [p]) {
      var q :| q in ps && q.slot == x;
      assert q in ps + [p];
    }
    assert p in ps + [p];
  }

  /** The loop succeeds exactly on the items ItemsAccepted describes. */
  lemma {:induction false} PrepareAcceptsIff(items: seq<Option<ConfirmItem>>, prefix: string,
                                             head: string -> Option<ObjectMetadata>)
    ensures Prepare(items, prefix, head).Ok? <==> ItemsAccepted(items, prefix, head)
    decreases |items|
  {
    if |items| > 0 {
      var n := |items| - 1;
      var front := items[..n];
      PrepareAcceptsIff(front, prefix, head);
      AcceptedExtend(items, prefix, head);
      var pf := Prepare(front, prefix, head);
      if pf.Ok? {
        var done := pf.value;
        PrepareNext(items, n, done, prefix, head);
        assert items[..n + 1] == items;
        assert forall i :: 0 <= i < n ==> front[i] == items[i];
        SlotSeenBefore(front, done, ConfirmSlot(items[n]));
        assert (forall i :: 0 <= i < n ==> ConfirmSlot(front[i]) != ConfirmSlot(items[n]))
           <==> (forall i :: 0 <= i < n ==> ConfirmSlot(items[i]) != ConfirmSlot(items[n]));
      }
    }
  }

  /** Over items prepared with their own slots, a slot has been seen exactly
      when one of the items has it. */
  lemma SlotSeenBefore(front: seq<Option<ConfirmItem>>, done: seq<Prepared>, x: Option<int>)
    requires |done| == |front|
    requires forall i :: 0 <= i < |front| ==> front[i].Some? && done[i].slot == front[i].value.slot
    ensures x !in SlotSet(done) <==> forall i :: 0 <= i < |front| ==> ConfirmSlot(front[i]) != x
  {
    SlotSetMembers(done, x);
    if x in SlotSet(done) {
      var i :| 0 <= i < |done| && done[i].slot == x;
      assert ConfirmSlot(front[i]) == x;
    }
  }


  /** A failure is final: the items after the first failing one are not
      looked at. */
  lemma {:induction false} PrepareFailsFast(items: seq<Option<ConfirmItem>>, k: nat, prefix: string,
                                            head: string -> Option<ObjectMetadata>)
    requires k <= |items| && Prepare(items[..k], prefix, head).Err?
    ensures Prepare(items, prefix, head) == Prepare(items[..k], prefix, head)
    decreases |items|
  {
    if k < |items| {
      var n := |items| - 1;
      assert items[..n][..k] == items[..k];
      PrepareFailsFast(items[..n], k, prefix, head);
    } else {
      assert items[..k] == items;
    }
  }

  /** One more item: the loop so far, then that item checked against the
      slots seen so far. */
  lemma PrepareNext(items: seq<Option<ConfirmItem>>, i: nat, done: seq<Prepared>, prefix: string,
                    head: string -> Option<ObjectMetadata>)
    requires i < |items| && Prepare(items[..i], prefix, head) == Ok(done)
    ensures var p := PrepareItem(items[i], SlotSet(done), prefix, head);
      Prepare(items[..i + 1], prefix, head) == if p.Err? then Err(p.code) else Ok(done + [p.value])
  {
    assert items[..i + 1][..i] == items[..i];
  }

  /** One image of the response. */
  datatype ImageResponse = ImageResponse(slot: int, objectKey: string, publicUrl: Option<string>)

  function ResponseOf(img: ShareImage, cfg: UrlConfig): ImageResponse {
    ImageResponse(img.slot, img.objectKey, ToUrl(cfg.cdnBaseUrl, cfg.bucket, cfg.s3GetUrl, Some(img.objectKey)))
  }

  function Responses(images: seq<ShareImage>, cfg: UrlConfig): seq<ImageResponse> {
    seq(|images|, i requires 0 <= i < |images| => ResponseOf(images[i], cfg))
  }

  /** The order of `OrderBySeqAsc`. */
  function SlotOrder(r: ImageResponse): Key {
    Key(r.slot, 0, 0)
  }

  /** The images of a share listed in ascending slot, each with its URL. */
  function ImagesBySlot(images: seq<ShareImage>, cfg: UrlConfig): (r: seq<ImageResponse>)
    ensures Sorted(r, SlotOrder) && multiset(r) == multiset(Responses(images, cfg))
    ensures forall i, j :: 0 <= i < j < |r| ==> r[i].slot <= r[j].slot
  {
    var r := SortBy(Responses(images, cfg), SlotOrder);
    assert forall i, j :: 0 <= i < j < |r| ==> KeyLe(SlotOrder(r[i]), SlotOrder(r[j]));
    r
  }

  /** The new image list: each prepared item linked to the share. */
  function LinkedImages(ps: seq<Prepared>, id: int): seq<ShareImage>
    requires forall i :: 0 <= i < |ps| ==> ps[i].slot.Some?
  {
    seq(|ps|, i requires 0 <= i < |ps| => ShareImage(Some(id), ps[i].slot.value, ps[i].objectKey))
  }

  /** Linking one more prepared item appends its image. */
  lemma LinkedImagesNext(ps: seq<Prepared>, j: int, id: int)
    requires 0 <= j < |ps| && forall i :: 0 <= i < |ps| ==> ps[i].slot.Some?
    ensures LinkedImages(ps[..j + 1], id) == LinkedImages(ps[..j], id) + [ShareImage(Some(id), ps[j].slot.value, ps[j].objectKey)]
  {
    assert forall i :: 0 <= i <= j ==> ps[..j + 1][i] == ps[i];
    assert forall i :: 0 <= i < j ==> ps[..j][i] == ps[i];
  }

  function ObjectKeys(images: seq<ShareImage>): seq<string> {
    seq(|images|, i requires 0 <= i < |images| => images[i].objectKey)
  }

  function KeySet(ps: seq<Prepared>): set<string> {
    set p | p in ps :: p.objectKey
  }

  /** The keys to delete after commit: the old keys, in their order, that
      are not kept and lie under the share's directory. */
  function Orphans(oldKeys: seq<string>, keep: set<string>, prefix: string): (r: seq<string>)
    ensures forall k :: k in r <==> k in oldKeys && k !in keep && StartsWith(k, prefix)
    ensures multiset(r) <= multiset(oldKeys)
  {
    Filter(oldKeys, (k: string) => k !in keep && StartsWith(k, prefix))
  }

  /** What confirm returns: the share's images as stored, by slot, and the
      keys the after-commit hook deletes. */
  datatype ConfirmResult = ConfirmResult(shareId: int, images: seq<ImageResponse>, toDelete: seq<string>)

  /** confirm: a missing item list and more than five items are
      BAD_REQUEST; a null or unknown share id is NOT_FOUND (the locking
      query compares the id with `=`, so a null id matches no row); then
      the loop; a null slot passes the loop but
      fails the NOT NULL column at the flush. On success the share's images
      are replaced. */
  function ConfirmStep(t: Tables, req: ConfirmRequest, head: string -> Option<ObjectMetadata>, cfg: UrlConfig):
    (r: Step<ConfirmResult>)
    ensures r.result.Err? ==> r.tables == t
    ensures req.items.Some? && |req.items.value| <= MAX_IMAGES && (req.shareId.None? || req.shareId.value !in t.shares)
      ==> r.result == Err(NotFound)
    ensures r.result.Ok? ==>
      && req.shareId.Some? && req.shareId.value in t.shares && req.shareId.value in r.tables.shares
      && r.tables == WithImages(t, req.shareId.value, r.tables.shares[req.shareId.value].images)
  {
    if req.items.None? || |req.items.value| > MAX_IMAGES then Step(Err(BadRequest), t)
    else if req.shareId.None? || req.shareId.value !in t.shares then Step(Err(NotFound), t)
    else
      var id := req.shareId.value;
      var prefix := ShareImageDir(id);
      match Prepare(req.items.value, prefix, head)
      case Err(e) => Step(Err(e), t)
      case Ok(ps) =>
        if exists i :: 0 <= i < |ps| && ps[i].slot.None? then Step(Err(Internal), t)
        else
          var images := LinkedImages(ps, id);
          var u := WithImages(t, id, images);
          var toDelete := Orphans(ObjectKeys(t.shares[id].images), KeySet(ps), prefix);
          Step(Ok(ConfirmResult(id, ImagesBySlot(images, cfg), toDelete)), u)
  }

  /** The keys kept are the keys of the new images. */
  lemma KeySetMembers(ps: seq<Prepared>, id: int, k: string)
    requires forall i :: 0 <= i < |ps| ==> ps[i].slot.Some?
    ensures k in KeySet(ps) <==> exists i :: 0 <= i < |ps| && LinkedImages(ps, id)[i].objectKey == k
  {
    var images := LinkedImages(ps, id);
    if k in KeySet(ps) {
      var p :| p in ps && p.objectKey == k;
      var m :| 0 <= m < |ps| && ps[m] == p;
      assert images[m].objectKey == k;
    }
    if exists i :: 0 <= i < |ps| && images[i].objectKey == k {
      var m :| 0 <= m < |ps| && images[m].objectKey == k;
      assert ps[m] in ps;
    }
  }

  /** A successful confirm replaces the share's images, and nothing else,
      by the requested items, in request order, each linked to the share,
      with pairwise distinct slots and keys that are under the share's
      directory and present in storage with valid metadata. */
  lemma ConfirmImages(t: Tables, req: ConfirmRequest, head: string -> Option<ObjectMetadata>, cfg: UrlConfig)
    ensures var st := ConfirmStep(t, req, head, cfg);
      st.result.Ok? ==>
        var id := req.shareId.value;
        var items := req.items.value;
        var images := st.tables.shares[id].images;
        && st.tables == WithImages(t, id, images)
        && |images| == |items| <= MAX_IMAGES
        && (forall i :: 0 <= i < |items| ==>
              && items[i].Some? && items[i].value.slot == Some(images[i].slot)
              && items[i].value.objectKey == Some(images[i].objectKey)
              && images[i].share == Some(id)
              && KeyAccepted(images[i].objectKey, ShareImageDir(id), head))
        && (forall i, j :: 0 <= i < j < |images| ==> images[i].slot != images[j].slot)
  {
    var st := ConfirmStep(t, req, head, cfg);
    if st.result.Ok? {
      var id := req.shareId.value;
      PrepareAccepts(req.items.value, ShareImageDir(id), head);
    }
  }

  /** The keys a successful confirm deletes after commit are exactly the
      old keys under the share's directory that no new image keeps. */
  lemma ConfirmOrphans(t: Tables, req: ConfirmRequest, head: string -> Option<ObjectMetadata>, cfg: UrlConfig)
    ensures var st := ConfirmStep(t, req, head, cfg);
      st.result.Ok? ==>
        var id := req.shareId.value;
        var images := st.tables.shares[id].images;
        forall k :: k in st.result.value.toDelete <==>
          && k in ObjectKeys(t.shares[id].images)
          && (forall i :: 0 <= i < |images| ==> images[i].objectKey != k)
          && StartsWith(k, ShareImageDir(id))
  {
    var st := ConfirmStep(t, req, head, cfg);
    if st.result.Ok? {
      var id := req.shareId.value;
      var ps := Prepare(req.items.value, ShareImageDir(id), head).value;
      forall k ensures k in KeySet(ps) <==> exists i :: 0 <= i < |ps| && LinkedImages(ps, id)[i].objectKey == k {
        KeySetMembers(ps, id, k);
      }
    }
  }

  /** A successful confirm answers with the new images of the share, in
      ascending slot. */
  lemma ConfirmResponse(t: Tables, req: ConfirmRequest, head: string -> Option<ObjectMetadata>, cfg: UrlConfig)
    ensures var st := ConfirmStep(t, req, head, cfg);
      st.result.Ok? ==>
        var id := req.shareId.value;
        var out := st.result.value.images;
        && st.result.value.shareId == id
        && multiset(out) == multiset(Responses(st.tables.shares[id].images, cfg))
        && (forall i, j :: 0 <= i < j < |out| ==> out[i].slot <= out[j].slot)
  {
  }

  /** confirm fails, writing nothing, when two items name the same slot or
      a key lies outside the share's directory. */
  lemma ConfirmRejects(t: Tables, req: ConfirmRequest, head: string -> Option<ObjectMetadata>, cfg: UrlConfig)
    requires req.items.Some? && req.shareId.Some?
    requires var items := req.items.value;
      || (exists i, j :: 0 <= i < j < |items| && items[i].Some? && items[j].Some? &&
                          items[i].value.slot == items[j].value.slot)
      || (exists i :: 0 <= i < |items| && items[i].Some? && items[i].value.objectKey.Some? &&
                      !StartsWith(items[i].value.objectKey.value, ShareImageDir(req.shareId.value)))
    ensures ConfirmStep(t, req, head, cfg).result.Err?
    ensures ConfirmStep(t, req, head, cfg).tables == t
  {
    PrepareAccepts(req.items.value, ShareImageDir(req.shareId.value), head);
  }

  /** Replacing a share's images keeps the invariant and the committed
      stock. */
  lemma ImagesReplaced(t: Tables, id: int, images: seq<ShareImage>)
    requires Invariant(t) && id in t.shares
    ensures Invariant(WithImages(t, id, images)) && Conserves(t, WithImages(t, id, images))
  {
    var u := WithImages(t, id, images);
    assert forall sid :: sid in t.shares ==> Committed(u, sid) == Committed(t, sid);
  }

  lemma ConfirmKeepsInvariant(t: Tables, req: ConfirmRequest, head: string -> Option<ObjectMetadata>, cfg: UrlConfig)
    requires Invariant(t)
    ensures Invariant(ConfirmStep(t, req, head, cfg).tables) && Conserves(t, ConfirmStep(t, req, head, cfg).tables)
  {
    var st := ConfirmStep(t, req, head, cfg);
    if st.result.Ok? {
      ImagesReplaced(t, req.shareId.value, st.tables.shares[req.shareId.value].images);
    } else {
      ConservesUntouched(t, st.tables);
    }
  }

  /** The loop of confirm: the `seenSeq` set and the `nextImages` list. */
  method PrepareImages(items: seq<Option<ConfirmItem>>, prefix: string, head: string -> Option<ObjectMetadata>)
    returns (r: Result<seq<Prepared>>)
    ensures r == Prepare(items, prefix, head)
  {
    var seen: set<Option<int>> := {};
    var next: seq<Prepared> := [];
    var i := 0;
    while i < |items|
      invariant 0 <= i <= |items|
      invariant Prepare(items[..i], prefix, head) == Ok(next)
      invariant seen == SlotSet(next)
    {
      PrepareNext(items, i, next, prefix, head);
      var it := items[i];
      if it.None? {
        PrepareFailsFast(items, i + 1, prefix, head);
        return Err(Internal);
      }
      if it.value.slot in seen {
        PrepareFailsFast(items, i + 1, prefix, head);
        return Err(BadRequest);
      }
      if it.value.objectKey.None? {
        PrepareFailsFast(items, i + 1, prefix, head);
        return Err(Internal);
      }
      var key := it.value.objectKey.value;
      if !StartsWith(key, prefix) {
        PrepareFailsFast(items, i + 1, prefix, head);
        return Err(BadRequest);
      }
      var md := head(key);
      if md.None? || ValidateMetadata(md.value) != Pass {
        PrepareFailsFast(items, i + 1, prefix, head);
        return Err(BadRequest);
      }
      SlotSetAppend(next, Prepared(it.value.slot, key));
      seen := seen + {it.value.slot};
      next := next + [Prepared(it.value.slot, key)];
      i := i + 1;
    }
    assert items[..i] == items;
    return Ok(next);
  }

  /** `getImages().clear()` and then `addImage` for each prepared item. */
  method ReplaceImages(db: Db, id: int, next: seq<Prepared>)
    requires db.Valid() && id in db.shares.byId
    requires forall i :: 0 <= i < |next| ==> next[i].slot.Some?
    modifies db.shares, db.shares.byId.Values
    ensures db.Valid() && db.shares.byId == old(db.shares.byId)
    ensures db.Rows() == WithImages(old(db.Rows()), id, LinkedImages(next, id))
  {
    db.ClearImages(id);
    WithImagesTwice(old(db.Rows()), id, old(db.shares.rows)[id].images, []);
    var j := 0;
    assert LinkedImages(next[..j], id) == [];
    while j < |next|
      invariant 0 <= j <= |next|
      invariant db.Valid() && db.shares.byId == old(db.shares.byId)
      invariant db.Rows() == WithImages(old(db.Rows()), id, LinkedImages(next[..j], id))
    {
      LinkedImagesNext(next, j, id);
      db.AddImage(id, ShareImage(None, next[j].slot.value, next[j].objectKey));
      WithImagesTwice(old(db.Rows()), id, LinkedImages(next[..j], id), LinkedImages(next[..j + 1], id));
      j := j + 1;
    }
    assert next[..j] == next;
  }

  /** confirm. The loop runs before any write and the NOT NULL check on the
      slots is made before the flush, so a failure leaves the tables as the
      rollback does. */
  method Confirm(db: Db, req: ConfirmRequest, head: string -> Option<ObjectMetadata>, cfg: UrlConfig)
    returns (r: Result<ConfirmResult>)
    requires db.Valid()
    modifies db.shares, db.shares.byId.Values
    ensures db.Valid()
    ensures Step(r, db.Rows()) == ConfirmStep(old(db.Rows()), req, head, cfg)
  {
    if req.items.None? || |req.items.value| > MAX_IMAGES {
      return Err(BadRequest);
    }
    if req.shareId.None? || req.shareId.value !in db.shares.byId {
      return Err(NotFound);
    }
    var id := req.shareId.value;
    var oldKeys := ObjectKeys(db.shares.byId[id].images);
    var prefix := ShareImageDir(id);
    var prepared := PrepareImages(req.items.value, prefix, head);
    if prepared.Err? {
      return Err(prepared.code);
    }
    var next := prepared.value;
    if exists i :: 0 <= i < |next| && next[i].slot.None? {
      return Err(Internal);
    }
    ReplaceImages(db, id, next);
    var toDelete := Orphans(oldKeys, KeySet(next), prefix);
    return Ok(ConfirmResult(id, ImagesBySlot(db.shares.byId[id].images, cfg), toDelete));
  }
}
