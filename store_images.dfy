/** StoreImageService: a store's image is uploaded as a draft under the
    member's draft directory (presignDraft) and then copied to its final key
    and recorded on the store (commitFromDraft). The storage HEAD request is
    a parameter returning the object's metadata, or nothing when it throws;
    the UUID the key builder draws is a parameter too. */
module StoreImageService {
  import opened Common
  import opened Text
  import opened Database
  import opened Repositories
  import opened StoreEntity
  import opened S3ImageService
  import opened PublicUrlResolver
  import opened ImageUploads
  import opened TableWrites
  import ShareImageService

  /** The presign request of a store draft. */
  datatype DraftPresignRequest = DraftPresignRequest(ext: Option<string>, contentType: Option<string>,
                                                     sizeBytes: Option<int>)

  /** The presign response, without the presigned PUT URL. */
  datatype DraftPresigned = DraftPresigned(memberId: int, previewUrl: Option<string>, draftKey: string)

  /** presignDraft: an announced size over 10 MiB is BAD_REQUEST; a null
      type makes the immutable set's `contains` throw; a type outside the
      four is BAD_REQUEST; otherwise a draft key under the member's draft
      directory and its preview URL. */
  function PresignDraft(memberId: int, req: DraftPresignRequest, uuid: string, cfg: UrlConfig): (r: Result<DraftPresigned>)
    ensures r.Ok? <==>
      && (req.sizeBytes.None? || req.sizeBytes.value <= MAX_IMAGE_BYTES)
      && req.contentType.Some? && req.contentType.value in ALLOWED_IMAGE_MIME
    ensures req.sizeBytes.Some? && req.sizeBytes.value > MAX_IMAGE_BYTES ==> r == Err(BadRequest)
    ensures r.Ok? ==> r.value.memberId == memberId
  {
    if req.sizeBytes.Some? && req.sizeBytes.value > MAX_IMAGE_BYTES then Err(BadRequest)
    else if req.contentType.None? then Err(Internal)
    else if req.contentType.value !in ALLOWED_IMAGE_MIME then Err(BadRequest)
    else
      var key := StoreDraftKey(memberId, req.ext, uuid);
      Ok(DraftPresigned(memberId, ToUrl(cfg.cdnBaseUrl, cfg.bucket, cfg.s3GetUrl, Some(key)), key))
  }

  /** validate: 0 < size <= 10 MiB and an allowed MIME type, with both size
      failures in one test. */
  function Validate(md: ObjectMetadata): (r: Outcome)
    ensures r != Pass ==> r == Fail(BadRequest)
  {
    if md.contentLength <= 0 || md.contentLength > MAX_IMAGE_BYTES then Fail(BadRequest)
    else if MediaType(md.contentType) !in ALLOWED_IMAGE_MIME then Fail(BadRequest)
    else Pass
  }

  /** The store check and the share check accept and reject the same
      objects, with the same error. */
  lemma ValidateAgrees(md: ObjectMetadata)
    ensures Validate(md) == ShareImageService.ValidateMetadata(md)
    ensures Validate(md) == Pass <==> 0 < md.contentLength <= MAX_IMAGE_BYTES && MediaType(md.contentType) in ALLOWED_IMAGE_MIME
  {
  }

  /** What commitFromDraft leaves for the after-completion hook: the final
      key recorded on the store and the key it replaced. */
  datatype Committed = Committed(draftKey: string, finalKey: string, oldKey: Option<string>)

  /** commitFromDraft: an unknown store is NOT_FOUND; a store without an
      owner throws; a member other than the owner is INVALID_PERMISSION; a
      null draft key throws; a draft key outside the member's draft
      directory is BAD_REQUEST; a failing HEAD request throws; bad metadata
      is BAD_REQUEST. Otherwise the store's image key becomes a new key
      under the store's directory, with the draft's extension. */
  function CommitStep(t: Tables, memberId: int, storeId: int, draftKey: Option<string>,
                      head: string -> Option<ObjectMetadata>, uuid: string): (r: Step<Committed>)
    ensures r.result.Err? ==> r.tables == t
    ensures r.result.Ok? ==> storeId in t.stores && t.stores[storeId].owner == Some(memberId)
  {
    if storeId !in t.stores then Step(Err(NotFound), t)
    else
      var store := t.stores[storeId];
      if store.owner.None? then Step(Err(Internal), t)
      else if store.owner.value != memberId then Step(Err(InvalidPermission), t)
      else if draftKey.None? then Step(Err(Internal), t)
      else if !StartsWith(draftKey.value, StoreDraftDir(memberId)) then Step(Err(BadRequest), t)
      else if head(draftKey.value).None? then Step(Err(Internal), t)
      else if Validate(head(draftKey.value).value) != Pass then Step(Err(BadRequest), t)
      else
        var finalKey := StoreImageKey(storeId, Some(ExtractExtFromKey(draftKey.value)), uuid);
        var u := t.(stores := t.stores[storeId := store.(storeImageKey := Some(finalKey))]);
        Step(Ok(Committed(draftKey.value, finalKey, store.storeImageKey)), u)
  }

  /** The error cases of commitFromDraft, each leaving the tables as they
      were: a member who does not own the store, and a draft key outside
      the member's draft directory. */
  lemma CommitRejects(t: Tables, memberId: int, storeId: int, draftKey: Option<string>,
                      head: string -> Option<ObjectMetadata>, uuid: string)
    ensures storeId in t.stores && t.stores[storeId].owner.Some? && t.stores[storeId].owner != Some(memberId) ==>
      CommitStep(t, memberId, storeId, draftKey, head, uuid) == Step(Err(InvalidPermission), t)
    ensures storeId in t.stores && t.stores[storeId].owner == Some(memberId) && draftKey.Some? &&
            !StartsWith(draftKey.value, StoreDraftDir(memberId)) ==>
      CommitStep(t, memberId, storeId, draftKey, head, uuid) == Step(Err(BadRequest), t)
  {
  }

  /** The final key of a draft: under `stores/<storeId>/image/`, with the
      draft's extension. */
  lemma FinalKeyShape(storeId: int, draftKey: string, uuid: string)
    requires IsHexUuid(uuid)
    ensures var k := StoreImageKey(storeId, Some(ExtractExtFromKey(draftKey)), uuid);
      && StartsWith(k, "stores/" + IntToString(storeId) + "/image/")
      && StartsWith(k, "stores/")
      && ExtractExtFromKey(k) == ExtractExtFromKey(draftKey)
  {
    var e := ExtractExtFromKey(draftKey);
    var dir := "stores/" + IntToString(storeId) + "/image/";
    var k := StoreImageKey(storeId, Some(e), uuid);
    assert k == dir + (uuid + "." + CleanExt(Some(e)));
    StartsWithConcat(dir, uuid + "." + CleanExt(Some(e)));
    assert dir == "stores/" + (IntToString(storeId) + "/image/");
    StartsWithShorter(k, "stores/", IntToString(storeId) + "/image/");
    ExtractExtOfStoreImageKey(storeId, Some(e), uuid);
    NormalisedAllowed(e);
  }

  /** A successful commit records a key under `stores/<storeId>/image/`
      that keeps the draft's extension, and changes that one column of
      that one store and nothing else. */
  lemma CommitOutcome(t: Tables, memberId: int, storeId: int, draftKey: Option<string>,
                      head: string -> Option<ObjectMetadata>, uuid: string)
    requires IsHexUuid(uuid)
    ensures var st := CommitStep(t, memberId, storeId, draftKey, head, uuid);
      st.result.Ok? ==>
        var c := st.result.value;
        && draftKey == Some(c.draftKey) && StartsWith(c.draftKey, StoreDraftDir(memberId))
        && StartsWith(c.finalKey, "stores/" + IntToString(storeId) + "/image/")
        && StartsWith(c.finalKey, "stores/")
        && ExtractExtFromKey(c.finalKey) == ExtractExtFromKey(c.draftKey)
        && c.oldKey == t.stores[storeId].storeImageKey
        && st.tables == t.(stores := t.stores[storeId := t.stores[storeId].(storeImageKey := Some(c.finalKey))])
  {
    var st := CommitStep(t, memberId, storeId, draftKey, head, uuid);
    if st.result.Ok? {
      FinalKeyShape(storeId, draftKey.value, uuid);
    }
  }

  /** commitFromDraft keeps the invariant and the stock. */
  lemma CommitKeepsInvariant(t: Tables, memberId: int, storeId: int, draftKey: Option<string>,
                             head: string -> Option<ObjectMetadata>, uuid: string)
    requires Invariant(t)
    ensures Invariant(CommitStep(t, memberId, storeId, draftKey, head, uuid).tables)
    ensures Conserves(t, CommitStep(t, memberId, storeId, draftKey, head, uuid).tables)
  {
    var st := CommitStep(t, memberId, storeId, draftKey, head, uuid);
    if st.result.Ok? {
      StoreReplaced(t, storeId, st.tables.stores[storeId]);
    }
    ConservesUntouched(t, st.tables);
  }

  /** A draft handed out by presignDraft passes the prefix check of
      commitFromDraft for the same member, and the final key made from it
      carries the extension the draft was presigned with. */
  lemma PresignThenCommit(t: Tables, memberId: int, req: DraftPresignRequest, draftUuid: string, cfg: UrlConfig,
                          storeId: int, head: string -> Option<ObjectMetadata>, uuid: string)
    requires IsHexUuid(draftUuid) && IsHexUuid(uuid)
    requires PresignDraft(memberId, req, draftUuid, cfg).Ok?
    ensures var key := PresignDraft(memberId, req, draftUuid, cfg).value.draftKey;
      && StartsWith(key, StoreDraftDir(memberId))
      && ExtractExtFromKey(key) == CleanExt(req.ext)
      && var st := CommitStep(t, memberId, storeId, Some(key), head, uuid);
         st.result.Ok? ==> ExtractExtFromKey(st.result.value.finalKey) == CleanExt(req.ext)
  {
    var key := PresignDraft(memberId, req, draftUuid, cfg).value.draftKey;
    StoreDraftKeyInDir(memberId, req.ext, draftUuid);
    ExtractExtOfStoreDraftKey(memberId, req.ext, draftUuid);
    CommitOutcome(t, memberId, storeId, Some(key), head, uuid);
  }

  /** The keys the after-completion hook deletes: on commit the draft and
      the replaced key, on rollback the copied final key; `safeDelete`
      skips a null or blank key. */
  function Cleanup(committed: bool, c: Committed): (r: seq<string>)
    ensures committed ==> forall k :: k in r <==>
      (k == c.draftKey && IsDeletableKey(Some(k))) || (Some(k) == c.oldKey && IsDeletableKey(c.oldKey))
    ensures !committed ==> forall k :: k in r <==> k == c.finalKey && IsDeletableKey(Some(k))
  {
    if committed then
      (if IsDeletableKey(Some(c.draftKey)) then [c.draftKey] else []) +
      (if IsDeletableKey(c.oldKey) then [c.oldKey.value] else [])
    else if IsDeletableKey(Some(c.finalKey)) then [c.finalKey] else []
  }

  /** With the draft under `drafts/` and the final key under `stores/`,
      the commit cleanup deletes the draft and spares the new image (the
      replaced key being another key), and the rollback cleanup deletes the
      copy and only the copy. */
  lemma CleanupSparesNewImage(c: Committed)
    requires StartsWith(c.draftKey, "drafts/") && StartsWith(c.finalKey, "stores/")
    ensures c.oldKey != Some(c.finalKey) ==> c.finalKey !in Cleanup(true, c)
    ensures c.draftKey in Cleanup(true, c)
    ensures Cleanup(false, c) == [c.finalKey]
  {
    assert c.finalKey[0] == "stores/"[0] == 's';
    assert c.draftKey[0] == "drafts/"[0] == 'd';
    assert !IsJavaWhitespace(c.finalKey[0]) && !IsJavaWhitespace(c.draftKey[0]);
  }

  /** A key in a member's draft directory lies under `drafts/`. */
  lemma DraftUnderDrafts(key: string, memberId: int)
    requires StartsWith(key, StoreDraftDir(memberId))
    ensures StartsWith(key, "drafts/")
  {
    assert StoreDraftDir(memberId) == "drafts/" + (IntToString(memberId) + "/store/image/");
    StartsWithShorter(key, "drafts/", IntToString(memberId) + "/store/image/");
  }

  /** Every successful commit meets the premises of CleanupSparesNewImage. */
  lemma CommitCleanup(t: Tables, memberId: int, storeId: int, draftKey: Option<string>,
                      head: string -> Option<ObjectMetadata>, uuid: string)
    requires IsHexUuid(uuid)
    ensures var st := CommitStep(t, memberId, storeId, draftKey, head, uuid);
      st.result.Ok? ==>
        var c := st.result.value;
        && (c.oldKey != Some(c.finalKey) ==> c.finalKey !in Cleanup(true, c))
        && c.draftKey in Cleanup(true, c)
        && Cleanup(false, c) == [c.finalKey]
  {
    var st := CommitStep(t, memberId, storeId, draftKey, head, uuid);
    if st.result.Ok? {
      CommitOutcome(t, memberId, storeId, draftKey, head, uuid);
      var c := st.result.value;
      DraftUnderDrafts(c.draftKey, memberId);
      CleanupSparesNewImage(c);
    }
  }

  /** The read-only presign call. */
  method PresignDraftCall(memberId: int, req: DraftPresignRequest, uuid: string, cfg: UrlConfig)
    returns (r: Result<DraftPresigned>)
    ensures r == PresignDraft(memberId, req, uuid, cfg)
  {
    if req.sizeBytes.Some? && req.sizeBytes.value > MAX_IMAGE_BYTES {
      return Err(BadRequest);
    }
    if req.contentType.None? {
      return Err(Internal);
    }
    if req.contentType.value !in ALLOWED_IMAGE_MIME {
      return Err(BadRequest);
    }
    var key := StoreDraftKey(memberId, req.ext, uuid);
    return Ok(DraftPresigned(memberId, ToUrl(cfg.cdnBaseUrl, cfg.bucket, cfg.s3GetUrl, Some(key)), key));
  }

  /** commitFromDraft. The copy to the final key is storage I/O and is not
      part of this model. */
  method CommitFromDraft(db: Db, memberId: int, storeId: int, draftKey: Option<string>,
                         head: string -> Option<ObjectMetadata>, uuid: string) returns (r: Result<Committed>)
    requires db.Valid()
    modifies db.stores, db.stores.byId.Values
    ensures db.Valid()
    ensures Step(r, db.Rows()) == CommitStep(old(db.Rows()), memberId, storeId, draftKey, head, uuid)
  {
    if storeId !in db.stores.byId {
      return Err(NotFound);
    }
    var store := db.stores.byId[storeId];
    if store.owner.None? {
      return Err(Internal);
    }
    if store.owner.value != memberId {
      return Err(InvalidPermission);
    }
    if draftKey.None? {
      return Err(Internal);
    }
    if !StartsWith(draftKey.value, StoreDraftDir(memberId)) {
      return Err(BadRequest);
    }
    var md := head(draftKey.value);
    if md.None? {
      return Err(Internal);
    }
    if Validate(md.value) != Pass {
      return Err(BadRequest);
    }
    var ext := ExtractExtFromKey(draftKey.value);
    var finalKey := StoreImageKey(storeId, Some(ext), uuid);
    var oldKey := store.storeImageKey;
    db.SetStoreImageKey(storeId, Some(finalKey));
    return Ok(Committed(draftKey.value, finalKey, oldKey));
  }
}
