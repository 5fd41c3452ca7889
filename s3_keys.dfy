/** The object-key logic of S3ImageService: joining path segments, normalising
    and extracting file extensions, the four key builders and the clamp on the
    lifetime of a presigned URL. A random UUID is a parameter. */
module S3ImageService {
  import opened Common
  import opened Text

  /** The extensions a key may end with. */
  const ALLOWED_EXT: set<string> := {"jpg", "jpeg", "png", "webp", "gif"}

  /** Presigned URL lifetimes, in nanoseconds (Java's `Duration`). */
  const DEFAULT_TTL: int := 15 * 60 * 1_000_000_000
  const MAX_TTL: int := 7 * 24 * 60 * 60 * 1_000_000_000

  /** Every allowed extension is a non-empty run of lower-case ASCII letters. */
  lemma AllowedExtShape(e: string)
    requires e in ALLOWED_EXT
    ensures |e| > 0
    ensures forall i | 0 <= i < |e| :: 'a' <= e[i] <= 'z'
  {
    if e == "jpg" {
    } else if e == "jpeg" {
    } else if e == "png" {
    } else if e == "webp" {
    } else {
      assert e == "gif";
    }
  }

  // ---------------------------------------------------------------------------
  // cleanExt and extractExtFromKey

  /** The normalisation cleanExt applies before the membership test: trim,
      lower-case, then drop one leading '.'. */
  function NormalisedExt(s: string): string {
    var e := ToLower(Trim(s));
    if StartsWith(e, ".") then e[1..] else e
  }

  /** cleanExt: a blank extension becomes "jpg"; otherwise the normalised
      extension when it is allowed, and "jpg" when it is not. */
  function CleanExt(ext: Option<string>): (r: string)
    ensures r in ALLOWED_EXT
    ensures IsBlank(ext) ==> r == "jpg"
    ensures !IsBlank(ext) && NormalisedExt(ext.value) in ALLOWED_EXT ==> r == NormalisedExt(ext.value)
    ensures !IsBlank(ext) && NormalisedExt(ext.value) !in ALLOWED_EXT ==> r == "jpg"
  {
    if IsBlank(ext) then "jpg"
    else
      var e := NormalisedExt(ext.value);
      if e in ALLOWED_EXT then e else "jpg"
  }

  /** An allowed extension is its own normal form. */
  lemma NormalisedAllowed(e: string)
    requires e in ALLOWED_EXT
    ensures !IsBlank(Some(e))
    ensures NormalisedExt(e) == e
  {
    AllowedExtShape(e);
    NormalisedLower(e);
  }

  /** A non-empty run of lower-case letters is its own normal form. */
  lemma NormalisedLower(e: string)
    requires |e| > 0 && forall i | 0 <= i < |e| :: 'a' <= e[i] <= 'z'
    ensures !IsBlank(Some(e))
    ensures NormalisedExt(e) == e
  {
    TrimOfTrimmed(e);
    TrimEmptyIff(e);
    ToLowerOfLower(e);
    var l := ToLower(Trim(e));
    assert l == e;
    assert l[..1][0] == l[0] != '.';
  }

  /** cleanExt is idempotent: cleaning a cleaned extension changes nothing. */
  lemma CleanExtIdempotent(ext: Option<string>)
    ensures CleanExt(Some(CleanExt(ext))) == CleanExt(ext)
  {
    NormalisedAllowed(CleanExt(ext));
  }

  /** Normalising a '.' followed by lower-case letters gives the letters. */
  lemma NormalisedDotted(e: string)
    requires |e| > 0 && forall i | 0 <= i < |e| :: 'a' <= e[i] <= 'z'
    ensures !IsBlank(Some("." + e))
    ensures NormalisedExt("." + e) == e
  {
    var s := "." + e;
    assert s[0] == '.' && s[|s| - 1] == e[|e| - 1];
    TrimOfTrimmed(s);
    TrimEmptyIff(s);
    assert forall i | 0 <= i < |s| :: !('A' <= s[i] <= 'Z') by {
      forall i | 0 <= i < |s| ensures !('A' <= s[i] <= 'Z') {
        if i > 0 { assert s[i] == e[i - 1]; }
      }
    }
    ToLowerOfLower(s);
    assert s[1..] == e;
  }

  /** A leading '.' is dropped: ".png" cleans to "png". */
  lemma CleanExtDotted(e: string)
    requires e in ALLOWED_EXT
    ensures CleanExt(Some("." + e)) == e
  {
    AllowedExtShape(e);
    NormalisedDotted(e);
  }

  /** extractExtFromKey: the lower-cased text after the last '.' of the
      slash-trimmed key, when it is an allowed extension; "jpg" when there is
      no '.', when the '.' is the last char, or when the text is not allowed. */
  function ExtractExtFromKey(key: string): (r: string)
    ensures r in ALLOWED_EXT
    ensures var k := TrimmedSlashes(key); var dot := LastIndexOf(k, '.');
      dot < 0 || dot == |k| - 1 ==> r == "jpg"
    ensures var k := TrimmedSlashes(key); var dot := LastIndexOf(k, '.');
      0 <= dot < |k| - 1 && ToLower(k[dot + 1..]) in ALLOWED_EXT ==> r == ToLower(k[dot + 1..])
  {
    var k := TrimmedSlashes(key);
    var dot := LastIndexOf(k, '.');
    if dot < 0 || dot == |k| - 1 then "jpg"
    else
      var e := ToLower(k[dot + 1..]);
      if e in ALLOWED_EXT then e else "jpg"
  }

  // ---------------------------------------------------------------------------
  // join

  /** The left-to-right fold of join's loop: `acc` is the builder's contents
      so far; a blank part is skipped, any other part is slash-trimmed and
      appended, after a '/' unless the builder is still empty. */
  function JoinFrom(acc: string, parts: seq<string>): (r: string)
    decreases |parts|
  {
    if |parts| == 0 then acc
    else if IsBlank(Some(parts[0])) then JoinFrom(acc, parts[1..])
    else
      var seg := TrimmedSlashes(parts[0]);
      JoinFrom(if acc == "" then seg else acc + "/" + seg, parts[1..])
  }

  /** What join returns. */
  function Joined(parts: seq<string>): string {
    JoinFrom("", parts)
  }

  /** join, as the loop over the parts with a string builder. */
  method Join(parts: seq<string>) returns (r: string)
    ensures r == Joined(parts)
  {
    var sb := "";
    var i := 0;
    while i < |parts|
      invariant 0 <= i <= |parts|
      invariant JoinFrom(sb, parts[i..]) == Joined(parts)
    {
      assert parts[i..][0] == parts[i] && parts[i..][1..] == parts[i + 1..];
      var p := parts[i];
      if !IsBlank(Some(p)) {
        var seg := TrimSlashes(p);
        var next := if sb == "" then seg else sb + "/" + seg;
        assert JoinFrom(sb, parts[i..]) == JoinFrom(next, parts[i + 1..]);
        if sb != "" {
          sb := sb + "/";
        }
        sb := sb + seg;
        assert sb == next;
      } else {
        assert JoinFrom(sb, parts[i..]) == JoinFrom(sb, parts[i + 1..]);
      }
      i := i + 1;
    }
    assert parts[i..] == [];
    r := sb;
  }

  /** The parts that are not blank, in order. */
  function NonBlankParts(parts: seq<string>): (r: seq<string>)
    ensures |r| <= |parts|
    ensures forall i | 0 <= i < |r| :: !IsBlank(Some(r[i]))
  {
    if |parts| == 0 then []
    else if IsBlank(Some(parts[0])) then NonBlankParts(parts[1..])
    else [parts[0]] + NonBlankParts(parts[1..])
  }

  /** join skips blank parts: it gives the same key with them removed. */
  lemma {:induction false} JoinSkipsBlank(acc: string, parts: seq<string>)
    ensures JoinFrom(acc, parts) == JoinFrom(acc, NonBlankParts(parts))
    decreases |parts|
  {
    if |parts| > 0 {
      var rest := NonBlankParts(parts[1..]);
      if IsBlank(Some(parts[0])) {
        JoinSkipsBlank(acc, parts[1..]);
      } else {
        var seg := TrimmedSlashes(parts[0]);
        var acc' := if acc == "" then seg else acc + "/" + seg;
        JoinSkipsBlank(acc', parts[1..]);
        assert ([parts[0]] + rest)[0] == parts[0];
        assert ([parts[0]] + rest)[1..] == rest;
      }
    }
  }

  /** A part that needs no normalisation: non-empty, starting above U+0020
      and with no '/' at either end. */
  predicate CleanPart(p: string) {
    |p| > 0 && p[0] > ' ' && p[0] != '/' && p[|p| - 1] != '/'
  }

  /** Each part preceded by a '/'. */
  function SlashPrefixed(parts: seq<string>): (r: string)
    ensures |parts| > 0 ==> |r| > 0 && r[0] == '/'
  {
    if |parts| == 0 then "" else "/" + parts[0] + SlashPrefixed(parts[1..])
  }

  /** The parts separated by single '/'. */
  function SlashSeparated(parts: seq<string>): string {
    if |parts| == 0 then "" else parts[0] + SlashPrefixed(parts[1..])
  }

  lemma CleanPartKept(p: string)
    requires CleanPart(p)
    ensures !IsBlank(Some(p)) && TrimmedSlashes(p) == p
  {
    TrimEmptyIff(p);
    TrimmedSlashesNoop(p);
  }

  lemma {:induction false} JoinFromClean(acc: string, parts: seq<string>)
    requires acc != ""
    requires forall i | 0 <= i < |parts| :: CleanPart(parts[i])
    ensures JoinFrom(acc, parts) == acc + SlashPrefixed(parts)
    decreases |parts|
  {
    if |parts| > 0 {
      var p, rest := parts[0], parts[1..];
      CleanPartKept(p);
      var acc' := acc + "/" + p;
      assert JoinFrom(acc, parts) == JoinFrom(acc', rest);
      assert forall i | 0 <= i < |rest| :: CleanPart(rest[i]) by {
        forall i | 0 <= i < |rest| ensures CleanPart(rest[i]) {
          assert rest[i] == parts[i + 1];
        }
      }
      JoinFromClean(acc', rest);
      assert SlashPrefixed(parts) == "/" + p + SlashPrefixed(rest);
      Concat4(acc, "/", p, SlashPrefixed(rest));
    }
  }

  lemma Concat4(a: string, b: string, c: string, d: string)
    ensures a + b + c + d == a + (b + c + d)
  {
    assert a + b + c + d == a + (b + c) + d;
  }

  /** For clean parts, join is the parts separated by single '/'. */
  lemma JoinedClean(parts: seq<string>)
    requires forall i | 0 <= i < |parts| :: CleanPart(parts[i])
    ensures Joined(parts) == SlashSeparated(parts)
  {
    if |parts| > 0 {
      CleanPartKept(parts[0]);
      JoinFromClean(parts[0], parts[1..]);
    }
  }

  // ---------------------------------------------------------------------------
  // The key builders

  /** What `uuid()` returns: a random UUID with its dashes removed, which is
      32 lower-case hexadecimal digits. */
  predicate IsHexUuid(u: string) {
    |u| == 32 && forall i | 0 <= i < |u| :: '0' <= u[i] <= '9' || 'a' <= u[i] <= 'f'
  }

  /** The decimal form of a Java `Long` or `int` is a clean part. */
  lemma IntPartClean(n: int)
    ensures CleanPart(IntToString(n))
  {
  }

  /** The file name `<stem><uuid>.<cleanExt(ext)>` that ends every key: a
      clean part with no '/' anywhere. */
  lemma FileNameClean(stem: string, uuid: string, e: string)
    requires IsHexUuid(uuid) && e in ALLOWED_EXT
    requires forall i | 0 <= i < |stem| :: stem[i] != '/'
    requires |stem| > 0 ==> stem[0] > ' '
    ensures CleanPart(stem + uuid + "." + e)
  {
    AllowedExtShape(e);
    var f := stem + uuid + "." + e;
    assert f[|f| - 1] == e[|e| - 1];
    if |stem| == 0 {
      assert f[0] == uuid[0];
    } else {
      assert f[0] == stem[0];
    }
  }

  /** join of four clean parts. */
  lemma Joined4(a: string, b: string, c: string, d: string)
    requires CleanPart(a) && CleanPart(b) && CleanPart(c) && CleanPart(d)
    ensures Joined([a, b, c, d]) == a + "/" + b + "/" + c + "/" + d
  {
    JoinedClean([a, b, c, d]);
    SlashSeparated4(a, b, c, d);
  }

  /** join of five clean parts. */
  lemma Joined5(a: string, b: string, c: string, d: string, e: string)
    requires CleanPart(a) && CleanPart(b) && CleanPart(c) && CleanPart(d) && CleanPart(e)
    ensures Joined([a, b, c, d, e]) == a + "/" + b + "/" + c + "/" + d + "/" + e
  {
    JoinedClean([a, b, c, d, e]);
    SlashSeparated5(a, b, c, d, e);
  }

  lemma SlashSeparated4(a: string, b: string, c: string, d: string)
    ensures SlashSeparated([a, b, c, d]) == a + "/" + b + "/" + c + "/" + d
  {
    SlashPrefixed3(b, c, d);
    assert [a, b, c, d][1..] == [b, c, d];
    Concat4(a + "/" + b, "/", c, "/" + d);
    Concat4(a, "/", b, "/" + c + "/" + d);
  }

  lemma SlashSeparated5(a: string, b: string, c: string, d: string, e: string)
    ensures SlashSeparated([a, b, c, d, e]) == a + "/" + b + "/" + c + "/" + d + "/" + e
  {
    SlashPrefixed3(c, d, e);
    assert [a, b, c, d, e][1..] == [b, c, d, e];
    assert [b, c, d, e][1..] == [c, d, e];
    assert SlashPrefixed([b, c, d, e]) == "/" + b + ("/" + c + "/" + d + "/" + e);
    Concat4(a + "/" + b + "/" + c, "/", d, "/" + e);
    Concat4(a + "/" + b, "/", c, "/" + d + "/" + e);
    Concat4(a, "/", b, "/" + c + "/" + d + "/" + e);
  }

  lemma SlashPrefixed3(b: string, c: string, d: string)
    ensures SlashPrefixed([b, c, d]) == "/" + b + "/" + c + "/" + d
  {
    assert [b, c, d][1..] == [c, d];
    assert [c, d][1..] == [d];
    assert SlashPrefixed([d]) == "/" + d;
    assert SlashPrefixed([c, d]) == "/" + c + ("/" + d);
    assert SlashPrefixed([b, c, d]) == "/" + b + ("/" + c + ("/" + d));
    Concat4("/" + b, "/", c, "/" + d);
  }

  /** `a/n/b/f`, with the directory written as one string. */
  lemma DirPath2(a: string, n: string, b: string, f: string)
    ensures a + "/" + n + "/" + b + "/" + f == (a + "/") + n + ("/" + b + "/") + f
  {
    Concat4(a + "/" + n, "/", b, "/");
  }

  /** `a/n/b/c/f`, with the directory written as one string. */
  lemma DirPath3(a: string, n: string, b: string, c: string, f: string)
    ensures a + "/" + n + "/" + b + "/" + c + "/" + f == (a + "/") + n + ("/" + b + "/" + c + "/") + f
  {
    Concat4(a + "/" + n, "/", b, "/");
    Concat4(a + "/" + n + "/" + b, "/", c, "/");
    Concat4(a + "/" + n, "/" + b + "/", c, "/");
  }

  /** `dir + (stem + uuid + "." + e)` read left to right. */
  lemma FileName(dir: string, stem: string, uuid: string, e: string)
    ensures dir + (stem + uuid + "." + e) == dir + stem + uuid + "." + e
  {
    Concat4(dir + stem, uuid, ".", e);
    Concat4(dir, stem, uuid + ".", e);
    Concat4(dir, stem, uuid, ".");
  }

  /** The directory a store draft is uploaded to; commitFromDraft checks a
      draft key against it. */
  function StoreDraftDir(memberId: int): string {
    "drafts/" + IntToString(memberId) + "/store/image/"
  }

  /** The directory a member's share-image drafts are uploaded to. */
  function DraftDir(memberId: int): string {
    "drafts/" + IntToString(memberId) + "/images/"
  }

  /** The directory a share's images live in; confirm checks every key
      against it. */
  function ShareImageDir(shareId: int): string {
    "shares/" + IntToString(shareId) + "/images/"
  }

  /** storeDraftKey: `drafts/<memberId>/store/image/<uuid>.<ext>`. */
  function StoreDraftKey(memberId: int, ext: Option<string>, uuid: string): string {
    StoreDraftDir(memberId) + uuid + "." + CleanExt(ext)
  }

  /** storeImageKey: `stores/<storeId>/image/<uuid>.<ext>`. */
  function StoreImageKey(storeId: int, ext: Option<string>, uuid: string): string {
    "stores/" + IntToString(storeId) + "/image/" + uuid + "." + CleanExt(ext)
  }

  /** draftKey: `drafts/<memberId>/images/<slot>_<uuid>.<ext>`. */
  function DraftKey(memberId: int, slot: int, ext: Option<string>, uuid: string): string {
    DraftDir(memberId) + IntToString(slot) + "_" + uuid + "." + CleanExt(ext)
  }

  /** shareKey: `shares/<shareId>/images/<slot>_<uuid>.<ext>`. */
  function ShareKey(shareId: int, slot: int, ext: Option<string>, uuid: string): string {
    ShareImageDir(shareId) + IntToString(slot) + "_" + uuid + "." + CleanExt(ext)
  }

  /** join of a directory of length three or two and a file name, for clean
      segments. */
  lemma JoinedDir3(a: string, n: string, b: string, c: string, f: string)
    requires CleanPart(a) && CleanPart(n) && CleanPart(b) && CleanPart(c) && CleanPart(f)
    ensures Joined([a, n, b, c, f]) == (a + "/") + n + ("/" + b + "/" + c + "/") + f
  {
    Joined5(a, n, b, c, f);
    DirPath3(a, n, b, c, f);
  }

  lemma JoinedDir2(a: string, n: string, b: string, f: string)
    requires CleanPart(a) && CleanPart(n) && CleanPart(b) && CleanPart(f)
    ensures Joined([a, n, b, f]) == (a + "/") + n + ("/" + b + "/") + f
  {
    Joined4(a, n, b, f);
    DirPath2(a, n, b, f);
  }

  /** The four key shapes, over plain strings: each closed form is the
      join of its segments. */
  lemma StoreDraftShape(m: string, u: string, e: string)
    requires CleanPart(m) && CleanPart(u + "." + e)
    ensures "drafts/" + m + "/store/image/" + u + "." + e == Joined(["drafts", m, "store", "image", u + "." + e])
  {
    JoinedDir3("drafts", m, "store", "image", u + "." + e);
    assert "drafts" + "/" == "drafts/";
    assert "/" + "store" + "/" + "image" + "/" == "/store/image/";
    Concat4("drafts/" + m + "/store/image/", u, ".", e);
  }

  lemma StoreImageShape(n: string, u: string, e: string)
    requires CleanPart(n) && CleanPart(u + "." + e)
    ensures "stores/" + n + "/image/" + u + "." + e == Joined(["stores", n, "image", u + "." + e])
  {
    JoinedDir2("stores", n, "image", u + "." + e);
    assert "stores" + "/" == "stores/";
    assert "/" + "image" + "/" == "/image/";
    Concat4("stores/" + n + "/image/", u, ".", e);
  }

  lemma SlotFileShape(a: string, n: string, b: string, s: string, u: string, e: string)
    requires CleanPart(a) && CleanPart(n) && CleanPart(b) && CleanPart(s + "_" + u + "." + e)
    ensures (a + "/") + n + ("/" + b + "/") + s + "_" + u + "." + e == Joined([a, n, b, s + "_" + u + "." + e])
  {
    var d := (a + "/") + n + ("/" + b + "/");
    JoinedDir2(a, n, b, s + "_" + u + "." + e);
    FileName(d, s + "_", u, e);
    assert d + (s + "_") == d + s + "_";
  }

  /** storeDraftKey is the join of its five segments. */
  lemma StoreDraftKeyJoined(memberId: int, ext: Option<string>, uuid: string)
    requires IsHexUuid(uuid)
    ensures StoreDraftKey(memberId, ext, uuid)
         == Joined(["drafts", IntToString(memberId), "store", "image", uuid + "." + CleanExt(ext)])
  {
    IntPartClean(memberId);
    FileNameClean("", uuid, CleanExt(ext));
    assert "" + uuid == uuid;
    StoreDraftShape(IntToString(memberId), uuid, CleanExt(ext));
  }

  /** storeImageKey is the join of its four segments. */
  lemma StoreImageKeyJoined(storeId: int, ext: Option<string>, uuid: string)
    requires IsHexUuid(uuid)
    ensures StoreImageKey(storeId, ext, uuid)
         == Joined(["stores", IntToString(storeId), "image", uuid + "." + CleanExt(ext)])
  {
    IntPartClean(storeId);
    FileNameClean("", uuid, CleanExt(ext));
    assert "" + uuid == uuid;
    StoreImageShape(IntToString(storeId), uuid, CleanExt(ext));
  }

  /** draftKey is the join of its four segments. */
  lemma DraftKeyJoined(memberId: int, slot: int, ext: Option<string>, uuid: string)
    requires IsHexUuid(uuid)
    ensures DraftKey(memberId, slot, ext, uuid)
         == Joined(["drafts", IntToString(memberId), "images", IntToString(slot) + "_" + uuid + "." + CleanExt(ext)])
  {
    IntPartClean(memberId);
    FileNameClean(IntToString(slot) + "_", uuid, CleanExt(ext));
    assert "drafts" + "/" == "drafts/" && "/" + "images" + "/" == "/images/";
    SlotFileShape("drafts", IntToString(memberId), "images", IntToString(slot), uuid, CleanExt(ext));
  }

  /** shareKey is the join of its four segments. */
  lemma ShareKeyJoined(shareId: int, slot: int, ext: Option<string>, uuid: string)
    requires IsHexUuid(uuid)
    ensures ShareKey(shareId, slot, ext, uuid)
         == Joined(["shares", IntToString(shareId), "images", IntToString(slot) + "_" + uuid + "." + CleanExt(ext)])
  {
    IntPartClean(shareId);
    FileNameClean(IntToString(slot) + "_", uuid, CleanExt(ext));
    assert "shares" + "/" == "shares/" && "/" + "images" + "/" == "/images/";
    SlotFileShape("shares", IntToString(shareId), "images", IntToString(slot), uuid, CleanExt(ext));
  }

  /** A share key lies under `shares/<id>/images/<slot>_` and ends with the
      cleaned extension. */
  lemma ShareKeyShape(shareId: int, slot: int, ext: Option<string>, uuid: string)
    requires IsHexUuid(uuid)
    ensures StartsWith(ShareKey(shareId, slot, ext, uuid), ShareImageDir(shareId) + IntToString(slot) + "_")
    ensures EndsWith(ShareKey(shareId, slot, ext, uuid), "." + CleanExt(ext))
  {
    var p, e := ShareImageDir(shareId) + IntToString(slot) + "_", CleanExt(ext);
    assert p + uuid + "." + e == p + (uuid + "." + e);
    StartsWithConcat(p, uuid + "." + e);
    assert p + uuid + "." + e == (p + uuid) + ("." + e);
    EndsWithConcat(p + uuid, "." + e);
  }

  /** A store draft key lies under the member's draft directory, the prefix
      commitFromDraft demands. */
  lemma StoreDraftKeyInDir(memberId: int, ext: Option<string>, uuid: string)
    requires IsHexUuid(uuid)
    ensures StartsWith(StoreDraftKey(memberId, ext, uuid), StoreDraftDir(memberId))
  {
    var e := CleanExt(ext);
    assert StoreDraftDir(memberId) + uuid + "." + e == StoreDraftDir(memberId) + (uuid + "." + e);
    StartsWithConcat(StoreDraftDir(memberId), uuid + "." + e);
  }

  /** The extension read back from a store draft key is the one it was built
      with. */
  lemma ExtractExtOfStoreDraftKey(memberId: int, ext: Option<string>, uuid: string)
    requires IsHexUuid(uuid)
    ensures ExtractExtFromKey(StoreDraftKey(memberId, ext, uuid)) == CleanExt(ext)
  {
    ExtractExtOfKey(StoreDraftDir(memberId) + uuid, CleanExt(ext));
  }

  /** The extension read back from a store image key is the one it was built
      with. */
  lemma ExtractExtOfStoreImageKey(storeId: int, ext: Option<string>, uuid: string)
    requires IsHexUuid(uuid)
    ensures ExtractExtFromKey(StoreImageKey(storeId, ext, uuid)) == CleanExt(ext)
  {
    ExtractExtOfKey("stores/" + IntToString(storeId) + "/image/" + uuid, CleanExt(ext));
  }

  /** Any key `<path>.<e>` with an allowed `e` and a path that does not start
      with '/' yields `e`. */
  lemma ExtractExtOfKey(path: string, e: string)
    requires e in ALLOWED_EXT
    requires |path| > 0 && path[0] != '/'
    ensures ExtractExtFromKey(path + "." + e) == e
  {
    var k := path + "." + e;
    AllowedExtShape(e);
    assert k[0] == path[0];
    assert k[|k| - 1] == e[|e| - 1];
    TrimmedSlashesNoop(k);
    assert '.' !in e;
    LastIndexOfSplit(path, '.', e);
    assert k == path + ['.'] + e;
    assert k[|path| + 1..] == e;
    ToLowerOfLower(e);
  }

  // ---------------------------------------------------------------------------
  // clampTtl

  /** clampTtl: a missing, zero or negative lifetime becomes 15 minutes, one
      above 7 days becomes 7 days, any other is kept. */
  function ClampTtl(ttl: Option<int>): (r: int)
    ensures 0 < r <= MAX_TTL
    ensures ttl.None? || ttl.value <= 0 ==> r == DEFAULT_TTL
    ensures ttl.Some? && 0 < ttl.value <= MAX_TTL ==> r == ttl.value
    ensures ttl.Some? && ttl.value > MAX_TTL ==> r == MAX_TTL
  {
    if ttl.None? || ttl.value == 0 || ttl.value < 0 then DEFAULT_TTL
    else if ttl.value > MAX_TTL then MAX_TTL
    else ttl.value
  }

  /** Clamping a clamped lifetime changes nothing. */
  lemma ClampTtlIdempotent(ttl: Option<int>)
    ensures ClampTtl(Some(ClampTtl(ttl))) == ClampTtl(ttl)
  {
  }
}
