/** PublicUrlResolver: turning a stored object key into a public URL, either
    under a configured CDN base URL or through the storage client's own URL
    function, which the model takes as a parameter. */
module PublicUrlResolver {
  import opened Common
  import opened Text

  /** The resolver's configuration: the CDN base URL (absent or blank when
      there is none), the bucket, and the storage client's URL function. */
  datatype UrlConfig = UrlConfig(cdnBaseUrl: Option<string>, bucket: string, s3GetUrl: (string, string) -> string)

  /** isAbsoluteUrl: the key already is an http or https URL, in any case. */
  predicate IsAbsoluteUrl(s: string) {
    StartsWith(ToLower(s), "http://") || StartsWith(ToLower(s), "https://")
  }

  /** removeTrailingSlash: drops one trailing '/', if there is one. */
  function RemoveTrailingSlash(s: string): (r: string)
    ensures EndsWith(s, "/") ==> r + "/" == s
    ensures !EndsWith(s, "/") ==> r == s
  {
    if EndsWith(s, "/") then s[..|s| - 1] else s
  }

  /** Only one '/' goes: a base ending in "//" keeps one of them. */
  lemma RemoveTrailingSlashOnce(s: string)
    ensures |RemoveTrailingSlash(s)| >= |s| - 1
    ensures RemoveTrailingSlash(s + "//") == s + "/"
  {
    assert EndsWith(s + "//", "/") by {
      assert (s + "//")[|s| + 1..] == "/";
    }
    assert (s + "//")[..|s| + 1] == s + "/";
  }

  /** The CDN test of toUrl: the configured base, trimmed (or "" when there
      is none), is not blank. */
  predicate HasCdn(cdnBaseUrl: Option<string>) {
    var cdn := if cdnBaseUrl.None? then "" else Trim(cdnBaseUrl.value);
    !IsBlank(Some(cdn))
  }

  /** Trimming before the blank test changes nothing: a CDN is used exactly
      when the configured base is not blank. */
  lemma HasCdnIff(cdnBaseUrl: Option<string>)
    ensures HasCdn(cdnBaseUrl) <==> !IsBlank(cdnBaseUrl)
  {
    if cdnBaseUrl.Some? {
      var t := Trim(cdnBaseUrl.value);
      TrimEnds(cdnBaseUrl.value);
      TrimOfTrimmed(t);
    }
  }

  /** toUrl. A blank key has no URL; an absolute URL is kept as it is; any
      other key is slash-trimmed and put under the CDN base (without its
      trailing '/') or, with no CDN base, handed to the storage client's
      URL function for the bucket. */
  function ToUrl(cdnBaseUrl: Option<string>, bucket: string, s3GetUrl: (string, string) -> string,
                 objectKey: Option<string>): (r: Option<string>)
    ensures r.None? <==> IsBlank(objectKey)
    ensures !IsBlank(objectKey) && IsAbsoluteUrl(objectKey.value) ==> r == objectKey
    ensures !IsBlank(objectKey) && !IsAbsoluteUrl(objectKey.value) && !IsBlank(cdnBaseUrl) ==>
      r == Some(RemoveTrailingSlash(cdnBaseUrl.value) + "/" + TrimmedSlashes(objectKey.value))
    ensures !IsBlank(objectKey) && !IsAbsoluteUrl(objectKey.value) && IsBlank(cdnBaseUrl) ==>
      r == Some(s3GetUrl(bucket, TrimmedSlashes(objectKey.value)))
  {
    HasCdnIff(cdnBaseUrl);
    if IsBlank(objectKey) then None
    else if IsAbsoluteUrl(objectKey.value) then objectKey
    else
      var key := TrimmedSlashes(objectKey.value);
      if HasCdn(cdnBaseUrl) then Some(RemoveTrailingSlash(cdnBaseUrl.value) + "/" + key)
      else Some(s3GetUrl(bucket, key))
  }

  /** Appending to an absolute URL keeps it absolute. */
  lemma AbsoluteUrlExtended(base: string, rest: string)
    requires IsAbsoluteUrl(base)
    ensures IsAbsoluteUrl(base + rest)
  {
    ToLowerConcat(base, rest);
    var l := ToLower(base);
    if StartsWith(l, "http://") {
      assert (l + ToLower(rest))[..7] == l[..7];
    } else {
      assert (l + ToLower(rest))[..8] == l[..8];
    }
  }

  /** An absolute URL is not blank: it starts with 'h' or 'H'. */
  lemma AbsoluteUrlNotBlank(s: string)
    requires IsAbsoluteUrl(s)
    ensures !IsBlank(Some(s))
  {
    assert ToLower(s)[0] == 'h';
    assert s[0] > ' ';
    TrimEmptyIff(s);
  }

  /** A CDN base that gives an absolute URL once joined with '/' is not
      blank. */
  lemma AbsoluteCdnNotBlank(cdn: string)
    requires IsAbsoluteUrl(RemoveTrailingSlash(cdn) + "/")
    ensures !IsBlank(Some(cdn))
  {
    var base := RemoveTrailingSlash(cdn);
    var b1 := base + "/";
    assert ToLower(b1)[0] == 'h';
    assert |base| > 0;
    assert b1[0] == base[0] == cdn[0];
    TrimEmptyIff(cdn);
  }

  /** Resolving a resolved URL again changes nothing when the CDN base,
      without its trailing '/' and followed by the separator, is an absolute
      URL. */
  lemma ToUrlIdempotentWithCdn(cdnBaseUrl: Option<string>, bucket: string,
                               s3GetUrl: (string, string) -> string, objectKey: Option<string>)
    requires cdnBaseUrl.Some? && IsAbsoluteUrl(RemoveTrailingSlash(cdnBaseUrl.value) + "/")
    ensures var u := ToUrl(cdnBaseUrl, bucket, s3GetUrl, objectKey);
      ToUrl(cdnBaseUrl, bucket, s3GetUrl, u) == u
  {
    var base := RemoveTrailingSlash(cdnBaseUrl.value);
    AbsoluteCdnNotBlank(cdnBaseUrl.value);
    var u := ToUrl(cdnBaseUrl, bucket, s3GetUrl, objectKey);
    if u.Some? && u != objectKey {
      var key := TrimmedSlashes(objectKey.value);
      assert u.value == base + "/" + key;
      AbsoluteUrlExtended(base + "/", key);
      AbsoluteUrlNotBlank(u.value);
    } else if u.Some? {
      AbsoluteUrlNotBlank(u.value);
    }
  }

  /** Without a CDN base, resolving twice is stable when the storage client
      returns an absolute URL for the key. */
  lemma ToUrlIdempotentWithoutCdn(cdnBaseUrl: Option<string>, bucket: string,
                                  s3GetUrl: (string, string) -> string, objectKey: Option<string>)
    requires IsBlank(cdnBaseUrl)
    requires objectKey.Some? ==> IsAbsoluteUrl(s3GetUrl(bucket, TrimmedSlashes(objectKey.value)))
    ensures var u := ToUrl(cdnBaseUrl, bucket, s3GetUrl, objectKey);
      ToUrl(cdnBaseUrl, bucket, s3GetUrl, u) == u
  {
    var u := ToUrl(cdnBaseUrl, bucket, s3GetUrl, objectKey);
    if u.Some? {
      if u == objectKey {
        AbsoluteUrlNotBlank(u.value);
      } else {
        AbsoluteUrlNotBlank(u.value);
      }
    }
  }

  /** The idempotence needs the scheme in the CDN base: with a base of "cdn"
      (a host name without the scheme) the key "a" resolves to "cdn/a", which
      is not absolute and resolves again to "cdn/cdn/a". */
  lemma ToUrlNotIdempotentWithoutScheme(bucket: string, s3GetUrl: (string, string) -> string)
    ensures ToUrl(Some("cdn"), bucket, s3GetUrl, Some("a")) == Some("cdn/a")
    ensures ToUrl(Some("cdn"), bucket, s3GetUrl, Some("cdn/a"))
         == Some("cdn/cdn/a")
  {
    var cdn, k1, k2 := "cdn", "a", "cdn/a";
    assert cdn[0] > ' ' && k1[0] > ' ' && k2[0] > ' ';
    TrimEmptyIff(cdn);
    TrimEmptyIff(k1);
    TrimEmptyIff(k2);
    assert ToLower(k1)[0] == 'a' && ToLower(k2)[0] == 'c';
    assert !IsAbsoluteUrl(k1) && !IsAbsoluteUrl(k2);
    TrimmedSlashesNoop(k1);
    TrimmedSlashesNoop(k2);
    assert !EndsWith(cdn, "/") by {
      assert cdn[|cdn| - 1] == 'n';
    }
    assert cdn + "/" + k1 == k2;
    assert cdn + "/" + k2 == "cdn/cdn/a";
  }
}
