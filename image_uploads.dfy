/** The upload limits ShareImageService and StoreImageService both hold: at
    most five images of a share, at most 10 MiB an image, four image MIME
    types; and the reading of a stored object's MIME type their checks
    share. */
module ImageUploads {
  import opened Common
  import opened Text

  const MAX_IMAGE_BYTES: int := 10 * 1024 * 1024
  const MAX_IMAGES: int := 5
  const ALLOWED_IMAGE_MIME: set<string> := {"image/jpeg", "image/png", "image/webp", "image/gif"}

  /** What a HEAD request on a stored object returns that the checks read:
      its size in bytes and its MIME type, if it has one. */
  datatype ObjectMetadata = ObjectMetadata(contentLength: int, contentType: Option<string>)

  /** The MIME type the checks compare: a missing type reads as "", then
      lower-cased, cut at the first ';' and trimmed. */
  function MediaType(contentType: Option<string>): string {
    Trim(BeforeSemicolon(ToLower(if contentType.None? then "" else contentType.value)))
  }

  /** Parameters after a ';' do not matter. */
  lemma MediaTypeIgnoresParameters(t: string, params: string)
    requires ';' !in t
    ensures MediaType(Some(t + ";" + params)) == MediaType(Some(t))
  {
    ToLowerConcat(t + ";", params);
    ToLowerConcat(t, ";");
    assert ToLower(";") == ";";
    ToLowerSemicolons(t);
    BeforeSemicolonSplit(ToLower(t), ToLower(params));
    ToLowerSemicolons(t);
    assert BeforeSemicolon(ToLower(t)) == ToLower(t) by {
      var r := BeforeSemicolon(ToLower(t));
      assert |r| == |ToLower(t)|;
    }
  }

  /** Letter case does not matter. */
  lemma MediaTypeIgnoresCase(t: string)
    ensures MediaType(Some(ToLower(t))) == MediaType(Some(t))
  {
    ToLowerIdempotent(t);
  }

  /** A type in lower case, without parameters and without surrounding
      blanks is read as itself. */
  lemma MediaTypeOfClean(m: string)
    requires forall i | 0 <= i < |m| :: !('A' <= m[i] <= 'Z')
    requires ';' !in m
    requires |m| > 0 ==> m[0] > ' ' && m[|m| - 1] > ' '
    ensures MediaType(Some(m)) == m
  {
    ToLowerOfLower(m);
    var r := BeforeSemicolon(m);
    assert |r| == |m|;
    TrimOfTrimmed(m);
  }

  /** No allowed type has parameters. */
  lemma AllowedMimeUnparameterised(m: string)
    requires m in ALLOWED_IMAGE_MIME
    ensures ';' !in m
  {
    if m == "image/jpeg" {
    } else if m == "image/png" {
    } else if m == "image/webp" {
    } else {
      assert m == "image/gif";
    }
  }

  /** Each allowed type is read as itself, and a missing type is never
      allowed. */
  lemma MediaTypeOfAllowed(m: string)
    requires m in ALLOWED_IMAGE_MIME
    ensures MediaType(Some(m)) == m
    ensures MediaType(None) !in ALLOWED_IMAGE_MIME
  {
    assert forall i | 0 <= i < |m| :: 'a' <= m[i] <= 'z' || m[i] == '/';
    MediaTypeOfClean(m);
    assert ToLower("") == "";
    assert BeforeSemicolon("") == "";
  }
}
