/** The `java.lang.String` operations the services rely on, over `seq<char>`:
    `trim`, the `isBlank` helpers, `toLowerCase(Locale.ROOT)`, `startsWith`,
    `lastIndexOf`, `split(";", 2)[0]`, `Long.toString`, and the slash trimming
    that S3ImageService and PublicUrlResolver both define. */
module Text {
  import opened Common

  // ---------------------------------------------------------------------------
  // String.trim: removes every leading and trailing char whose code is <= U+0020.

  function TrimStart(s: string): string {
    if |s| > 0 && s[0] <= ' ' then TrimStart(s[1..]) else s
  }

  function TrimEnd(s: string): string {
    if |s| > 0 && s[|s| - 1] <= ' ' then TrimEnd(s[..|s| - 1]) else s
  }

  /** Java's `String.trim()`. */
  function Trim(s: string): string {
    TrimEnd(TrimStart(s))
  }

  /** TrimStart drops the longest prefix of chars <= U+0020. */
  lemma {:induction false} TrimStartShape(s: string) returns (k: nat)
    ensures k <= |s| && TrimStart(s) == s[k..]
    ensures forall i | 0 <= i < k :: s[i] <= ' '
    ensures k < |s| ==> s[k] > ' '
  {
    if |s| > 0 && s[0] <= ' ' {
      var j := TrimStartShape(s[1..]);
      k := j + 1;
      assert s[1..][j..] == s[k..];
      forall i | 0 <= i < k ensures s[i] <= ' ' {
        if i > 0 { assert s[i] == s[1..][i - 1]; }
      }
      if k < |s| { assert s[k] == s[1..][j]; }
    } else {
      k := 0;
    }
  }

  /** TrimEnd drops the longest suffix of chars <= U+0020. */
  lemma {:induction false} TrimEndShape(s: string) returns (k: nat)
    ensures k <= |s| && TrimEnd(s) == s[..k]
    ensures forall i | k <= i < |s| :: s[i] <= ' '
    ensures k > 0 ==> s[k - 1] > ' '
  {
    if |s| > 0 && s[|s| - 1] <= ' ' {
      var t := s[..|s| - 1];
      k := TrimEndShape(t);
      assert t[..k] == s[..k];
      forall i | k <= i < |s| ensures s[i] <= ' ' {
        if i < |t| { assert s[i] == t[i]; }
      }
      if k > 0 { assert s[k - 1] == t[k - 1]; }
    } else {
      k := |s|;
      assert s[..k] == s;
    }
  }

  /** The trimmed string starts and ends above U+0020. */
  lemma TrimEnds(s: string)
    ensures var r := Trim(s); |r| > 0 ==> r[0] > ' ' && r[|r| - 1] > ' '
  {
    var k := TrimStartShape(s);
    var j := TrimEndShape(s[k..]);
    if j > 0 {
      assert Trim(s)[0] == s[k];
    }
  }

  /** A string is trimmed to nothing exactly when all its chars are <= U+0020. */
  lemma TrimEmptyIff(s: string)
    ensures Trim(s) == "" <==> forall i | 0 <= i < |s| :: s[i] <= ' '
  {
    var k := TrimStartShape(s);
    var j := TrimEndShape(s[k..]);
    if j > 0 {
      assert s[k..][0] == s[k];
    }
  }

  /** A string whose first and last chars lie above U+0020 is its own trim. */
  lemma TrimOfTrimmed(s: string)
    requires |s| > 0 ==> s[0] > ' ' && s[|s| - 1] > ' '
    ensures Trim(s) == s
  {
  }

  /** The `isBlank(String)` helper of S3ImageService and PublicUrlResolver:
      `s == null || s.trim().isEmpty()`. */
  predicate IsBlank(s: Option<string>) {
    s.None? || Trim(s.value) == ""
  }

  /** Java's `Character.isWhitespace`, which `String.isBlank()` uses. */
  predicate IsJavaWhitespace(c: char) {
    || ('\t' <= c <= '\r') || ('\U{1C}' <= c <= ' ')
    || c == '\U{1680}' || ('\U{2000}' <= c <= '\U{2006}') || ('\U{2008}' <= c <= '\U{200A}')
    || c == '\U{2028}' || c == '\U{2029}' || c == '\U{205F}' || c == '\U{3000}'
  }

  /** The guard of the deferred S3 deletions: `key != null && !key.isBlank()`. */
  predicate IsDeletableKey(key: Option<string>) {
    key.Some? && exists i | 0 <= i < |key.value| :: !IsJavaWhitespace(key.value[i])
  }

  // ---------------------------------------------------------------------------
  // toLowerCase(Locale.ROOT), for the ASCII letters.

  function LowerChar(c: char): char {
    if 'A' <= c <= 'Z' then (c as int + 32) as char else c
  }

  function ToLower(s: string): (r: string)
    ensures |r| == |s|
    ensures forall i | 0 <= i < |s| :: r[i] == LowerChar(s[i])
  {
    seq(|s|, i requires 0 <= i < |s| => LowerChar(s[i]))
  }

  /** A string without upper-case ASCII letters is its own lower-case form. */
  lemma ToLowerOfLower(s: string)
    requires forall i | 0 <= i < |s| :: !('A' <= s[i] <= 'Z')
    ensures ToLower(s) == s
  {
  }

  /** Lower-casing works char by char, so it distributes over concatenation. */
  lemma ToLowerConcat(a: string, b: string)
    ensures ToLower(a + b) == ToLower(a) + ToLower(b)
  {
    var l, r := ToLower(a + b), ToLower(a) + ToLower(b);
    assert |l| == |r|;
    forall i | 0 <= i < |l| ensures l[i] == r[i] {
      if i < |a| {
        assert (a + b)[i] == a[i];
      } else {
        assert (a + b)[i] == b[i - |a|];
      }
    }
  }

  // ---------------------------------------------------------------------------
  // Prefixes, suffixes and searching.

  predicate StartsWith(s: string, prefix: string) {
    |prefix| <= |s| && s[..|prefix|] == prefix
  }

  predicate EndsWith(s: string, suffix: string) {
    |suffix| <= |s| && s[|s| - |suffix|..] == suffix
  }

  lemma StartsWithConcat(p: string, x: string)
    ensures StartsWith(p + x, p)
  {
    assert (p + x)[..|p|] == p;
  }

  /** A prefix of a prefix is a prefix. */
  lemma StartsWithShorter(s: string, p: string, q: string)
    requires StartsWith(s, p + q)
    ensures StartsWith(s, p)
  {
    assert s[..|p|] == s[..|p + q|][..|p|] == (p + q)[..|p|];
  }

  lemma EndsWithConcat(x: string, p: string)
    ensures EndsWith(x + p, p)
  {
    assert (x + p)[|x|..] == p;
  }

  /** Java's `lastIndexOf(char)`: the largest index holding `c`, or -1. */
  function LastIndexOf(s: string, c: char): (r: int)
    ensures -1 <= r < |s|
    ensures r >= 0 ==> s[r] == c
    ensures forall j | r < j < |s| :: s[j] != c
  {
    if |s| == 0 then -1
    else if s[|s| - 1] == c then |s| - 1
    else LastIndexOf(s[..|s| - 1], c)
  }

  /** The last occurrence of `c` in `a + [c] + b` is the one between `a` and
      `b` when `b` does not contain `c`. */
  lemma {:induction false} LastIndexOfSplit(a: string, c: char, b: string)
    requires c !in b
    ensures LastIndexOf(a + [c] + b, c) == |a|
  {
    var s := a + [c] + b;
    if |b| > 0 {
      assert s[|s| - 1] == b[|b| - 1];
      assert s[..|s| - 1] == a + [c] + b[..|b| - 1];
      LastIndexOfSplit(a, c, b[..|b| - 1]);
    }
  }

  /** `s.split(";", 2)[0]`: everything before the first ';', or all of `s`. */
  function BeforeSemicolon(s: string): (r: string)
    ensures |r| <= |s| && r == s[..|r|]
    ensures ';' !in r
    ensures |r| < |s| ==> s[|r|] == ';'
  {
    if |s| == 0 || s[0] == ';' then "" else [s[0]] + BeforeSemicolon(s[1..])
  }

  /** Everything before the first ';' of `a + ";" + b` is `a`, when `a` has
      no ';' of its own. */
  lemma {:induction false} BeforeSemicolonSplit(a: string, b: string)
    requires ';' !in a
    ensures BeforeSemicolon(a + ";" + b) == a
    decreases |a|
  {
    if |a| > 0 {
      assert (a + ";" + b)[0] == a[0];
      assert (a + ";" + b)[1..] == a[1..] + ";" + b;
      BeforeSemicolonSplit(a[1..], b);
      assert a == [a[0]] + a[1..];
    } else {
      assert (a + ";" + b)[0] == ';';
    }
  }

  /** Lower-casing neither makes nor removes a ';'. */
  lemma ToLowerSemicolons(s: string)
    ensures ';' in ToLower(s) <==> ';' in s
  {
    var l := ToLower(s);
    if ';' in s {
      var i :| 0 <= i < |s| && s[i] == ';';
      assert l[i] == ';';
    }
    if ';' in l {
      var i :| 0 <= i < |l| && l[i] == ';';
      assert s[i] == ';';
    }
  }

  /** Lower-casing twice is lower-casing once. */
  lemma ToLowerIdempotent(s: string)
    ensures ToLower(ToLower(s)) == ToLower(s)
  {
    ToLowerOfLower(ToLower(s));
  }

  // ---------------------------------------------------------------------------
  // Long.toString / Integer.toString.

  function DigitChar(d: int): char
    requires 0 <= d < 10
  {
    "0123456789"[d]
  }

  predicate IsDigit(c: char) {
    '0' <= c <= '9'
  }

  function Digits(n: nat): (r: string)
    ensures |r| > 0
    ensures forall i | 0 <= i < |r| :: IsDigit(r[i])
  {
    if n < 10 then [DigitChar(n)] else Digits(n / 10) + [DigitChar(n % 10)]
  }

  /** The decimal form Java prints for an integral value: a '-' for negative
      values, then the digits. */
  function IntToString(n: int): (r: string)
    ensures |r| > 0 && IsDigit(r[|r| - 1])
    ensures IsDigit(r[0]) || r[0] == '-'
    ensures forall i | 0 <= i < |r| :: IsDigit(r[i]) || r[i] == '-'
  {
    if n < 0 then "-" + Digits(-n) else Digits(n)
  }

  // ---------------------------------------------------------------------------
  // trimSlashes (S3ImageService and PublicUrlResolver hold the same code).

  /** What trimSlashes computes: `s` without its leading and trailing '/'. */
  function TrimmedSlashes(s: string): (r: string)
  {
    if |s| > 0 && s[0] == '/' then TrimmedSlashes(s[1..])
    else if |s| > 0 && s[|s| - 1] == '/' then TrimmedSlashes(s[..|s| - 1])
    else s
  }

  /** The result is a contiguous piece of `s`, starting at the returned offset
      `i`, with no '/' at either end, and everything cut off was a '/'. */
  lemma {:induction false} TrimmedSlashesShape(s: string) returns (i: nat)
    ensures var r := TrimmedSlashes(s);
      && i + |r| <= |s| && r == s[i..i + |r|]
      && (forall j | 0 <= j < i :: s[j] == '/')
      && (forall j | i + |r| <= j < |s| :: s[j] == '/')
      && (|r| > 0 ==> r[0] != '/' && r[|r| - 1] != '/')
  {
    var r := TrimmedSlashes(s);
    if |s| > 0 && s[0] == '/' {
      var t := s[1..];
      var k := TrimmedSlashesShape(t);
      i := k + 1;
      assert r == s[i..i + |r|];
      forall j | 0 <= j < i ensures s[j] == '/' {
        if j > 0 { assert s[j] == t[j - 1]; }
      }
      forall j | i + |r| <= j < |s| ensures s[j] == '/' {
        assert s[j] == t[j - 1];
      }
    } else if |s| > 0 && s[|s| - 1] == '/' {
      var t := s[..|s| - 1];
      i := TrimmedSlashesShape(t);
      assert r == s[i..i + |r|];
      assert forall j | 0 <= j < |t| :: t[j] == s[j];
      forall j | i + |r| <= j < |s| ensures s[j] == '/' {
        if j < |t| { assert s[j] == t[j]; }
      }
    } else {
      i := 0;
      assert r == s[0..0 + |r|];
    }
  }

  /** A string with no '/' at either end is left as it is. */
  lemma TrimmedSlashesNoop(s: string)
    requires |s| > 0 ==> s[0] != '/' && s[|s| - 1] != '/'
    ensures TrimmedSlashes(s) == s
  {
  }

  /** trimSlashes is idempotent. */
  lemma TrimmedSlashesIdempotent(s: string)
    ensures TrimmedSlashes(TrimmedSlashes(s)) == TrimmedSlashes(s)
  {
    var _ := TrimmedSlashesShape(s);
    TrimmedSlashesNoop(TrimmedSlashes(s));
  }

  /** The imperative trimSlashes: two while loops moving `start` and `end`
      inwards over the '/' at either end, then `s.substring(start, end)`. */
  method TrimSlashes(s: string) returns (r: string)
    ensures r == TrimmedSlashes(s)
  {
    var start, end := 0, |s|;
    assert s[start..end] == s;
    while start < end && s[start] == '/'
      invariant 0 <= start <= end == |s|
      invariant TrimmedSlashes(s[start..end]) == TrimmedSlashes(s)
    {
      assert s[start + 1..end] == s[start..end][1..];
      start := start + 1;
    }
    while end > start && s[end - 1] == '/'
      invariant 0 <= start <= end <= |s|
      invariant TrimmedSlashes(s[start..end]) == TrimmedSlashes(s)
      invariant start < end ==> s[start] != '/'
    {
      assert s[start..end - 1] == s[start..end][..end - start - 1];
      end := end - 1;
    }
    r := s[start..end];
  }
}
