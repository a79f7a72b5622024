/** The browser server's URL validator, written to decide whether the browser
    may open a URL. A chain of guarded early returns: the first check that fails
    decides the reason; a URL that passes every check is returned, stripped, as
    allowed. */
module UrlSafety {

  import opened Strings

  /** `(True, url)`, `(False, reason)`, or the ValueError that URL parsing
      raises for a host with unbalanced IPv6 brackets. */
  datatype Verdict = Allowed(url: string) | Blocked(reason: Reason) | Raised(error: string)

  /** Which check refused the URL, with what the message quotes. */
  datatype Reason =
    | NotHttps
    | Shortener(domain: string)
    | BlockedTld(tld: string)
    | TooLongUrl
    | DangerousDownload(ext: string)
    | SuspiciousUnicode

  /** Top-level domains commonly used by malicious sites. */
  const BLOCKED_TLDS: set<string> :=
    {"zip", "mov", "xyz", "top", "club", "info", "cyou", "tech", "click", "work", "rest", "kim"}

  /** URL-shortener hosts, which hide the real destination. */
  const SHORTENERS: set<string> :=
    {"bit.ly", "tinyurl.com", "goo.gl", "t.co", "is.gd", "cutt.ly", "shorturl.at"}

  /** File extensions whose download is refused. */
  const DANGEROUS_EXT: set<string> :=
    {".exe", ".msi", ".apk", ".bat", ".cmd", ".ps1", ".js", ".jar", ".zip", ".rar", ".7z", ".dmg", ".pkg"}

  const MAX_URL_LENGTH: nat := 2048
  const HTTPS_PREFIX: string := "https://"

  const ERROR_IPV6: string := "Invalid IPv6 URL"

  /** The text returned beside `False` for each reason. */
  function Message(r: Reason): (m: string)
    // The message quotes the host, the TLD (after a dot) or the extension it refuses.
    ensures r.Shortener? ==> EndsWith(m, r.domain)
    ensures r.BlockedTld? ==> |m| == 30 + |r.tld| && m[12] == '.' && m[13..|m| - 17] == r.tld
    ensures r.DangerousDownload? ==> EndsWith(m, r.ext)
  {
    match r
    case NotHttps => "Only HTTPS URLs are allowed."
    case Shortener(domain) => "Blocked shortened URL: " + domain
    case BlockedTld(tld) =>
      var m := "Domain TLD '." + tld + "' is not allowed.";
      assert m[13..|m| - 17] == tld;
      m
    case TooLongUrl => "URL too long (possible phishing or tracking link)."
    case DangerousDownload(ext) => "Blocked file download attempt: " + ext
    case SuspiciousUnicode => "URL contains suspicious Unicode characters."
  }

  // ---------------------------------------------------------------------------
  // Text helpers: the parts of Python's str API the validator relies on.
  // ---------------------------------------------------------------------------

  /** The characters for which Python's `str.isspace` holds: the ones
      `str.strip()` removes. */
  const WHITESPACE: set<char> := {
    ' ', '\t', '\n', '\U{0B}', '\U{0C}', '\r', '\U{1C}', '\U{1D}', '\U{1E}', '\U{1F}',
    '\U{85}', '\U{A0}', '\U{1680}',
    '\U{2000}', '\U{2001}', '\U{2002}', '\U{2003}', '\U{2004}', '\U{2005}',
    '\U{2006}', '\U{2007}', '\U{2008}', '\U{2009}', '\U{200A}',
    '\U{2028}', '\U{2029}', '\U{202F}', '\U{205F}', '\U{3000}'
  }

  /** Python's `str.isspace`: the characters `str.strip()` removes. */
  predicate IsSpace(c: char) {
    c in WHITESPACE
  }

  predicate IsAscii(c: char) {
    c as int <= 0x7F
  }

  /** The first index at or after `i` whose character is not whitespace,
      or `|s|` if there is none. */
  function SkipSpace(s: string, i: nat): (j: nat)
    requires i <= |s|
    ensures i <= j <= |s|
    ensures forall k :: i <= k < j ==> IsSpace(s[k])
    ensures j == |s| || !IsSpace(s[j])
    decreases |s| - i
  {
    if i < |s| && IsSpace(s[i]) then SkipSpace(s, i + 1) else i
  }

  /** Walking back from `j` but not below `lo`, the first index with no
      whitespace right before it. */
  function SkipSpaceBack(s: string, lo: nat, j: nat): (e: nat)
    requires lo <= j <= |s|
    ensures lo <= e <= j
    ensures forall k :: e <= k < j ==> IsSpace(s[k])
    ensures e == lo || !IsSpace(s[e - 1])
  {
    if lo < j && IsSpace(s[j - 1]) then SkipSpaceBack(s, lo, j - 1) else j
  }

  /** `r` is the slice of `s` starting at `i`, and all of `s` around it is whitespace. */
  predicate SpaceAround(s: string, i: nat, r: string) {
    && i + |r| <= |s| && r == s[i..i + |r|]
    && (forall k :: 0 <= k < i ==> IsSpace(s[k]))
    && (forall k :: i + |r| <= k < |s| ==> IsSpace(s[k]))
  }

  /** `str.strip()`: the longest slice of `s` that neither begins nor ends with
      whitespace, everything cut away being whitespace. */
  function Strip(s: string): (r: string)
    ensures r == [] || (!IsSpace(r[0]) && !IsSpace(r[|r| - 1]))
    ensures exists i :: SpaceAround(s, i, r)
  {
    var a := SkipSpace(s, 0);
    var b := SkipSpaceBack(s, a, |s|);
    assert SpaceAround(s, a, s[a..b]);
    s[a..b]
  }

  /** `str.lower()` as far as it can matter here: A-Z and the Kelvin sign are the
      only characters whose lower case is ASCII; every constant compared against
      is ASCII, so every other character can stand for itself. */
  function LowerChar(c: char): (d: char)
    ensures IsAscii(d) <==> IsAscii(c) || c == '\U{212A}'
  {
    if 'A' <= c <= 'Z' then (c as int + 32) as char
    else if c == '\U{212A}' then 'k'
    else c
  }

  function Lower(s: string): (r: string)
    ensures |r| == |s|
    ensures forall i :: 0 <= i < |s| ==> r[i] == LowerChar(s[i])
  {
    seq(|s|, i requires 0 <= i < |s| => LowerChar(s[i]))
  }

  /** Index of the first character of `s` in `stops`, or `|s|` if there is none. */
  function IndexOfAny(s: string, stops: set<char>): (k: nat)
    ensures k <= |s|
    ensures forall i :: 0 <= i < k ==> s[i] !in stops
    ensures k < |s| ==> s[k] in stops
  {
    if s == [] || s[0] in stops then 0 else 1 + IndexOfAny(s[1..], stops)
  }

  /** `s.split(c)[-1]`: the text after the last `c`, or all of `s` without one. */
  function AfterLast(s: string, c: char): (r: string)
    ensures c !in r
    ensures EndsWith(s, r)
    ensures |r| < |s| ==> s[|s| - |r| - 1] == c
  {
    if s == [] then []
    else if s[|s| - 1] == c then []
    else
      var p := s[..|s| - 1];
      var q := AfterLast(p, c);
      var r := q + [s[|s| - 1]];
      assert s[|s| - |r|..] == p[|p| - |q|..] + [s[|s| - 1]];
      r
  }

  /** The text after the last `c` is the only suffix that holds no `c` and is
      preceded by `c` or by nothing. */
  lemma {:induction false} AfterLastUnique(s: string, c: char, j: nat)
    requires j <= |s| && c !in s[j..]
    requires j == 0 || s[j - 1] == c
    ensures AfterLast(s, c) == s[j..]
    decreases |s|
  {
    if s != [] && s[|s| - 1] != c {
      var p := s[..|s| - 1];
      assert j < |s| by {
        if j == |s| { assert s[j - 1] == c; }
      }
      assert p[j..] + [s[|s| - 1]] == s[j..];
      assert c !in p[j..] by {
        forall k | 0 <= k < |p[j..]| ensures p[j..][k] != c {
          assert p[j..][k] == s[j..][k];
        }
      }
      AfterLastUnique(p, c, j);
    } else if s != [] {
      assert j == |s|;
    }
  }

  // ---------------------------------------------------------------------------
  // URL parsing, for URLs that start with "https://" (generic URL syntax,
  // section 3 of RFC 3986, as Python's urlsplit/urlparse implement it).
  // ---------------------------------------------------------------------------

  predicate IsUnsafe(c: char) {
    c == '\t' || c == '\r' || c == '\n'
  }

  /** Text with no tab, CR or LF in it. */
  predicate IsClean(s: string) {
    forall i :: 0 <= i < |s| ==> !IsUnsafe(s[i])
  }

  /** What removing tab, CR and LF keeps of one character. */
  function Kept(c: char): string {
    if IsUnsafe(c) then [] else [c]
  }

  /** urlsplit first deletes every tab, CR and LF from the URL. */
  function RemoveUnsafe(s: string): (r: string)
    ensures |r| <= |s| && IsClean(r)
    // A URL without tab, CR or LF is left as it is.
    ensures IsClean(s) ==> r == s
  {
    if s == [] then [] else Kept(s[0]) + RemoveUnsafe(s[1..])
  }

  /** Only characters of the input are kept. */
  lemma {:induction false} RemoveUnsafeKeepsInput(s: string)
    ensures forall c :: c in RemoveUnsafe(s) ==> c in s
  {
    if s != [] {
      RemoveUnsafeKeepsInput(s[1..]);
      assert s == [s[0]] + s[1..];
      forall c | c in RemoveUnsafe(s) ensures c in s {
        assert c in Kept(s[0]) || c in RemoveUnsafe(s[1..]);
      }
    }
  }

  /** Removing tab, CR and LF from a text that starts with `a` begins with
      what it keeps of `a`'s first character. */
  lemma RemoveUnsafeFirst(a: string, b: string)
    requires a != []
    ensures RemoveUnsafe(a + b) == Kept(a[0]) + RemoveUnsafe(a[1..] + b)
  {
    assert (a + b)[0] == a[0] && (a + b)[1..] == a[1..] + b;
  }

  /** Removing tab, CR and LF distributes over concatenation. */
  lemma {:induction false} RemoveUnsafeAppend(a: string, b: string)
    ensures RemoveUnsafe(a + b) == RemoveUnsafe(a) + RemoveUnsafe(b)
  {
    if a != [] {
      RemoveUnsafeFirst(a, b);
      RemoveUnsafeAppend(a[1..], b);
      var x, y := RemoveUnsafe(a[1..]), RemoveUnsafe(b);
      assert Kept(a[0]) + (x + y) == (Kept(a[0]) + x) + y;
    } else {
      assert a + b == b;
    }
  }

  /** The text after "https://" that urlsplit goes on to split: the prefix
      itself holds no tab, CR or LF, so removing them first changes only this. */
  function AfterScheme(url: string): string
    requires StartsWith(url, HTTPS_PREFIX)
  {
    RemoveUnsafe(url[|HTTPS_PREFIX|..])
  }

  /** `netloc`: after "//" up to the first '/', '?' or '#'. */
  function Netloc(url: string): (n: string)
    requires StartsWith(url, HTTPS_PREFIX)
    ensures '/' !in n && '?' !in n && '#' !in n
    ensures StartsWith(AfterScheme(url), n)
    // It runs up to the first delimiter, or to the end.
    ensures |n| == |AfterScheme(url)| || AfterScheme(url)[|n|] in {'/', '?', '#'}
  {
    var rest := AfterScheme(url);
    rest[..IndexOfAny(rest, {'/', '?', '#'})]
  }

  /** urlparse's `_splitparams`: cut the path at the first ';' of its last segment. */
  function SplitParams(path: string): (r: string)
    ensures StartsWith(path, r)
    // Either nothing is cut, or the cut is at a ';' of the last segment ...
    ensures |r| == |path| || (path[|r|] == ';' && '/' !in path[|r|..])
    // ... and the first one: the last segment that is kept holds no ';'.
    ensures ';' !in AfterLast(r, '/')
  {
    var lastSegment := AfterLast(path, '/');
    var start := |path| - |lastSegment|;
    var k := IndexOfAny(lastSegment, {';'});
    assert lastSegment == path[start..];
    CutParams(path, start, k);
    if ';' !in path then
      assert k == |lastSegment|;
      path
    else if '/' in path then
      path[..start + k]
    else
      assert start == 0;
      assert IndexOfAny(path, {';'}) == k;
      path[..IndexOfAny(path, {';'})]
  }

  /** Cutting the path where its last segment, starting at `start`, has its
      first ';' (or not at all when it has none). */
  lemma CutParams(path: string, start: nat, k: nat)
    requires start + k <= |path|
    requires start == 0 || path[start - 1] == '/'
    requires '/' !in path[start..]
    requires forall i :: start <= i < start + k ==> path[i] != ';'
    requires start + k == |path| || path[start + k] == ';'
    ensures var r := path[..start + k];
      && (|r| == |path| || (path[|r|] == ';' && '/' !in path[|r|..]))
      && ';' !in AfterLast(r, '/')
  {
    var r := path[..start + k];
    assert '/' !in r[start..] by {
      forall i | 0 <= i < |r[start..]| ensures r[start..][i] != '/' {
        assert r[start..][i] == path[start..][i];
      }
    }
    AfterLastUnique(r, '/', start);
    assert forall i :: 0 <= i < k ==> r[start..][i] == path[start + i];
    if start + k < |path| {
      var rest := path[start + k..];
      assert rest == path[start..][k..];
    }
  }

  /** The text after the host up to the first '?' or '#', or to the end:
      the path with its `;params`. */
  function PathWithParams(url: string): (t: string)
    requires StartsWith(url, HTTPS_PREFIX)
    ensures var afterHost := AfterScheme(url)[|Netloc(url)|..];
      && StartsWith(afterHost, t) && '?' !in t && '#' !in t
      && (|t| == |afterHost| || afterHost[|t|] in {'?', '#'})
  {
    var afterHost := AfterScheme(url)[|Netloc(url)|..];
    afterHost[..IndexOfAny(afterHost, {'?', '#'})]
  }

  /** `path`: after the host, up to the query or fragment, without `;params`. */
  function UrlPath(url: string): (p: string)
    requires StartsWith(url, HTTPS_PREFIX)
    ensures '?' !in p && '#' !in p
    // The path runs from the host to the query or fragment, and is cut at the
    // first ';' of its last segment.
    ensures var t := PathWithParams(url);
      && StartsWith(t, p)
      && (|p| == |t| || (t[|p|] == ';' && '/' !in t[|p|..]))
      && ';' !in AfterLast(p, '/')
  {
    SplitParams(PathWithParams(url))
  }

  /** The lower-cased host that is compared against the blocklists. */
  function Domain(url: string): string
    requires StartsWith(url, HTTPS_PREFIX)
  {
    Lower(Netloc(url))
  }

  function Tld(url: string): (t: string)
    requires StartsWith(url, HTTPS_PREFIX)
    ensures '.' !in t && EndsWith(Domain(url), t)
    // It follows the host's last dot, or is the whole host when there is none.
    ensures |t| < |Domain(url)| ==> Domain(url)[|Domain(url)| - |t| - 1] == '.'
  {
    AfterLast(Domain(url), '.')
  }

  // ---------------------------------------------------------------------------
  // The checks, each stated on its own.
  // ---------------------------------------------------------------------------

  predicate BracketsUnbalanced(url: string)
    requires StartsWith(url, HTTPS_PREFIX)
  {
    ('[' in Netloc(url)) != (']' in Netloc(url))
  }

  predicate IsShortener(url: string)
    requires StartsWith(url, HTTPS_PREFIX)
  {
    Domain(url) in SHORTENERS
  }

  predicate HasBlockedTld(url: string)
    requires StartsWith(url, HTTPS_PREFIX)
  {
    Tld(url) in BLOCKED_TLDS
  }

  predicate TooLong(url: string) {
    |url| > MAX_URL_LENGTH
  }

  predicate IsDangerousDownload(url: string)
    requires StartsWith(url, HTTPS_PREFIX)
  {
    exists ext :: ext in DANGEROUS_EXT && EndsWith(Lower(UrlPath(url)), ext)
  }

  predicate HasNonAscii(url: string) {
    exists i :: 0 <= i < |url| && !IsAscii(url[i])
  }

  /** Every dangerous extension is a dot followed by a dot-free name. */
  lemma ExtensionShape()
    ensures forall ext :: ext in DANGEROUS_EXT ==> |ext| >= 2 && ext[0] == '.' && '.' !in ext[1..]
  {
  }

  /** The only extension a lower-cased path can end with is its text after the
      last dot, so at most one extension matches: the reason a blocked download
      names does not depend on the order the set is walked in. */
  function MatchedExtension(lpath: string): (ext: string)
    ensures (exists e :: e in DANGEROUS_EXT && EndsWith(lpath, e)) ==> ext in DANGEROUS_EXT && EndsWith(lpath, ext)
    ensures forall e :: e in DANGEROUS_EXT && EndsWith(lpath, e) ==> e == ext
  {
    var ext := "." + AfterLast(lpath, '.');
    ExtensionShape();
    forall e | e in DANGEROUS_EXT && EndsWith(lpath, e) ensures e == ext {
      MatchedIsAfterLastDot(lpath, e);
    }
    ext
  }

  lemma MatchedIsAfterLastDot(s: string, e: string)
    requires |e| >= 2 && e[0] == '.' && '.' !in e[1..]
    requires EndsWith(s, e)
    ensures e == "." + AfterLast(s, '.')
  {
    var w := AfterLast(s, '.');
    var n := |s|;
    // The dot of `e` stands at n - |e|, and nothing after it is a dot.
    assert s[n - |e|] == '.';
    assert forall i :: n - |e| < i < n ==> s[i] == e[i - (n - |e|)] && s[i] != '.';
    assert e[1..] == s[n - |e| + 1..] == w;
  }

  // ---------------------------------------------------------------------------
  // The validator.
  // ---------------------------------------------------------------------------

  /** validate_url: strip, then apply the checks in order; the first that
      fails decides the outcome. */
  function ValidateUrl(raw: string): (v: Verdict)
    // A success hands back the stripped URL, and only a URL passing every check.
    ensures v.Allowed? ==> v.url == Strip(raw)
    ensures v.Allowed? <==>
      var url := Strip(raw);
      && StartsWith(url, HTTPS_PREFIX)
      && !BracketsUnbalanced(url)
      && !IsShortener(url)
      && !HasBlockedTld(url)
      && !TooLong(url)
      && !IsDangerousDownload(url)
      && !HasNonAscii(url)
  {
    Screen(Strip(raw))
  }

  /** The checks of validate_url, in order, on the URL once stripped. */
  function Screen(url: string): Verdict {
    if !StartsWith(url, HTTPS_PREFIX) then Blocked(NotHttps)
    else if BracketsUnbalanced(url) then Raised(ERROR_IPV6)
    else if IsShortener(url) then Blocked(Shortener(Domain(url)))
    else if HasBlockedTld(url) then Blocked(BlockedTld(Tld(url)))
    else if TooLong(url) then Blocked(TooLongUrl)
    else if IsDangerousDownload(url) then Blocked(DangerousDownload(MatchedExtension(Lower(UrlPath(url)))))
    else if HasNonAscii(url) then Blocked(SuspiciousUnicode)
    else Allowed(url)
  }

  // ---------------------------------------------------------------------------
  // Properties of the validator.
  // ---------------------------------------------------------------------------

  /** Stripping is idempotent. */
  lemma StripIdempotent(s: string)
    ensures Strip(Strip(s)) == Strip(s)
  {
    var r := Strip(s);
    assert SkipSpace(r, 0) == 0;
    assert SkipSpaceBack(r, 0, |r|) == |r|;
    assert r[0..|r|] == r;
  }

  /** Surrounding whitespace is removed before any check looks at the URL, so
      it never changes the outcome. */
  lemma SurroundingSpaceIgnored(raw: string)
    ensures ValidateUrl(Strip(raw)) == ValidateUrl(raw)
  {
    StripIdempotent(raw);
  }

  /** A non-https URL is refused for its scheme, and no other URL is. */
  lemma OnlyHttpsAllowed(raw: string)
    ensures !StartsWith(Strip(raw), HTTPS_PREFIX) <==> ValidateUrl(raw) == Blocked(NotHttps)
  {
  }

  /** A host is refused as a shortener exactly when its lower-cased form is one
      of the listed hosts; containing one (say "bit.ly.example.com") is not enough. */
  lemma ShortenerMatchesWholeHost(raw: string)
    ensures var url := Strip(raw); var v := ValidateUrl(raw);
      (v.Blocked? && v.reason.Shortener?) <==>
        (StartsWith(url, HTTPS_PREFIX) && !BracketsUnbalanced(url) && Domain(url) in SHORTENERS)
    ensures var url := Strip(raw); var v := ValidateUrl(raw);
      v.Blocked? && v.reason.Shortener? ==> v.reason.domain == Domain(url) && v.reason.domain in SHORTENERS
  {
    var url := Strip(raw);
    assert ValidateUrl(raw) == Screen(url);
    if StartsWith(url, HTTPS_PREFIX) && !BracketsUnbalanced(url) && IsShortener(url) {
      assert ValidateUrl(raw) == Blocked(Shortener(Domain(url)));
    }
  }

  /** The top-level domain is the text after the last dot of the lower-cased host,
      and it is refused exactly when it is listed (and no earlier check fired). */
  lemma TldBlockedExactly(raw: string)
    ensures var url := Strip(raw); var v := ValidateUrl(raw);
      (v.Blocked? && v.reason.BlockedTld?) <==>
        (StartsWith(url, HTTPS_PREFIX) && !BracketsUnbalanced(url) && !IsShortener(url) && Tld(url) in BLOCKED_TLDS)
    ensures var url := Strip(raw); var v := ValidateUrl(raw);
      v.Blocked? && v.reason.BlockedTld? ==> v.reason.tld == Tld(url) && '.' !in v.reason.tld
  {
    var url := Strip(raw);
    if StartsWith(url, HTTPS_PREFIX) && !BracketsUnbalanced(url) && !IsShortener(url) {
      if HasBlockedTld(url) {
        assert ValidateUrl(raw) == Blocked(BlockedTld(Tld(url)));
      } else {
        assert !ValidateUrl(raw).Blocked? || !ValidateUrl(raw).reason.BlockedTld?;
      }
    }
  }

  /** At most 2048 characters always pass the length check; more than 2048 fail
      it once the host checks have passed. */
  lemma LengthCap(raw: string)
    ensures |Strip(raw)| <= MAX_URL_LENGTH ==> ValidateUrl(raw) != Blocked(TooLongUrl)
    ensures var url := Strip(raw);
      (StartsWith(url, HTTPS_PREFIX) && !BracketsUnbalanced(url) && !IsShortener(url) && !HasBlockedTld(url)
        && |url| > MAX_URL_LENGTH) ==> ValidateUrl(raw) == Blocked(TooLongUrl)
  {
    assert ValidateUrl(raw) == Screen(Strip(raw));
  }

  /** A path whose lower-cased form ends with a dangerous extension is refused
      (once the earlier checks passed), and the reason names that extension. */
  lemma DangerousDownloadRefused(raw: string, ext: string)
    requires var url := Strip(raw);
      StartsWith(url, HTTPS_PREFIX) && !BracketsUnbalanced(url) && !IsShortener(url)
        && !HasBlockedTld(url) && !TooLong(url)
    requires ext in DANGEROUS_EXT && EndsWith(Lower(UrlPath(Strip(raw))), ext)
    ensures ValidateUrl(raw) == Blocked(DangerousDownload(ext))
  {
    assert ValidateUrl(raw) == Screen(Strip(raw));
  }

  /** Any character outside 0x00-0x7F makes the URL fail, whatever else holds. */
  lemma NonAsciiNeverAllowed(raw: string)
    requires HasNonAscii(Strip(raw))
    ensures !ValidateUrl(raw).Allowed?
  {
    assert ValidateUrl(raw) == Screen(Strip(raw));
  }

  /** urlparse raises its ValueError exactly when an https URL has a host with
      one IPv6 bracket but not the other; no reason is returned then. */
  lemma RaisedExactly(raw: string)
    ensures var url := Strip(raw);
      ValidateUrl(raw).Raised? <==> StartsWith(url, HTTPS_PREFIX) && BracketsUnbalanced(url)
    ensures ValidateUrl(raw).Raised? ==> ValidateUrl(raw).error == ERROR_IPV6
  {
    assert ValidateUrl(raw) == Screen(Strip(raw));
  }

  /** A download is refused exactly when every host and length check passed and
      some dangerous extension ends the lower-cased path; the reason names it. */
  lemma DangerousDownloadExactly(raw: string)
    ensures var url := Strip(raw); var v := ValidateUrl(raw);
      (v.Blocked? && v.reason.DangerousDownload?) <==>
        (StartsWith(url, HTTPS_PREFIX) && !BracketsUnbalanced(url) && !IsShortener(url)
          && !HasBlockedTld(url) && !TooLong(url) && IsDangerousDownload(url))
    ensures var url := Strip(raw); var v := ValidateUrl(raw);
      v.Blocked? && v.reason.DangerousDownload? ==>
        v.reason.ext in DANGEROUS_EXT && EndsWith(Lower(UrlPath(url)), v.reason.ext)
  {
    var url := Strip(raw);
    if StartsWith(url, HTTPS_PREFIX) && !BracketsUnbalanced(url) && !IsShortener(url)
      && !HasBlockedTld(url) && !TooLong(url) && IsDangerousDownload(url)
    {
      assert ValidateUrl(raw) == Blocked(DangerousDownload(MatchedExtension(Lower(UrlPath(url)))));
    }
  }

  /** Non-ASCII text is the reason exactly when it is the only check that fails:
      a non-ASCII URL whose path ends in ".exe" is refused as a download. */
  lemma SuspiciousUnicodeExactly(raw: string)
    ensures var url := Strip(raw);
      ValidateUrl(raw) == Blocked(SuspiciousUnicode) <==>
        (StartsWith(url, HTTPS_PREFIX) && !BracketsUnbalanced(url) && !IsShortener(url)
          && !HasBlockedTld(url) && !TooLong(url) && !IsDangerousDownload(url) && HasNonAscii(url))
  {
    assert ValidateUrl(raw) == Screen(Strip(raw));
  }
}
