/** The part of Python's `urllib.parse.urlparse` that decides whether a path line is a
    web link: scheme, network location, path, parameters, query and fragment. */
module Url {
  import opened Common
  import opened Text

  datatype UrlParts = UrlParts(
    scheme: string,
    netloc: string,
    path: string,
    params: string,
    query: string,
    fragment: string)

  /** Schemes whose last path segment may carry `;parameters` (`uses_params`). */
  const UsesParams: set<string> := {"", "ftp", "hdl", "prospero", "http", "imap", "https", "shttp",
    "rtsp", "rtsps", "rtspu", "sip", "sips", "mms", "sftp", "tel"}

  /** C0 control characters and space, stripped from the front of a URL. */
  predicate IsControlOrSpace(c: char) { c <= ' ' }

  /** Tab, carriage return and line feed, removed from anywhere in a URL. */
  predicate IsUnsafeChar(c: char) { c == '\t' || c == '\r' || c == '\n' }

  predicate IsSchemeChar(c: char) { IsAlnum(c) || c == '+' || c == '-' || c == '.' }

  predicate IsNetlocEnd(c: char) { c == '/' || c == '?' || c == '#' }

  function StripLeadingControls(s: string): (r: string)
    ensures |r| <= |s| && r == s[|s| - |r|..]
    ensures r == [] || !IsControlOrSpace(r[0])
    ensures (s == [] || !IsControlOrSpace(s[0])) ==> r == s
  {
    if |s| > 0 && IsControlOrSpace(s[0]) then StripLeadingControls(s[1..]) else s
  }

  function RemoveUnsafe(s: string): (r: string)
    ensures |r| <= |s|
    ensures forall i :: 0 <= i < |r| ==> !IsUnsafeChar(r[i])
    ensures (forall i :: 0 <= i < |s| ==> !IsUnsafeChar(s[i])) ==> r == s
  {
    if |s| == 0 then ""
    else (if IsUnsafeChar(s[0]) then [] else [s[0]]) + RemoveUnsafe(s[1..])
  }

  /** The URL `urlsplit` works on after its clean-up. */
  function Clean(url: string): string {
    RemoveUnsafe(StripLeadingControls(url))
  }

  /** A scheme is the text before the first ':' when it is non-empty, starts with an ASCII
      letter and holds only scheme characters; it is lower-cased. Returns (scheme, rest). */
  function SplitScheme(url: string): (r: (string, string))
    ensures |r.1| <= |url| && r.1 == url[|url| - |r.1|..]
    ensures r.0 == "" ==> r.1 == url
    ensures r.0 != "" ==> |url| == |r.0| + 1 + |r.1| && Lower(url[..|r.0|]) == r.0 && url[|r.0|] == ':'
  {
    match IndexOf(url, ":")
    case None => ("", url)
    case Some(i) =>
      if i > 0 && IsAlnum(url[0]) && !IsDigit(url[0]) && forall k :: 0 <= k < i ==> IsSchemeChar(url[k]) then
        assert url[i..i + 1] == ":";
        (Lower(url[..i]), url[i + 1..])
      else ("", url)
  }

  /** A URL that starts with a well-formed lower-case scheme and a ':' splits right there. */
  lemma SchemeAt(url: string, scheme: string)
    requires 0 < |scheme| < |url| && url[..|scheme|] == scheme && url[|scheme|] == ':'
    requires IsAlnum(scheme[0]) && !IsDigit(scheme[0])
    requires forall k :: 0 <= k < |scheme| ==> IsSchemeChar(scheme[k])
    requires Lower(scheme) == scheme
    ensures SplitScheme(url) == (scheme, url[|scheme| + 1..])
  {
    var n := |scheme|;
    assert ':' !in url[..n] by {
      forall k | 0 <= k < n ensures url[..n][k] != ':' {
        assert IsSchemeChar(scheme[k]);
      }
    }
    IndexOfCharAt(url, ':', n);
    forall k | 0 <= k < n ensures IsSchemeChar(url[k]) {
      assert url[k] == scheme[k];
    }
  }

  /** Position of the first '/', '?' or '#', or the length when there is none. */
  function NetlocEnd(s: string): (r: nat)
    ensures r <= |s|
    ensures forall k :: 0 <= k < r ==> !IsNetlocEnd(s[k])
    ensures r < |s| ==> IsNetlocEnd(s[r])
  {
    if |s| == 0 || IsNetlocEnd(s[0]) then 0 else 1 + NetlocEnd(s[1..])
  }

  /** After a leading "//", the network location runs up to the first '/', '?' or '#'.
      Returns (netloc, rest). */
  function SplitNetloc(url: string): (r: (string, string))
    ensures !StartsWith(url, "//") ==> r == ("", url)
    ensures StartsWith(url, "//") ==> url == "//" + r.0 + r.1
    ensures forall k :: 0 <= k < |r.0| ==> !IsNetlocEnd(r.0[k])
    ensures r.1 == "" || IsNetlocEnd(r.1[0]) || !StartsWith(url, "//")
  {
    if StartsWith(url, "//") then
      var after := url[2..];
      var d := NetlocEnd(after);
      assert url == "//" + after[..d] + after[d..];
      (after[..d], after[d..])
    else ("", url)
  }

  /** `_splitparams`: with a '/', the parameters start at the first ';' after the last
      '/', if any; without one, at the first ';'. Returns (path, params). */
  function SplitParams(url: string): (r: (string, string))
    requires ';' in url
    ensures |r.0| <= |url| && r.0 == url[..|r.0|]
  {
    match LastIndexOfChar(url, '/')
    case Some(j) =>
      var after := url[j..];
      (match IndexOf(after, ";")
       case None => (url, "")
       case Some(i) => (url[..j + i], url[j + i + 1..]))
    case None =>
      ContainsChar(url, ';');
      var i := IndexOf(url, ";").value;
      (url[..i], url[i + 1..])
  }

  lemma PrefixLacks(s: string, t: string, c: char)
    requires |t| <= |s| && t == s[..|t|] && c !in s
    ensures c !in t
  {
  }

  /** `s.split(sep, 1)` when `sep` occurs, else the whole text and an empty tail: the
      text before the first occurrence of a character, and the text after it. */
  function CutAt(s: string, c: char): (r: (string, string))
    ensures c !in r.0
    ensures c !in s ==> r == (s, "")
    ensures c in s ==> s == r.0 + [c] + r.1
    ensures forall x :: x !in s ==> x !in r.0 && x !in r.1
  {
    ContainsChar(s, c);
    match SplitFirst(s, [c])
    case Some((before, after)) =>
      ContainsChar(before, c);
      (before, after)
    case None => (s, "")
  }

  /** `urlparse(url)` with the default arguments. */
  function UrlParse(url: string): (r: UrlParts)
    ensures forall k :: 0 <= k < |r.netloc| ==> !IsNetlocEnd(r.netloc[k])
    ensures '?' !in r.path && '#' !in r.path && '#' !in r.query
  {
    var (scheme, rest) := SplitScheme(Clean(url));
    var (netloc, afterNetloc) := SplitNetloc(rest);
    var (beforeFragment, fragment) := CutAt(afterNetloc, '#');
    var (beforeQuery, query) := CutAt(beforeFragment, '?');
    if scheme in UsesParams && ';' in beforeQuery then
      var (path, params) := SplitParams(beforeQuery);
      PrefixLacks(beforeQuery, path, '?');
      PrefixLacks(beforeQuery, path, '#');
      UrlParts(scheme, netloc, path, params, query, fragment)
    else
      UrlParts(scheme, netloc, beforeQuery, "", query, fragment)
  }

  /** Without a "//" anywhere, a URL has no network location. */
  lemma NoSlashesNoNetloc(url: string)
    requires !Contains(Clean(url), "//")
    ensures UrlParse(url).netloc == ""
  {
    NoSlashesNoNetlocPart(Clean(url));
  }

  lemma NoSlashesNoNetlocPart(c: string)
    requires !Contains(c, "//")
    ensures SplitNetloc(SplitScheme(c).1).0 == ""
  {
    var rest := SplitScheme(c).1;
    if StartsWith(rest, "//") {
      assert c[|c| - |rest|..][..2] == "//";
      ContainsAt(c, "//", |c| - |rest|);
    }
  }
}
