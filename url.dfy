/**
 * The part of `urllib.parse.urlparse(url).path` the handler depends on,
 * following `urlsplit` and `urlparse` step by step: split off a scheme, then a
 * network location introduced by `//`, then the fragment and the query, then
 * (for the schemes that use them) `;parameters` of the last path segment.
 */
module Url {
  import opened Text

  predicate IsAsciiLetter(c: char) { 'a' <= c <= 'z' || 'A' <= c <= 'Z' }

  predicate IsSchemeChar(c: char)
  {
    IsAsciiLetter(c) || '0' <= c <= '9' || c == '+' || c == '-' || c == '.'
  }

  /** Index of the first `:` when what precedes it is a scheme, else `|url|`. */
  function SchemeEnd(url: string): (i: nat)
    ensures i <= |url|
    ensures i < |url| ==> 0 < i && url[i] == ':' && ':' !in url[..i]
  {
    var i := IndexOfAny(url, {':'});
    if 0 < i < |url| && IsAsciiLetter(url[0]) && forall k :: 0 <= k < i ==> IsSchemeChar(url[k])
    then i else |url|
  }

  /** The scheme, lower-cased; empty when there is none. */
  function Scheme(url: string): string
  {
    var i := SchemeEnd(url);
    if i < |url| then Lower(url[..i]) else ""
  }

  /** What follows the scheme and its colon. */
  function AfterScheme(url: string): string
  {
    var i := SchemeEnd(url);
    if i < |url| then url[i + 1..] else url
  }

  /** Drops a `//netloc` prefix: the netloc runs up to the first `/`, `?` or `#`. */
  function AfterNetloc(rest: string): (r: string)
    ensures |r| <= |rest| && r == rest[|rest| - |r|..]
  {
    if |rest| >= 2 && rest[..2] == "//" then
      var j := 2 + IndexOfAny(rest[2..], {'/', '?', '#'});
      rest[j..]
    else rest
  }

  /** Schemes for which `urlparse` splits `;parameters` off the path. */
  const UsesParams: set<string> :=
    {"", "ftp", "hdl", "prospero", "http", "imap", "https", "shttp", "rtsp", "rtsps",
     "rtspu", "sip", "sips", "mms", "sftp", "tel"}

  /** `_splitparams`: cut the path at the first `;` of its last segment. */
  function StripParams(path: string): string
  {
    var seg := LastSegment(path, '/');
    path[..|path| - |seg|] + seg[..IndexOfAny(seg, {';'})]
  }

  /** Splitting off parameters changes only the last segment, by cutting it at its first `;`. */
  lemma StripParamsLastSegment(path: string)
    ensures var seg := LastSegment(path, '/');
      LastSegment(StripParams(path), '/') == seg[..IndexOfAny(seg, {';'})]
  {
    var seg := LastSegment(path, '/');
    var head := path[..|path| - |seg|];
    var cut := seg[..IndexOfAny(seg, {';'})];
    assert '/' !in cut by {
      forall k | 0 <= k < |cut| ensures cut[k] != '/' { assert cut[k] == seg[k]; }
    }
    if |seg| < |path| {
      assert head[|head| - 1] == '/';
      assert StripParams(path) == head[..|head| - 1] + ("/" + cut);
      assert ("/" + cut)[0] == '/';
      LastSegmentOfAppend(head[..|head| - 1], "/" + cut, '/');
      TailAfterLastSepUnique("/" + cut, '/', cut, LastSegment("/" + cut, '/'));
    } else {
      assert StripParams(path) == cut;
    }
  }

  // ---------------------------------------------------------------------------
  // What `urlsplit` does to the string before splitting it

  /** No tab, carriage return or line feed: the characters `urlsplit` deletes. */
  predicate NoTabOrNewline(s: string)
  {
    '\t' !in s && '\r' !in s && '\n' !in s
  }

  /** Every character is a C0 control character or a space. */
  predicate AllBlank(s: string)
  {
    forall k :: 0 <= k < |s| ==> s[k] <= ' '
  }

  /** `s.lstrip()` of the C0 control characters and space, that is of every character up to `' '`. */
  function StripLeading(s: string): (r: string)
    ensures |r| <= |s| && r == s[|s| - |r|..]
    ensures AllBlank(s[..|s| - |r|])
    ensures r == "" || r[0] > ' '
  {
    if |s| > 0 && s[0] <= ' ' then StripLeading(s[1..]) else s
  }

  /** Deletes every tab, carriage return and line feed, keeping the other characters in order. */
  function RemoveTabsAndNewlines(s: string): (r: string)
    ensures NoTabOrNewline(r)
    ensures |r| <= |s|
    ensures |s| > 0 && s[0] > ' ' ==> |r| > 0 && r[0] == s[0]
  {
    if |s| == 0 then ""
    else (if s[0] in {'\t', '\r', '\n'} then "" else [s[0]]) + RemoveTabsAndNewlines(s[1..])
  }

  /** Deleting characters from a concatenation deletes them from each part. */
  lemma {:induction false} RemoveTabsAndNewlinesAppend(a: string, b: string)
    ensures RemoveTabsAndNewlines(a + b) == RemoveTabsAndNewlines(a) + RemoveTabsAndNewlines(b)
    decreases |a|
  {
    if |a| > 0 {
      var h := if a[0] in {'\t', '\r', '\n'} then "" else [a[0]];
      assert (a + b)[0] == a[0] && (a + b)[1..] == a[1..] + b;
      assert RemoveTabsAndNewlines(a + b) == h + RemoveTabsAndNewlines(a[1..] + b);
      RemoveTabsAndNewlinesAppend(a[1..], b);
      assert h + (RemoveTabsAndNewlines(a[1..]) + RemoveTabsAndNewlines(b))
          == (h + RemoveTabsAndNewlines(a[1..])) + RemoveTabsAndNewlines(b);
    } else {
      assert a + b == b;
    }
  }

  /** A string without those characters is left as it is. */
  lemma {:induction false} RemoveTabsAndNewlinesKeeps(s: string)
    requires NoTabOrNewline(s)
    ensures RemoveTabsAndNewlines(s) == s
    decreases |s|
  {
    if |s| > 0 {
      assert s[0] in s;
      assert NoTabOrNewline(s[1..]) by {
        forall c | c in s[1..] ensures c in s {
          var k :| 0 <= k < |s[1..]| && s[1..][k] == c;
          assert s[k + 1] == c;
        }
      }
      RemoveTabsAndNewlinesKeeps(s[1..]);
      assert [s[0]] + s[1..] == s;
    }
  }

  /** The string `urlsplit` goes on to split: left-stripped, then without tabs and newlines. */
  function Sanitized(url: string): (r: string)
    ensures NoTabOrNewline(r)
    ensures r == "" || r[0] > ' '
  {
    RemoveTabsAndNewlines(StripLeading(url))
  }

  /** A URL that starts with a visible character and has no tab or newline is not changed. */
  lemma SanitizedKeeps(url: string)
    requires url == "" || url[0] > ' '
    requires NoTabOrNewline(url)
    ensures Sanitized(url) == url
  {
    RemoveTabsAndNewlinesKeeps(url);
  }

  /** Sanitizing twice is sanitizing once. */
  lemma SanitizedIdempotent(url: string)
    ensures Sanitized(Sanitized(url)) == Sanitized(url)
  {
    SanitizedKeeps(Sanitized(url));
  }

  /** Leading control characters and spaces in front of a visible character are all stripped. */
  lemma {:induction false} StripLeadingBlanks(blanks: string, url: string)
    requires AllBlank(blanks)
    requires url == "" || url[0] > ' '
    ensures StripLeading(blanks + url) == url
    decreases |blanks|
  {
    if |blanks| > 0 {
      assert (blanks + url)[0] == blanks[0];
      assert (blanks + url)[1..] == blanks[1..] + url;
      StripLeadingBlanks(blanks[1..], url);
    } else {
      assert blanks + url == url;
    }
  }

  /** Blanks in front of the URL make no difference to what is split. */
  lemma SanitizedAfterBlanks(blanks: string, url: string)
    requires AllBlank(blanks)
    requires url == "" || url[0] > ' '
    ensures Sanitized(blanks + url) == Sanitized(url)
  {
    StripLeadingBlanks(blanks, url);
  }

  /** A tab or newline between two clean parts is deleted. */
  lemma SanitizedDeletes(p: string, c: char, q: string)
    requires |p| > 0 && p[0] > ' ' && NoTabOrNewline(p) && NoTabOrNewline(q)
    requires c == '\t' || c == '\r' || c == '\n'
    ensures Sanitized(p + [c] + q) == p + q
  {
    var u := p + [c] + q;
    assert u[0] == p[0];
    assert StripLeading(u) == u;
    RemoveOneTabOrNewline(p, c, q);
  }

  lemma RemoveOneTabOrNewline(p: string, c: char, q: string)
    requires NoTabOrNewline(p) && NoTabOrNewline(q)
    requires c == '\t' || c == '\r' || c == '\n'
    ensures RemoveTabsAndNewlines(p + [c] + q) == p + q
  {
    var rc := RemoveTabsAndNewlines([c]);
    assert rc == [] by {
      assert [c][1..] == [];
    }
    RemoveTabsAndNewlinesAppend(p + [c], q);
    RemoveTabsAndNewlinesAppend(p, [c]);
    RemoveTabsAndNewlinesKeeps(p);
    RemoveTabsAndNewlinesKeeps(q);
    assert p + rc == p;
  }

  // ---------------------------------------------------------------------------
  // The path

  /** `urlparse(url).path`: the path of the sanitized URL. */
  function UrlPath(url: string): (p: string)
    ensures '?' !in p && '#' !in p && NoTabOrNewline(p)
  {
    SplitPath(Sanitized(url))
  }

  /** The path `urlsplit` and `urlparse` find in an already sanitized string. */
  function SplitPath(u: string): (p: string)
    ensures '?' !in p && '#' !in p
    ensures NoTabOrNewline(u) ==> NoTabOrNewline(p)
  {
    var rest := AfterNetloc(AfterScheme(u));
    assert |AfterScheme(u)| <= |u| && AfterScheme(u) == u[|u| - |AfterScheme(u)|..];
    SuffixKeepsNoTab(u, AfterScheme(u));
    SuffixKeepsNoTab(AfterScheme(u), rest);
    PathBeforeQuery(Scheme(u), rest)
  }

  /** A suffix of a string without tabs and newlines has none either. */
  lemma SuffixKeepsNoTab(s: string, r: string)
    requires |r| <= |s| && r == s[|s| - |r|..]
    ensures NoTabOrNewline(s) ==> NoTabOrNewline(r)
  {
    forall c | c in r ensures c in s {
      var k :| 0 <= k < |r| && r[k] == c;
      assert s[|s| - |r| + k] == c;
    }
  }

  /** Only the sanitized URL matters: tabs, newlines and leading blanks never reach the path. */
  lemma UrlPathOfSanitized(url: string)
    ensures UrlPath(Sanitized(url)) == UrlPath(url)
  {
    SanitizedIdempotent(url);
  }

  /** The path of what follows the netloc: cut at `?` or `#`, then drop any `;parameters`. */
  function PathBeforeQuery(scheme: string, rest: string): (p: string)
    ensures '?' !in p && '#' !in p
    ensures NoTabOrNewline(rest) ==> NoTabOrNewline(p)
  {
    var i := IndexOfAny(rest, {'?', '#'});
    var q := rest[..i];
    assert '?' !in q && '#' !in q && (NoTabOrNewline(rest) ==> NoTabOrNewline(q)) by {
      forall c | c in q ensures c in rest && c != '?' && c != '#' {
        var k :| 0 <= k < |q| && q[k] == c;
        assert rest[k] == c;
      }
    }
    if ';' in q && scheme in UsesParams then
      StripParamsChars(q);
      StripParams(q)
    else q
  }

  /** Splitting off parameters only removes characters. */
  lemma StripParamsChars(path: string)
    ensures '?' !in path ==> '?' !in StripParams(path)
    ensures '#' !in path ==> '#' !in StripParams(path)
    ensures NoTabOrNewline(path) ==> NoTabOrNewline(StripParams(path))
  {
    var seg := LastSegment(path, '/');
    var head := path[..|path| - |seg|];
    var cut := seg[..IndexOfAny(seg, {';'})];
    forall c | c in StripParams(path) ensures c in path {
      assert StripParams(path) == head + cut;
      if c in head {
        var k :| 0 <= k < |head| && head[k] == c;
        assert path[k] == c;
      } else {
        var k :| 0 <= k < |cut| && cut[k] == c;
        assert path[|path| - |seg| + k] == c;
      }
    }
  }

  lemma SchemeSplit(scheme: string, tail: string)
    requires |scheme| > 0 && IsAsciiLetter(scheme[0])
    requires forall k :: 0 <= k < |scheme| ==> IsSchemeChar(scheme[k])
    ensures AfterScheme(scheme + ":" + tail) == tail
  {
    var url := scheme + ":" + tail;
    assert url[|scheme|] == ':';
    assert forall k :: 0 <= k < |scheme| ==> url[k] == scheme[k] && url[k] != ':';
    IndexOfAnyAt(url, {':'}, |scheme|);
    assert url[|scheme| + 1..] == tail;
  }

  lemma NetlocSplit(host: string, rest: string)
    requires forall k :: 0 <= k < |host| ==> host[k] !in {'/', '?', '#'}
    requires |rest| == 0 || rest[0] in {'/', '?', '#'}
    ensures AfterNetloc("//" + host + rest) == rest
  {
    var r := "//" + host + rest;
    assert r[..2] == "//";
    assert r[2..] == host + rest;
    IndexOfAnyAt(host + rest, {'/', '?', '#'}, |host|);
    assert r[2 + |host|..] == rest;
  }

  /**
   * For an ordinary `scheme://host/path` URL, followed by nothing or by a
   * query or fragment, the path is exactly what follows the host (when it has
   * no `;parameters`, tab or newline).
   */
  lemma OrdinaryUrlPath(scheme: string, host: string, path: string, tail: string)
    requires |scheme| > 0 && IsAsciiLetter(scheme[0])
    requires forall k :: 0 <= k < |scheme| ==> IsSchemeChar(scheme[k])
    requires forall k :: 0 <= k < |host| ==> host[k] !in {'/', '?', '#'}
    requires |path| == 0 || path[0] == '/'
    requires forall k :: 0 <= k < |path| ==> path[k] !in {'?', '#', ';'}
    requires |tail| == 0 || tail[0] == '?' || tail[0] == '#'
    requires NoTabOrNewline(host) && NoTabOrNewline(path) && NoTabOrNewline(tail)
    ensures UrlPath(scheme + "://" + host + path + tail) == path
  {
    var rest := "//" + host + (path + tail);
    UrlLayout(scheme, host, path, tail);
    assert NoTabOrNewline(rest);
    assert UrlPath(scheme + ":" + rest) == PathBeforeQuery(Scheme(scheme + ":" + rest), AfterNetloc(rest)) by {
      UrlPathAfterScheme(scheme, rest);
    }
    assert AfterNetloc(rest) == path + tail by {
      NetlocBeforePath(host, path, tail);
    }
    assert PathBeforeQuery(Scheme(scheme + ":" + rest), path + tail) == path by {
      PathBeforeTail(Scheme(scheme + ":" + rest), path, tail);
    }
  }

  lemma NetlocBeforePath(host: string, path: string, tail: string)
    requires forall k :: 0 <= k < |host| ==> host[k] !in {'/', '?', '#'}
    requires |path| == 0 || path[0] == '/'
    requires |tail| == 0 || tail[0] == '?' || tail[0] == '#'
    ensures AfterNetloc("//" + host + (path + tail)) == path + tail
  {
    if |path| == 0 {
      assert path + tail == tail;
    } else {
      assert (path + tail)[0] == path[0];
    }
    NetlocSplit(host, path + tail);
  }

  lemma PathBeforeTail(scheme: string, path: string, tail: string)
    requires forall k :: 0 <= k < |path| ==> path[k] !in {'?', '#', ';'}
    requires |tail| == 0 || tail[0] == '?' || tail[0] == '#'
    ensures PathBeforeQuery(scheme, path + tail) == path
  {
    assert (path + tail)[..|path|] == path;
    PlainPath(scheme, path + tail, path);
  }

  /** Behind a scheme, the path is read from what follows the colon. */
  lemma UrlPathAfterScheme(scheme: string, rest: string)
    requires |scheme| > 0 && IsAsciiLetter(scheme[0])
    requires forall k :: 0 <= k < |scheme| ==> IsSchemeChar(scheme[k])
    requires NoTabOrNewline(rest)
    ensures UrlPath(scheme + ":" + rest) == PathBeforeQuery(Scheme(scheme + ":" + rest), AfterNetloc(rest))
  {
    SchemedUrlIsSplit(scheme, rest);
    SplitPathAfterScheme(scheme, rest);
  }

  lemma SchemedUrlIsSplit(scheme: string, rest: string)
    requires |scheme| > 0 && IsAsciiLetter(scheme[0])
    requires forall k :: 0 <= k < |scheme| ==> IsSchemeChar(scheme[k])
    requires NoTabOrNewline(rest)
    ensures UrlPath(scheme + ":" + rest) == SplitPath(scheme + ":" + rest)
  {
    var url := scheme + ":" + rest;
    OrdinaryUrlIsSanitized(scheme, rest);
    CleanUrlPath(url);
  }

  lemma CleanUrlPath(url: string)
    requires Sanitized(url) == url
    ensures UrlPath(url) == SplitPath(url)
  {
  }

  lemma SplitPathAfterScheme(scheme: string, rest: string)
    requires |scheme| > 0 && IsAsciiLetter(scheme[0])
    requires forall k :: 0 <= k < |scheme| ==> IsSchemeChar(scheme[k])
    ensures SplitPath(scheme + ":" + rest) == PathBeforeQuery(Scheme(scheme + ":" + rest), AfterNetloc(rest))
  {
    SchemeSplit(scheme, rest);
  }

  lemma UrlLayout(scheme: string, host: string, path: string, tail: string)
    ensures scheme + "://" + host + path + tail == scheme + ":" + ("//" + host + (path + tail))
  {
  }

  /** A URL starting with a scheme and free of tabs and newlines is already sanitized. */
  lemma OrdinaryUrlIsSanitized(scheme: string, rest: string)
    requires |scheme| > 0 && IsAsciiLetter(scheme[0])
    requires forall k :: 0 <= k < |scheme| ==> IsSchemeChar(scheme[k])
    requires NoTabOrNewline(rest)
    ensures Sanitized(scheme + ":" + rest) == scheme + ":" + rest
  {
    var url := scheme + ":" + rest;
    SchemeHasNoTab(scheme);
    assert url[0] == scheme[0];
    SanitizedKeeps(url);
  }

  lemma SchemeHasNoTab(scheme: string)
    requires forall k :: 0 <= k < |scheme| ==> IsSchemeChar(scheme[k])
    ensures NoTabOrNewline(scheme)
  {
    forall c | c in scheme ensures c != '\t' && c != '\r' && c != '\n' {
      var k :| 0 <= k < |scheme| && scheme[k] == c;
      assert IsSchemeChar(scheme[k]);
    }
  }

  /** A path followed by nothing, a query or a fragment, with no `;`, is the whole path. */
  lemma PlainPath(scheme: string, rest: string, path: string)
    requires |path| <= |rest| && rest[..|path|] == path
    requires |path| == |rest| || rest[|path|] == '?' || rest[|path|] == '#'
    requires forall k :: 0 <= k < |path| ==> path[k] !in {'?', '#', ';'}
    ensures PathBeforeQuery(scheme, rest) == path
  {
    assert forall k :: 0 <= k < |path| ==> rest[k] == path[k];
    IndexOfAnyAt(rest, {'?', '#'}, |path|);
    assert ';' !in path;
  }
}
