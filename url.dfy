/** The part of `urllib.parse.urlsplit` and of `posixpath` that the
    downloader uses to name a file: the path of a URL, the last segment of a
    path, and the split of a name into root and extension. The URL steps
    follow current CPython. */
module Url {
  import opened Text

  /** `scheme_chars`: ASCII letters, digits, `+`, `-` and `.`. */
  predicate IsSchemeChar(c: char) { IsAsciiLetter(c) || IsDigit(c) || c == '+' || c == '-' || c == '.' }

  /** The index of the first character that satisfies `p`, or `|s|`. */
  function FindFirst(s: string, p: CharClass): (i: nat)
    ensures i <= |s|
    ensures forall k :: 0 <= k < i ==> !p.Has(s[k])
    ensures i < |s| ==> p.Has(s[i])
  {
    if s == [] || p.Has(s[0]) then 0 else 1 + FindFirst(s[1..], p)
  }

  lemma {:induction false} FindFirstAppend(a: string, b: string, p: CharClass)
    requires forall k :: 0 <= k < |a| ==> !p.Has(a[k])
    ensures FindFirst(a + b, p) == |a| + FindFirst(b, p)
  {
    if a == [] {
      assert a + b == b;
    } else {
      assert (a + b)[1..] == a[1..] + b;
      FindFirstAppend(a[1..], b, p);
    }
  }

  /** The scheme step of `urlsplit`: a leading `scheme:`, whose scheme starts
      with an ASCII letter and holds only scheme characters, is removed. */
  function DropScheme(url: string): string {
    var i := FindFirst(url, Colon);
    if 0 < i < |url| && IsAsciiLetter(url[0]) && forall k :: 0 <= k < i ==> IsSchemeChar(url[k])
    then url[i + 1..]
    else url
  }

  /** The network-location step of `urlsplit`: after a leading `//`, the
      location runs up to the first `/`, `?` or `#`, and is removed. */
  function DropNetloc(url: string): string {
    if |url| >= 2 && url[..2] == "//" then
      var rest := url[2..];
      rest[FindFirst(rest, NetlocEnd)..]
    else url
  }

  /** `urlsplit(url).path`: the URL with leading controls and spaces stripped,
      tabs and line breaks removed, scheme and network location dropped, and
      cut before the fragment and then before the query. */
  function UrlPath(url: string): (path: string)
    ensures '?' !in path && '#' !in path
  {
    var cleaned := Filter(LStrip(url, C0OrSpace), Safe);
    Before(Before(DropNetloc(DropScheme(cleaned)), '#'), '?')
  }

  lemma {:induction false} BeforeAppend(a: string, b: string, c: char)
    requires c !in a
    ensures Before(a + b, c) == a + Before(b, c)
  {
    if a == [] {
      assert a + b == b;
    } else {
      assert (a + b)[1..] == a[1..] + b;
      BeforeAppend(a[1..], b, c);
    }
  }

  lemma SchemeDropped(scheme: string, rest: string)
    requires scheme != [] && IsAsciiLetter(scheme[0])
    requires forall k :: 0 <= k < |scheme| ==> IsSchemeChar(scheme[k])
    ensures DropScheme(scheme + ":" + rest) == rest
  {
    var url := scheme + ":" + rest;
    assert url == scheme + (":" + rest);
    FindFirstAppend(scheme, ":" + rest, Colon);
    assert forall k :: 0 <= k < |scheme| ==> url[k] == scheme[k];
  }

  lemma NetlocDropped(host: string, tail: string)
    requires forall k :: 0 <= k < |host| ==> !NetlocEnd.Has(host[k])
    requires tail == [] || NetlocEnd.Has(tail[0])
    ensures DropNetloc("//" + host + tail) == tail
  {
    var url := "//" + host + tail;
    assert url[..2] == "//";
    assert url[2..] == host + tail;
    FindFirstAppend(host, tail, NetlocEnd);
  }

  /** The `?query` part of a URL: empty when the URL has no query. */
  function QuerySuffix(query: Option<string>): string {
    match query
    case None => ""
    case Some(q) => "?" + q
  }

  lemma QueryDropped(path: string, query: Option<string>)
    requires '?' !in path && '#' !in path
    ensures Before(Before(path + QuerySuffix(query), '#'), '?') == path
  {
    match query {
      case None =>
        BeforeAppend(path, [], '#');
        BeforeAppend(path, [], '?');
        assert path + [] == path;
      case Some(q) =>
        BeforeAppend(path, "?" + q, '#');
        BeforeAppend(path, "?" + Before(q, '#'), '?');
    }
  }

  ghost predicate AllSafe(s: string) {
    forall k :: 0 <= k < |s| ==> Safe.Has(s[k])
  }

  lemma AllSafeAppend(a: string, b: string)
    requires AllSafe(a) && AllSafe(b)
    ensures AllSafe(a + b)
  {
    forall k | 0 <= k < |a + b|
      ensures Safe.Has((a + b)[k])
    {
      if k >= |a| {
        assert (a + b)[k] == b[k - |a|];
      }
    }
  }

  /** The parts of a URL hold no tab, carriage return or line feed. */
  lemma PartsSafe(scheme: string, host: string, path: string, query: Option<string>)
    requires forall k :: 0 <= k < |scheme| ==> IsSchemeChar(scheme[k])
    requires forall k :: 0 <= k < |host| ==> Safe.Has(host[k])
    requires forall k :: 0 <= k < |path| ==> Safe.Has(path[k])
    requires query.Some? ==> forall k :: 0 <= k < |query.value| ==> Safe.Has(query.value[k])
    ensures AllSafe(scheme + "://" + host + path + QuerySuffix(query))
  {
    assert AllSafe(scheme);
    assert AllSafe("://");
    AllSafeAppend(scheme, "://");
    AllSafeAppend(scheme + "://", host);
    AllSafeAppend(scheme + "://" + host, path);
    if query.Some? {
      assert AllSafe("?");
      AllSafeAppend("?", query.value);
    }
    AllSafeAppend(scheme + "://" + host + path, QuerySuffix(query));
  }

  /** A URL put together from a scheme, a host, a path and a query, if there
      is one, splits back to that path. */
  lemma UrlPathOfParts(scheme: string, host: string, path: string, query: Option<string>)
    requires scheme != [] && IsAsciiLetter(scheme[0])
    requires forall k :: 0 <= k < |scheme| ==> IsSchemeChar(scheme[k])
    requires forall k :: 0 <= k < |host| ==> !NetlocEnd.Has(host[k]) && Safe.Has(host[k])
    requires path == [] || path[0] == '/'
    requires forall k :: 0 <= k < |path| ==> path[k] != '?' && path[k] != '#' && Safe.Has(path[k])
    requires query.Some? ==> forall k :: 0 <= k < |query.value| ==> Safe.Has(query.value[k])
    ensures UrlPath(scheme + "://" + host + path + QuerySuffix(query)) == path
  {
    var tail := path + QuerySuffix(query);
    var rest := "//" + host + tail;
    SchemeJoin(scheme, host, path, QuerySuffix(query));
    PartsSafe(scheme, host, path, query);
    CleanUrlPath(scheme, rest);
    NetlocDropped(host, tail);
    QueryDropped(path, query);
  }

  lemma SchemeJoin(scheme: string, host: string, path: string, suffix: string)
    ensures scheme + ":" + ("//" + host + (path + suffix)) == scheme + "://" + host + path + suffix
  {
    assert ":" + "//" == "://";
  }

  /** A URL whose scheme is well formed and which starts with no space and
      holds no tab, carriage return or line feed loses only its scheme
      before the netloc is split off. */
  lemma CleanUrlPath(scheme: string, rest: string)
    requires scheme != [] && IsAsciiLetter(scheme[0])
    requires forall k :: 0 <= k < |scheme| ==> IsSchemeChar(scheme[k])
    requires AllSafe(scheme + ":" + rest)
    ensures UrlPath(scheme + ":" + rest) == Before(Before(DropNetloc(rest), '#'), '?')
  {
    var url := scheme + ":" + rest;
    assert url[0] == scheme[0];
    assert LStrip(url, C0OrSpace) == url;
    FilterAll(url, Safe);
    SchemeDropped(scheme, rest);
  }

  /** `posixpath.basename(p)`: the text after the last `/`. */
  function Basename(p: string): (r: string)
    ensures '/' !in r
    ensures |r| <= |p| && forall k :: 0 <= k < |r| ==> r[k] == p[|p| - |r| + k]
    ensures |r| < |p| ==> p[|p| - |r| - 1] == '/'
  {
    if p == [] || p[|p| - 1] == '/' then [] else Basename(p[..|p| - 1]) + [p[|p| - 1]]
  }

  /** The basename of a path that ends in `/` and then `seg` is `seg`. */
  lemma BasenameAfterSlash(dir: string, seg: string)
    requires dir != [] && dir[|dir| - 1] == '/'
    requires '/' !in seg
    ensures Basename(dir + seg) == seg
  {
    var p := dir + seg;
    var r := Basename(p);
    // The `/` that ends `dir` lies before the basename, and no `/` of `seg`
    // can end the part before it.
    forall i | |p| - |r| <= i < |p|
      ensures p[i] != '/'
    {
      assert r[i - (|p| - |r|)] == p[i];
    }
    forall i | |dir| <= i < |p|
      ensures p[i] != '/'
    {
      assert p[i] == seg[i - |dir|];
    }
    assert p[|dir| - 1] == '/';
    assert |r| == |seg|;
    assert r == p[|dir|..];
  }

  /** `s.rfind(c)`: the index of the last `c`, or -1. */
  function LastIndex(s: string, c: char): (i: int)
    ensures -1 <= i < |s|
    ensures 0 <= i ==> s[i] == c
    ensures forall k :: i < k < |s| ==> s[k] != c
  {
    if s == [] then -1
    else if s[|s| - 1] == c then |s| - 1
    else LastIndex(s[..|s| - 1], c)
  }

  /** No `/` at index `k` of `p` or after it. */
  ghost predicate NoSlashFrom(p: string, k: int) {
    forall j :: 0 <= j < |p| && k <= j ==> p[j] != '/'
  }

  /** `posixpath.splitext(p)`: the extension runs from the last dot of the
      last segment, unless the segment holds nothing but dots before it. */
  function SplitExt(p: string): (r: (string, string))
    ensures r.0 + r.1 == p
    ensures r.1 == [] || (r.1[0] == '.' && '.' !in r.1[1..] && '/' !in r.1)
  {
    var sep := LastIndex(p, '/');
    var dot := LastIndex(p, '.');
    if dot > sep && exists k :: sep < k < dot && p[k] != '.' then
      var ext := p[dot..];
      assert forall j :: 0 <= j < |ext| ==> ext[j] == p[dot + j] && dot + j > sep;
      assert p[..dot] + ext == p;
      (p[..dot], ext)
    else (p, "")
  }

  /** When `splitext` finds an extension: exactly when the last segment has a
      dot with some other character in front of it. With the shape that
      `SplitExt` ensures, this fixes the split: the extension is then the
      segment's last dot and what follows it. */
  lemma SplitExtFinds(p: string)
    ensures SplitExt(p).1 != [] <==>
              exists k, d :: 0 <= k < d < |p| && p[k] != '.' && p[d] == '.' && NoSlashFrom(p, k)
  {
    var sep := LastIndex(p, '/');
    var dot := LastIndex(p, '.');
    if dot > sep && exists k :: sep < k < dot && p[k] != '.' {
      var k :| sep < k < dot && p[k] != '.';
      assert NoSlashFrom(p, k);
    } else {
      assert forall k, d :: 0 <= k < d < |p| && p[k] != '.' && p[d] == '.' && NoSlashFrom(p, k) ==> sep < k < dot;
    }
  }
}
