/** How the downloader names the file for a URL: the slug of the suggested
    name (or of the URL's file name) plus the URL's extension, and the
    numbered names it falls back to when a name is taken. */
module FileName {
  import opened Text
  import opened Slug
  import opened Url

  /** At most this many characters of the name are kept before slugging. */
  const NameLimit: nat := 36

  /** The extension used when the URL's file name has none. */
  const DefaultExt := ".gif"

  /** An extension: a dot followed by text holding no other dot. */
  ghost predicate IsExt(e: string) {
    e != [] && e[0] == '.' && '.' !in e[1..]
  }

  lemma DefaultExtIsExt()
    ensures IsExt(DefaultExt)
  {
    assert DefaultExt[1..] == "gif";
  }

  /** The slug and the extension computed at the top of `download`. */
  datatype Stem = Stem(slug: string, ext: string)

  /** `name_.strip()[:36].strip()`. */
  function CutName(s: string): (r: string)
    ensures |r| <= NameLimit
    ensures r == [] || (!IsSpace(r[0]) && !IsSpace(r[|r| - 1]))
  {
    Strip(Take(Strip(s, Whitespace), NameLimit), Whitespace)
  }

  /** What the cut keeps: the stripped name, cut to 36 characters and back to
      its last character that is not whitespace. So it is a prefix of the
      stripped name, everything the second strip drops within the first 36
      characters is whitespace, and a stripped name of at most 36 characters
      is kept whole. */
  lemma CutNameShape(s: string)
    ensures var r, t := CutName(s), Strip(s, Whitespace);
            && |r| <= |t| && r == t[..|r|]
            && (forall k :: |r| <= k < |t| && k < NameLimit ==> IsSpace(t[k]))
            && (|t| <= NameLimit ==> r == t)
  {
    var t := Strip(s, Whitespace);
    var u := Take(t, NameLimit);
    assert LStrip(u, Whitespace) == u by {
      if u != [] {
        assert u[0] == t[0];
      }
    }
    RStripShape(u, Whitespace);
    assert |t| <= NameLimit ==> RStrip(t, Whitespace) == t;
  }

  /** The URL's file name: the last segment of its path, cut before any `?`. */
  function UrlFileName(url: string): (r: string)
    ensures '/' !in r && '?' !in r
  {
    Before(Basename(UrlPath(url)), '?')
  }

  /** A URL whose path ends in `/seg`, with or without a query, gets `seg`
      as its file name. */
  lemma UrlFileNameOfParts(scheme: string, host: string, dir: string, seg: string, query: Option<string>)
    requires scheme != [] && IsAsciiLetter(scheme[0])
    requires forall k :: 0 <= k < |scheme| ==> IsSchemeChar(scheme[k])
    requires forall k :: 0 <= k < |host| ==> !NetlocEnd.Has(host[k]) && Safe.Has(host[k])
    requires dir == [] || dir[0] == '/'
    requires forall k :: 0 <= k < |dir| ==> dir[k] != '?' && dir[k] != '#' && Safe.Has(dir[k])
    requires forall k :: 0 <= k < |seg| ==> seg[k] != '/' && seg[k] != '?' && seg[k] != '#' && Safe.Has(seg[k])
    requires query.Some? ==> forall k :: 0 <= k < |query.value| ==> Safe.Has(query.value[k])
    ensures UrlFileName(scheme + "://" + host + dir + "/" + seg + QuerySuffix(query)) == seg
  {
    PathOfDirAndSeg(dir, seg);
    UrlPathOfParts(scheme, host, dir + "/" + seg, query);
    Regroup(scheme + "://" + host, dir, "/", seg);
    assert '/' !in seg && '?' !in seg;
    SegOfPath(dir, seg);
  }

  /** `dir/seg` is a path `urlsplit` keeps whole. */
  lemma PathOfDirAndSeg(dir: string, seg: string)
    requires dir == [] || dir[0] == '/'
    requires forall k :: 0 <= k < |dir| ==> dir[k] != '?' && dir[k] != '#' && Safe.Has(dir[k])
    requires forall k :: 0 <= k < |seg| ==> seg[k] != '/' && seg[k] != '?' && seg[k] != '#' && Safe.Has(seg[k])
    ensures var path := dir + "/" + seg;
            && path[0] == '/'
            && forall k :: 0 <= k < |path| ==> path[k] != '?' && path[k] != '#' && Safe.Has(path[k])
  {
    var path := dir + "/" + seg;
    forall k | 0 <= k < |path|
      ensures path[k] != '?' && path[k] != '#' && Safe.Has(path[k])
    {
      if k > |dir| {
        assert path[k] == seg[k - |dir| - 1];
      }
    }
  }

  /** The file name of the path `dir/seg` is `seg`. */
  lemma SegOfPath(dir: string, seg: string)
    requires '/' !in seg && '?' !in seg
    ensures Before(Basename(dir + "/" + seg), '?') == seg
  {
    BasenameAfterSlash(dir + "/", seg);
    BeforeAppend(seg, [], '?');
    assert seg + [] == seg;
  }

  /** The slug and extension for `url` and the suggested `name` (empty when
      none is given). */
  function NameAndExt(url: string, name: string): (r: Stem)
    ensures IsSlug(r.slug) && |r.slug| <= NameLimit
    ensures IsExt(r.ext)
  {
    var parts := SplitExt(UrlFileName(url));
    DefaultExtIsExt();
    var stem := if name != "" then name else parts.0;
    Stem(Slugify(CutName(stem)), if parts.1 == "" then DefaultExt else parts.1)
  }

  /** The name tried at round `i` of the collision loop: the plain name, with
      `.gifv` rewritten to `.gif`, and then `slug-i` with the extension as
      it came from the URL. */
  function CandidateName(slug: string, ext: string, i: nat): string {
    if i == 0 then Replace(slug + ext, ".gifv", ".gif")
    else slug + "-" + NatToString(i) + ext
  }

  /** An extension with `.gifv` at its head turned into `.gif`. */
  function FixGifv(ext: string): (r: string)
    ensures IsExt(ext) ==> IsExt(r)
  {
    if |ext| >= 5 && ext[..5] == ".gifv" then ".gif" + ext[5..] else ext
  }

  lemma SlugHasNoDot(slug: string)
    requires IsSlug(slug)
    ensures '.' !in slug
  {
    assert forall k :: 0 <= k < |slug| ==> IsSlugChar(slug[k]);
  }

  /** The plain name is the slug followed by the extension, whose `.gifv`
      head, and only that, becomes `.gif`. */
  lemma {:induction false} BaseCandidate(slug: string, ext: string)
    requires IsSlug(slug) && IsExt(ext)
    ensures CandidateName(slug, ext, 0) == slug + FixGifv(ext)
  {
    SlugHasNoDot(slug);
    ReplaceSkipsPrefix(slug, ext, ".gifv", ".gif");
    if |ext| >= 5 && ext[..5] == ".gifv" {
      assert '.' !in ext[5..] by {
        assert ext[5..] == ext[1..][4..];
      }
      ReplaceAbsent(ext[5..], ".gifv", ".gif");
    } else {
      ReplaceAbsent(ext[1..], ".gifv", ".gif");
      assert ext == [ext[0]] + ext[1..];
    }
  }

  /** A file name made of a root and an extension (a dot and text with no
      other dot) splits back into the two; a file name with no dot at all has
      no extension. */
  lemma SplitExtOfParts(root: string, ext: string)
    requires forall k :: 0 <= k < |root| ==> root[k] != '/'
    requires forall k :: 0 <= k < |ext| ==> ext[k] != '/' && (k > 0 ==> ext[k] != '.')
    requires ext == [] ==> forall k :: 0 <= k < |root| ==> root[k] != '.'
    requires ext != [] ==> ext[0] == '.' && exists k :: 0 <= k < |root| && root[k] != '.'
    ensures SplitExt(root + ext) == (root, ext)
  {
    var p := root + ext;
    var r := SplitExt(p);
    SplitExtFinds(p);
    if ext == [] {
      assert p == root;
      assert forall d :: 0 <= d < |p| ==> p[d] != '.';
    } else {
      var k :| 0 <= k < |root| && root[k] != '.';
      assert p[k] != '.' && p[|root|] == '.';
      assert NoSlashFrom(p, k);
      assert r.1 != [];
      assert |r.0| == |root|;
      assert r.0 == p[..|root|] == root;
    }
  }

  /** The file name derived for a URL, with or without a query, whose path
      ends in `/root.ext` (or in `/root`, with no dot): the slug of at most 36 characters of the
      suggested name, or of `root` when no name is given; the URL's
      extension, or `.gif` when it has none; and the plain name is the two
      together with a `.gifv` at the head of the extension made `.gif`. */
  lemma DerivedFilename(scheme: string, host: string, dir: string, root: string, ext: string, query: Option<string>, name: string)
    requires scheme != [] && IsAsciiLetter(scheme[0])
    requires forall k :: 0 <= k < |scheme| ==> IsSchemeChar(scheme[k])
    requires forall k :: 0 <= k < |host| ==> !NetlocEnd.Has(host[k]) && Safe.Has(host[k])
    requires dir == [] || dir[0] == '/'
    requires forall k :: 0 <= k < |dir| ==> dir[k] != '?' && dir[k] != '#' && Safe.Has(dir[k])
    requires query.Some? ==> forall k :: 0 <= k < |query.value| ==> Safe.Has(query.value[k])
    requires forall k :: 0 <= k < |root| ==> root[k] != '/' && root[k] != '?' && root[k] != '#' && Safe.Has(root[k])
    requires forall k :: 0 <= k < |ext| ==> ext[k] != '/' && ext[k] != '?' && ext[k] != '#' && Safe.Has(ext[k]) && (k > 0 ==> ext[k] != '.')
    requires ext == [] ==> forall k :: 0 <= k < |root| ==> root[k] != '.'
    requires ext != [] ==> ext[0] == '.' && exists k :: 0 <= k < |root| && root[k] != '.'
    ensures var r := NameAndExt(scheme + "://" + host + dir + "/" + (root + ext) + QuerySuffix(query), name);
            && r.slug == Slugify(CutName(if name != "" then name else root))
            && r.ext == (if ext == [] then ".gif" else ext)
            && CandidateName(r.slug, r.ext, 0) == r.slug + FixGifv(r.ext)
  {
    var seg := root + ext;
    assert forall k :: 0 <= k < |seg| ==> seg[k] != '/' && seg[k] != '?' && seg[k] != '#' && Safe.Has(seg[k]) by {
      forall k | 0 <= k < |seg|
        ensures seg[k] != '/' && seg[k] != '?' && seg[k] != '#' && Safe.Has(seg[k])
      {
        if k >= |root| {
          assert seg[k] == ext[k - |root|];
        }
      }
    }
    var url := scheme + "://" + host + dir + "/" + seg + QuerySuffix(query);
    UrlFileNameOfParts(scheme, host, dir, seg, query);
    SplitExtOfParts(root, ext);
    var r := NameAndExt(url, name);
    BaseCandidate(r.slug, r.ext);
  }

  /** The numbered names never repeat, whatever the slug and extension. */
  lemma NumberedDistinct(slug: string, ext: string, i: nat, j: nat)
    requires 1 <= i && 1 <= j && i != j
    ensures CandidateName(slug, ext, i) != CandidateName(slug, ext, j)
  {
    var x, y := CandidateName(slug, ext, i), CandidateName(slug, ext, j);
    if x == y {
      var n := |slug| + 1;
      assert x[n..|x| - |ext|] == NatToString(i);
      assert y[n..|y| - |ext|] == NatToString(j);
      NatToStringInjective(i, j);
    }
  }

  /** The collision loop never tries the same name twice. */
  lemma CandidatesDistinct(slug: string, ext: string, i: nat, j: nat)
    requires IsSlug(slug) && IsExt(ext) && i != j
    ensures CandidateName(slug, ext, i) != CandidateName(slug, ext, j)
  {
    if i == 0 || j == 0 {
      var k := if i == 0 then j else i;
      BaseCandidate(slug, ext);
      assert (slug + FixGifv(ext))[|slug|] == '.';
      assert CandidateName(slug, ext, k)[|slug|] == '-';
    } else {
      NumberedDistinct(slug, ext, i, j);
    }
  }
}
