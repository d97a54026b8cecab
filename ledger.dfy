/** What one call of `download` does to the downloader's state, as a function
    on values, and what a run of calls does. The state is the list of URLs
    already saved, the index from content hash to file name, and the files of
    the output directory. The fetched bytes are an input; content sniffing and
    the MD5 digest are functions the caller supplies. */
module Ledger {
  import opened Text
  import opened FileName

  newtype byte = b: int | 0 <= b < 256

  type Bytes = seq<byte>

  /** The hex digest of `hashlib.md5`, the key of the index. */
  type Hash = string

  /** The two foreign calls of `download`: `hashlib.md5(...).hexdigest()` and
      `imghdr.what(...)` (true when it names an image type). */
  datatype Probes = Probes(md5: Bytes -> Hash, isImage: Bytes -> bool)

  /** `tried_urls`, `image_md5s` and the output directory. */
  datatype Ledger = Ledger(triedUrls: seq<string>, imageMd5s: map<Hash, string>, files: map<string, Bytes>)

  /** One call of `download`: the URL, the base name and extension derived
      for it (`NameAndExt` of the URL and the suggested name) before anything
      is fetched, and what fetching the URL gave (`None` when it raised). */
  datatype Request = Request(url: string, stem: Stem, fetched: Option<Bytes>)

  /** Which way a call of `download` ended. */
  datatype Outcome =
    | AlreadyTried
    | FetchFailed
    | InvalidImage
    | DuplicateContent(existing: string)
    | AlreadyOnDisk(filename: string)
    | LimitReached(reserved: string)
    | Saved(filename: string)

  /** Where the collision loop stopped: at a free name, or at a file that
      already holds the same content. */
  datatype Resolution = Free(index: nat) | SameContent(index: nat)

  /** The numbered names the collision loop has tried before round `i`. */
  ghost function Numbered(slug: string, ext: string, i: nat): set<string> {
    set j | 1 <= j < i :: CandidateName(slug, ext, j)
  }

  lemma NumberedStep(slug: string, ext: string, i: nat)
    requires 1 <= i
    ensures Numbered(slug, ext, i + 1) == Numbered(slug, ext, i) + {CandidateName(slug, ext, i)}
    ensures CandidateName(slug, ext, i) !in Numbered(slug, ext, i)
  {
    forall j | 1 <= j < i
      ensures CandidateName(slug, ext, j) != CandidateName(slug, ext, i)
    {
      NumberedDistinct(slug, ext, j, i);
    }
  }

  /** A numbered name found taken leaves fewer files the loop has not yet
      tried. */
  lemma NumberedShrinks(keys: set<string>, slug: string, ext: string, i: nat)
    requires 1 <= i && CandidateName(slug, ext, i) in keys
    ensures |keys - Numbered(slug, ext, i + 1)| < |keys - Numbered(slug, ext, i)|
  {
    var c := CandidateName(slug, ext, i);
    NumberedStep(slug, ext, i);
    assert keys - Numbered(slug, ext, i) == (keys - Numbered(slug, ext, i + 1)) + {c};
  }

  /** Round `j` of the collision loop goes on: its name is taken by a file
      whose content hash is not `h`. */
  ghost predicate Clash(files: map<string, Bytes>, slug: string, ext: string, h: Hash, md5: Bytes -> Hash, j: nat) {
    CandidateName(slug, ext, j) in files && md5(files[CandidateName(slug, ext, j)]) != h
  }

  /** The collision loop from round `i` on: it stops at the first name that is
      free or whose file has content hash `h`. */
  function Resolve(files: map<string, Bytes>, slug: string, ext: string, h: Hash, md5: Bytes -> Hash, i: nat): (r: Resolution)
    ensures r.index >= i
    ensures r.Free? ==> CandidateName(slug, ext, r.index) !in files
    ensures r.SameContent? ==> CandidateName(slug, ext, r.index) in files && md5(files[CandidateName(slug, ext, r.index)]) == h
    decreases if i == 0 then 1 else 0, |files.Keys - Numbered(slug, ext, i)|
  {
    var name := CandidateName(slug, ext, i);
    if name !in files then Free(i)
    else if md5(files[name]) == h then SameContent(i)
    else
      if i >= 1 then
        NumberedShrinks(files.Keys, slug, ext, i);
        Resolve(files, slug, ext, h, md5, i + 1)
      else
        Resolve(files, slug, ext, h, md5, i + 1)
  }

  /** Where the collision loop stops when started at round `i`: no earlier
      than `i`, at a name that is free or holds content with hash `h`, and
      every name it passed on the way is a file with other content. */
  ghost predicate Stops(files: map<string, Bytes>, slug: string, ext: string, h: Hash, md5: Bytes -> Hash, i: nat) {
    var r := Resolve(files, slug, ext, h, md5, i);
    && r.index >= i
    && (forall j :: i <= j < r.index ==> Clash(files, slug, ext, h, md5, j))
    && (r.Free? ==> CandidateName(slug, ext, r.index) !in files)
    && (r.SameContent? ==>
          CandidateName(slug, ext, r.index) in files && md5(files[CandidateName(slug, ext, r.index)]) == h)
  }

  /** Round `i` either ends the loop, or passes a clash on to round `i + 1`. */
  lemma StopsStep(files: map<string, Bytes>, slug: string, ext: string, h: Hash, md5: Bytes -> Hash, i: nat)
    requires Clash(files, slug, ext, h, md5, i) ==> Stops(files, slug, ext, h, md5, i + 1)
    ensures Stops(files, slug, ext, h, md5, i)
  {
    if Clash(files, slug, ext, h, md5, i) {
      assert Resolve(files, slug, ext, h, md5, i) == Resolve(files, slug, ext, h, md5, i + 1);
    }
  }

  /** The collision loop stops where `Stops` says, from any round on. */
  lemma {:induction false} ResolveStops(files: map<string, Bytes>, slug: string, ext: string, h: Hash, md5: Bytes -> Hash, i: nat)
    ensures Stops(files, slug, ext, h, md5, i)
    decreases if i == 0 then 1 else 0, |files.Keys - Numbered(slug, ext, i)|
  {
    if Clash(files, slug, ext, h, md5, i) {
      if i >= 1 {
        NumberedShrinks(files.Keys, slug, ext, i);
      }
      ResolveStops(files, slug, ext, h, md5, i + 1);
    }
    StopsStep(files, slug, ext, h, md5, i);
  }

  /** One round of the collision loop at round `i`: a free name ends it, a
      file with content hash `h` ends it, and any other file sends it on to
      round `i + 1`, so that it stops past `i`. */
  lemma ResolveAt(files: map<string, Bytes>, slug: string, ext: string, h: Hash, md5: Bytes -> Hash, i: nat)
    ensures var name := CandidateName(slug, ext, i);
            && (name !in files ==> Resolve(files, slug, ext, h, md5, i) == Free(i))
            && (name in files && md5(files[name]) == h ==> Resolve(files, slug, ext, h, md5, i) == SameContent(i))
            && (name in files && md5(files[name]) != h ==>
                  && Resolve(files, slug, ext, h, md5, i + 1) == Resolve(files, slug, ext, h, md5, i)
                  && Resolve(files, slug, ext, h, md5, i).index > i)
  {
    ResolveStops(files, slug, ext, h, md5, i + 1);
  }

  /** The converse of `ResolveStops`: if every round from `i` up to `k` is a
      clash and round `k` is not, the loop started at `i` stops at round `k`,
      at a free name or at a file with content hash `h`. */
  lemma {:induction false} ResolveFindsFirst(files: map<string, Bytes>, slug: string, ext: string, h: Hash, md5: Bytes -> Hash, i: nat, k: nat)
    requires i <= k
    requires forall j :: i <= j < k ==> Clash(files, slug, ext, h, md5, j)
    requires !Clash(files, slug, ext, h, md5, k)
    ensures Resolve(files, slug, ext, h, md5, i)
            == if CandidateName(slug, ext, k) in files then SameContent(k) else Free(k)
    decreases k - i
  {
    ResolveAt(files, slug, ext, h, md5, i);
    if i < k {
      assert Clash(files, slug, ext, h, md5, i);
      ResolveFindsFirst(files, slug, ext, h, md5, i + 1, k);
    }
  }

  /** One call of `download`. Only a save or a stop at the limit changes the
      state. */
  function Step(s: Ledger, q: Request, limit: Option<int>, p: Probes): (r: (Ledger, Outcome))
    ensures r.0 != s ==> r.1.Saved? || r.1.LimitReached?
  {
    if q.url in s.triedUrls then (s, AlreadyTried)
    else if q.fetched.None? then (s, FetchFailed)
    else
      var image := q.fetched.value;
      if !p.isImage(image) then (s, InvalidImage)
      else
        var h := p.md5(image);
        if h in s.imageMd5s then (s, DuplicateContent(s.imageMd5s[h]))
        else
          var res := Resolve(s.files, q.stem.slug, q.stem.ext, h, p.md5, 0);
          var filename := CandidateName(q.stem.slug, q.stem.ext, res.index);
          if res.SameContent? then (s, AlreadyOnDisk(filename))
          else
            var reserved := s.imageMd5s[h := filename];
            if limit.Some? && |s.triedUrls| >= limit.value then (s.(imageMd5s := reserved), LimitReached(filename))
            else (Ledger(s.triedUrls + [q.url], reserved, s.files[filename := image]), Saved(filename))
  }

  /** The state after the calls `qs`, one after the other. */
  function Run(s: Ledger, qs: seq<Request>, limit: Option<int>, p: Probes): Ledger
  {
    if qs == [] then s else Step(Run(s, qs[..|qs| - 1], limit, p), qs[|qs| - 1], limit, p).0
  }

  lemma RunAppend(s: Ledger, qs: seq<Request>, q: Request, limit: Option<int>, p: Probes)
    ensures Run(s, qs + [q], limit, p) == Step(Run(s, qs, limit, p), q, limit, p).0
  {
    assert (qs + [q])[..|qs|] == qs;
  }

  /** `b` is a later state than `a`: the URL list only grew at its end, no
      index entry and no file was changed or removed, and one file was added
      per URL added. */
  ghost predicate Extends(a: Ledger, b: Ledger) {
    && |a.triedUrls| <= |b.triedUrls| && b.triedUrls[..|a.triedUrls|] == a.triedUrls
    && (forall h :: h in a.imageMd5s ==> h in b.imageMd5s && b.imageMd5s[h] == a.imageMd5s[h])
    && (forall f :: f in a.files ==> f in b.files && b.files[f] == a.files[f])
    && |b.files| - |a.files| == |b.triedUrls| - |a.triedUrls|
  }

  lemma ExtendsTransitive(a: Ledger, b: Ledger, c: Ledger)
    requires Extends(a, b) && Extends(b, c)
    ensures Extends(a, c)
  {
    assert c.triedUrls[..|a.triedUrls|] == c.triedUrls[..|b.triedUrls|][..|a.triedUrls|];
  }

  ghost predicate NoDups(urls: seq<string>) {
    forall i, j :: 0 <= i < j < |urls| ==> urls[i] != urls[j]
  }

  /** A URL already in the list is skipped, whatever fetching it would give:
      the fetch never matters and nothing changes. */
  lemma StepSkipsTriedUrl(s: Ledger, q: Request, fetched: Option<Bytes>, limit: Option<int>, p: Probes)
    requires q.url in s.triedUrls
    ensures Step(s, q, limit, p) == Step(s, q.(fetched := fetched), limit, p) == (s, AlreadyTried)
  {
  }

  /** A failed fetch, or bytes that are not an image, change nothing. */
  lemma StepIgnoresBadFetch(s: Ledger, q: Request, limit: Option<int>, p: Probes)
    requires q.url !in s.triedUrls
    requires q.fetched.None? || !p.isImage(q.fetched.value)
    ensures Step(s, q, limit, p).0 == s
    ensures Step(s, q, limit, p).1 == if q.fetched.None? then FetchFailed else InvalidImage
  {
  }

  /** Content whose hash is already indexed is not saved again and changes
      nothing; the outcome names the file it was first saved as. */
  lemma StepSkipsIndexedContent(s: Ledger, q: Request, limit: Option<int>, p: Probes)
    requires q.url !in s.triedUrls && q.fetched.Some? && p.isImage(q.fetched.value)
    requires p.md5(q.fetched.value) in s.imageMd5s
    ensures Step(s, q, limit, p) == (s, DuplicateContent(s.imageMd5s[p.md5(q.fetched.value)]))
  {
  }

  /** A call never changes an index entry and adds at most one, for the hash
      of the fetched bytes; it never changes or removes a file and adds one
      exactly when it adds the URL to the list. */
  lemma StepExtends(s: Ledger, q: Request, limit: Option<int>, p: Probes)
    ensures Extends(s, Step(s, q, limit, p).0)
    ensures var r := Step(s, q, limit, p).0;
            r.imageMd5s.Keys <= s.imageMd5s.Keys + (if q.fetched.Some? then {p.md5(q.fetched.value)} else {})
  {
    var (r, out) := Step(s, q, limit, p);
    if out.Saved? {
      ResolveStops(s.files, q.stem.slug, q.stem.ext, p.md5(q.fetched.value), p.md5, 0);
      assert r.triedUrls[..|s.triedUrls|] == s.triedUrls;
    }
  }

  /** The list stays within the limit, and grows only by the requested URL on
      a save. */
  lemma StepWithinLimit(s: Ledger, q: Request, limit: Option<int>, p: Probes)
    ensures var (r, out) := Step(s, q, limit, p);
            && (r.triedUrls == s.triedUrls || (out.Saved? && r.triedUrls == s.triedUrls + [q.url]))
            && (limit.Some? && |s.triedUrls| <= limit.value ==> |r.triedUrls| <= limit.value)
  {
  }

  /** A call never puts a URL in the list twice. */
  lemma StepKeepsNoDups(s: Ledger, q: Request, limit: Option<int>, p: Probes)
    requires NoDups(s.triedUrls)
    ensures NoDups(Step(s, q, limit, p).0.triedUrls)
  {
  }

  /** A save writes the fetched bytes under a name that was free, indexes the
      name under their hash, and records the URL; it only happens below the
      limit and for content not indexed before. The name is the first
      candidate that is free, every earlier one being a file with other
      content. */
  lemma StepSaves(s: Ledger, q: Request, limit: Option<int>, p: Probes)
    requires Step(s, q, limit, p).1.Saved?
    ensures var (r, out) := Step(s, q, limit, p);
            var image := q.fetched.value;
            && q.url !in s.triedUrls && q.fetched.Some? && p.isImage(image)
            && p.md5(image) !in s.imageMd5s
            && (limit.None? || |s.triedUrls| < limit.value)
            && out.filename !in s.files
            && r == Ledger(s.triedUrls + [q.url], s.imageMd5s[p.md5(image) := out.filename], s.files[out.filename := image])
            && exists k: nat :: out.filename == CandidateName(q.stem.slug, q.stem.ext, k)
                 && forall j :: 0 <= j < k ==> Clash(s.files, q.stem.slug, q.stem.ext, p.md5(image), p.md5, j)
  {
    var res := Resolve(s.files, q.stem.slug, q.stem.ext, p.md5(q.fetched.value), p.md5, 0);
    ResolveStops(s.files, q.stem.slug, q.stem.ext, p.md5(q.fetched.value), p.md5, 0);
    assert Step(s, q, limit, p).1.filename == CandidateName(q.stem.slug, q.stem.ext, res.index);
  }

  /** A file on the way whose content has the hash of the fetched bytes ends
      the call with nothing changed; every candidate before it is a file with
      other content. */
  lemma StepFindsCopyOnDisk(s: Ledger, q: Request, limit: Option<int>, p: Probes)
    requires Step(s, q, limit, p).1.AlreadyOnDisk?
    ensures var (r, out) := Step(s, q, limit, p);
            var image := q.fetched.value;
            && r == s
            && q.url !in s.triedUrls && q.fetched.Some? && p.isImage(image)
            && p.md5(image) !in s.imageMd5s
            && out.filename in s.files && p.md5(s.files[out.filename]) == p.md5(image)
            && exists k: nat :: out.filename == CandidateName(q.stem.slug, q.stem.ext, k)
                 && forall j :: 0 <= j < k ==> Clash(s.files, q.stem.slug, q.stem.ext, p.md5(image), p.md5, j)
  {
    var res := Resolve(s.files, q.stem.slug, q.stem.ext, p.md5(q.fetched.value), p.md5, 0);
    ResolveStops(s.files, q.stem.slug, q.stem.ext, p.md5(q.fetched.value), p.md5, 0);
    assert Step(s, q, limit, p).1.filename == CandidateName(q.stem.slug, q.stem.ext, res.index);
  }

  /** At the limit the call writes nothing and leaves the list alone, but the
      hash stays reserved in the index under the name it would have used: the
      first candidate that is free, every earlier one being a file with other
      content. */
  lemma StepAtLimit(s: Ledger, q: Request, limit: Option<int>, p: Probes)
    requires Step(s, q, limit, p).1.LimitReached?
    ensures var (r, out) := Step(s, q, limit, p);
            var image := q.fetched.value;
            && limit.Some? && |s.triedUrls| >= limit.value
            && q.url !in s.triedUrls && q.fetched.Some? && p.isImage(image)
            && p.md5(image) !in s.imageMd5s
            && out.reserved !in s.files
            && r == s.(imageMd5s := s.imageMd5s[p.md5(image) := out.reserved])
            && exists k: nat :: out.reserved == CandidateName(q.stem.slug, q.stem.ext, k)
                 && forall j :: 0 <= j < k ==> Clash(s.files, q.stem.slug, q.stem.ext, p.md5(image), p.md5, j)
  {
    var res := Resolve(s.files, q.stem.slug, q.stem.ext, p.md5(q.fetched.value), p.md5, 0);
    ResolveStops(s.files, q.stem.slug, q.stem.ext, p.md5(q.fetched.value), p.md5, 0);
    assert Step(s, q, limit, p).1.reserved == CandidateName(q.stem.slug, q.stem.ext, res.index);
  }

  /** The converse of `StepSaves` and `StepAtLimit`: new image content whose
      candidates up to round `k` are files with other content, and whose
      round-`k` name is free, is saved under that name below the limit and
      reserved under it at the limit. */
  lemma StepFirstFree(s: Ledger, q: Request, limit: Option<int>, p: Probes, k: nat)
    requires q.url !in s.triedUrls && q.fetched.Some? && p.isImage(q.fetched.value)
    requires p.md5(q.fetched.value) !in s.imageMd5s
    requires forall j :: 0 <= j < k ==> Clash(s.files, q.stem.slug, q.stem.ext, p.md5(q.fetched.value), p.md5, j)
    requires CandidateName(q.stem.slug, q.stem.ext, k) !in s.files
    ensures var image, name := q.fetched.value, CandidateName(q.stem.slug, q.stem.ext, k);
            var reserved := s.imageMd5s[p.md5(image) := name];
            Step(s, q, limit, p)
            == if limit.Some? && |s.triedUrls| >= limit.value then (s.(imageMd5s := reserved), LimitReached(name))
               else (Ledger(s.triedUrls + [q.url], reserved, s.files[name := image]), Saved(name))
  {
    ResolveFindsFirst(s.files, q.stem.slug, q.stem.ext, p.md5(q.fetched.value), p.md5, 0, k);
  }

  /** The converse of `StepFindsCopyOnDisk`: new image content whose
      candidates up to round `k` are files with other content, and whose
      round-`k` name is a file with the same hash, ends the call there with
      nothing changed. */
  lemma StepSameOnDisk(s: Ledger, q: Request, limit: Option<int>, p: Probes, k: nat)
    requires q.url !in s.triedUrls && q.fetched.Some? && p.isImage(q.fetched.value)
    requires p.md5(q.fetched.value) !in s.imageMd5s
    requires forall j :: 0 <= j < k ==> Clash(s.files, q.stem.slug, q.stem.ext, p.md5(q.fetched.value), p.md5, j)
    requires CandidateName(q.stem.slug, q.stem.ext, k) in s.files
    requires p.md5(s.files[CandidateName(q.stem.slug, q.stem.ext, k)]) == p.md5(q.fetched.value)
    ensures Step(s, q, limit, p) == (s, AlreadyOnDisk(CandidateName(q.stem.slug, q.stem.ext, k)))
  {
    ResolveFindsFirst(s.files, q.stem.slug, q.stem.ext, p.md5(q.fetched.value), p.md5, 0, k);
  }

  /** A second copy of content already saved, under any URL and name, is
      skipped as a duplicate of the first file and writes nothing. */
  lemma SecondCopyIsDuplicate(s: Ledger, q1: Request, q2: Request, limit: Option<int>, p: Probes)
    requires Step(s, q1, limit, p).1.Saved?
    requires q2.url !in Step(s, q1, limit, p).0.triedUrls
    requires q2.fetched.Some? && p.isImage(q2.fetched.value)
    requires p.md5(q2.fetched.value) == p.md5(q1.fetched.value)
    ensures var (s1, out1) := Step(s, q1, limit, p);
            Step(s1, q2, limit, p) == (s1, DuplicateContent(out1.filename))
  {
    StepSaves(s, q1, limit, p);
  }

  /** A run of calls only extends the state. */
  lemma {:induction false} RunExtends(s: Ledger, qs: seq<Request>, limit: Option<int>, p: Probes)
    ensures Extends(s, Run(s, qs, limit, p))
  {
    if qs != [] {
      var before := Run(s, qs[..|qs| - 1], limit, p);
      RunExtends(s, qs[..|qs| - 1], limit, p);
      StepExtends(before, qs[|qs| - 1], limit, p);
      ExtendsTransitive(s, before, Run(s, qs, limit, p));
    }
  }

  /** However many calls are made, a run that starts within the limit `n` ends
      within it, so it writes at most `n` files. */
  lemma {:induction false} RunWithinLimit(s: Ledger, qs: seq<Request>, n: int, p: Probes)
    requires |s.triedUrls| <= n
    ensures |Run(s, qs, Some(n), p).triedUrls| <= n
    ensures |Run(s, qs, Some(n), p).files| - |s.files| <= n - |s.triedUrls|
  {
    if qs != [] {
      RunWithinLimit(s, qs[..|qs| - 1], n, p);
      StepWithinLimit(Run(s, qs[..|qs| - 1], Some(n), p), qs[|qs| - 1], Some(n), p);
    }
    RunExtends(s, qs, Some(n), p);
  }

  /** The state after the first `k` calls of a run is extended by the state
      after all of them. */
  lemma {:induction false} RunPrefixExtends(s: Ledger, qs: seq<Request>, k: nat, limit: Option<int>, p: Probes)
    requires k <= |qs|
    ensures Extends(Run(s, qs[..k], limit, p), Run(s, qs, limit, p))
  {
    if k == |qs| {
      assert qs[..k] == qs;
    } else {
      var init := qs[..|qs| - 1];
      RunPrefixExtends(s, init, k, limit, p);
      assert init[..k] == qs[..k];
      StepExtends(Run(s, init, limit, p), qs[|qs| - 1], limit, p);
      ExtendsTransitive(Run(s, qs[..k], limit, p), Run(s, init, limit, p), Run(s, qs, limit, p));
    }
  }

  /** A run never puts a URL in the list twice. */
  lemma {:induction false} RunKeepsNoDups(s: Ledger, qs: seq<Request>, limit: Option<int>, p: Probes)
    requires NoDups(s.triedUrls)
    ensures NoDups(Run(s, qs, limit, p).triedUrls)
  {
    if qs != [] {
      RunKeepsNoDups(s, qs[..|qs| - 1], limit, p);
      StepKeepsNoDups(Run(s, qs[..|qs| - 1], limit, p), qs[|qs| - 1], limit, p);
    }
  }
}
