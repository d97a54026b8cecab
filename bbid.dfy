/** The downloader's mutable state (`tried_urls`, `image_md5s` and the output
    directory) as a class, with `download`, the paging loop of
    `fetch_images_from_keyword`, and the history snapshot and restore as its
    methods. Each method is proved against the value-level definitions of the
    `Ledger` module. */
module Bbid {
  import opened Text
  import opened FileName
  import opened Ledger
  import opened Slug

  /** A search result, the JSON object of an `m` attribute: the three fields
      the paging loop reads (the image URL, its description and its title)
      and every other key with the JSON text of its value, so that two
      results are equal exactly when the whole objects are. */
  datatype Meta = Meta(murl: string, desc: string, t: string, others: map<string, string>)

  /** What `backup_history` writes: the URL list and the hash index. */
  datatype History = History(triedUrls: seq<string>, imageMd5s: map<Hash, string>)

  /** Why the paging loop ended. */
  datatype Stop = NoResults | RepeatedPage | LimitExit

  function Snapshot(s: Ledger): (h: History)
    ensures h.triedUrls == s.triedUrls && h.imageMd5s == s.imageMd5s
  {
    History(s.triedUrls, s.imageMd5s)
  }

  /** The state at start-up: the saved history if there is one, otherwise an
      empty list and an empty index, over the directory as found. */
  function Restore(saved: Option<History>, files: map<string, Bytes>): (s: Ledger)
    ensures s.files == files
    ensures saved.None? ==> s.triedUrls == [] && s.imageMd5s == map[]
    ensures saved.Some? ==> Snapshot(s) == saved.value
  {
    match saved
    case None => Ledger([], map[], files)
    case Some(h) => Ledger(h.triedUrls, h.imageMd5s, files)
  }

  /** Restoring a snapshot over the same directory gives back the state it
      was taken from. */
  lemma RestoreSnapshot(s: Ledger)
    ensures Restore(Some(Snapshot(s)), s.files) == s
  {
  }

  /** The request `download` gets for a search result: its URL, the name and
      extension derived from the URL and the name `desc - t`, and what
      fetching the URL gives. */
  function ToRequest(m: Meta, fetch: string -> Option<Bytes>): Request {
    Request(m.murl, NameAndExt(m.murl, m.desc + " - " + m.t), fetch(m.murl))
  }

  /** `calls` are the requests made for the results `metas`: one each, in
      order. */
  ghost predicate Made(calls: seq<Request>, metas: seq<Meta>, fetch: string -> Option<Bytes>) {
    && |calls| == |metas|
    && forall k {:trigger ToRequest(metas[k], fetch)} :: 0 <= k < |metas| ==> calls[k] == ToRequest(metas[k], fetch)
  }

  lemma MadeAppend(calls: seq<Request>, metas: seq<Meta>, m: Meta, fetch: string -> Option<Bytes>)
    requires Made(calls, metas, fetch)
    ensures Made(calls + [ToRequest(m, fetch)], metas + [m], fetch)
  {
    var next, more := calls + [ToRequest(m, fetch)], metas + [m];
    forall k | 0 <= k < |more|
      ensures next[k] == ToRequest(more[k], fetch)
    {
      if k < |metas| {
        assert more[k] == metas[k];
        assert ToRequest(metas[k], fetch) == calls[k];
      }
    }
  }

  /** The page of results the search gives at offset `off`. */
  function Page(search: nat -> seq<Meta>, off: nat): seq<Meta> {
    search(off)
  }

  /** A search feed that is empty from offset `total` on. */
  ghost predicate Finite(search: nat -> seq<Meta>, total: nat) {
    forall off: nat :: total <= off ==> Page(search, off) == []
  }

  /** Every search result, page after page, from offset `off` up to the first
      empty page: each page is requested at the offset just past the one
      before. */
  ghost function Feed(search: nat -> seq<Meta>, total: nat, off: nat): seq<Meta>
    requires Finite(search, total)
    decreases total - off
  {
    if Page(search, off) == [] then [] else Page(search, off) + Feed(search, total, off + |Page(search, off)|)
  }

  /** The feed from `off` is empty exactly when the page at `off` is. */
  lemma FeedEmpty(search: nat -> seq<Meta>, total: nat, off: nat)
    requires Finite(search, total)
    ensures Feed(search, total, off) == [] <==> Page(search, off) == []
  {
  }

  /** Handing on the first `count` results of the page at `off` moves them
      from the rest of the feed to what has been handed on: `next` is then a
      prefix of the feed, and when the whole page went, the feed goes on at
      `cur`, the offset just past the page. */
  lemma FeedAdvance(search: nat -> seq<Meta>, total: nat, seen: seq<Meta>, off: nat, count: nat, next: seq<Meta>, cur: nat)
    requires Finite(search, total)
    requires Feed(search, total, 0) == seen + Feed(search, total, off)
    requires Page(search, off) != [] && count <= |Page(search, off)|
    requires |seen| == off
    requires next == seen + Page(search, off)[..count] && cur == off + count
    ensures cur <= |Feed(search, total, 0)| && next == Feed(search, total, 0)[..cur]
    ensures count < |Page(search, off)| ==> cur < |Feed(search, total, 0)|
    ensures count == |Page(search, off)| ==> Feed(search, total, 0) == next + Feed(search, total, cur)
  {
    var page := Page(search, off);
    var tail := Feed(search, total, off + |page|);
    FeedStep(search, total, off);
    TakeFrom(Feed(search, total, 0), seen, page, tail, count);
    if count == |page| {
      assert Feed(search, total, cur) == tail;
    }
  }

  /** A page that is not empty is followed by the feed from the offset just
      past it. */
  lemma FeedStep(search: nat -> seq<Meta>, total: nat, off: nat)
    requires Finite(search, total) && Page(search, off) != []
    ensures Feed(search, total, off) == Page(search, off) + Feed(search, total, off + |Page(search, off)|)
  {
  }

  /** What has been handed on is a prefix of the feed, and all of it once
      the page at `off` is empty. */
  lemma FeedPrefix(search: nat -> seq<Meta>, total: nat, seen: seq<Meta>, off: nat)
    requires Finite(search, total)
    requires Feed(search, total, 0) == seen + Feed(search, total, off)
    requires |seen| == off
    ensures off <= |Feed(search, total, 0)| && seen == Feed(search, total, 0)[..off]
    ensures Page(search, off) == [] ==> seen == Feed(search, total, 0)
  {
    PrefixOf(seen, Feed(search, total, off));
    if Page(search, off) == [] {
      assert seen + [] == seen;
    }
  }

  lemma AppendAt<T>(a: seq<T>, b: seq<T>, i: nat)
    requires i < |b|
    ensures (a + b[..i]) + [b[i]] == a + b[..i + 1]
  {
    assert b[..i + 1] == b[..i] + [b[i]];
  }

  lemma SplitAt<T>(a: seq<T>, b: seq<T>, c: seq<T>, i: nat)
    requires i <= |b|
    ensures a + (b + c) == (a + b[..i]) + (b[i..] + c)
    ensures a + (b + c) == (a + b) + c
  {
    assert b == b[..i] + b[i..];
  }

  /** Taking the first `count` items of `page` off the front of what follows
      `seen` in `all`. */
  lemma TakeFrom<T>(all: seq<T>, seen: seq<T>, page: seq<T>, tail: seq<T>, count: nat)
    requires all == seen + (page + tail) && count <= |page|
    ensures |seen| + count <= |all| && all[..|seen| + count] == seen + page[..count]
    ensures count < |page| ==> |seen| + count < |all|
    ensures count == |page| ==> all == seen + page[..count] + tail
  {
    SplitAt(seen, page, tail, count);
    PrefixOf(seen + page[..count], page[count..] + tail);
    if count == |page| {
      assert page[count..] + tail == tail;
    }
  }

  lemma PrefixOf<T>(a: seq<T>, b: seq<T>)
    ensures (a + b)[..|a|] == a
  {
  }

  /** The list of tried URLs in `s` is below the limit, the check made in
      front of each `download`. */
  ghost predicate Below(s: Ledger, limit: Option<int>) {
    limit.None? || |s.triedUrls| < limit.value
  }

  /** `states` are the states the calls `calls` went through, from `s0` on:
      each call was made in the state before it while the list was below the
      limit, and left the state after it. */
  ghost predicate Traced(s0: Ledger, calls: seq<Request>, states: seq<Ledger>, limit: Option<int>, p: Probes) {
    && |states| == |calls| + 1 && states[0] == s0
    && forall k {:trigger calls[k]} :: 0 <= k < |calls| ==>
         Below(states[k], limit) && states[k + 1] == Step(states[k], calls[k], limit, p).0
  }

  /** One more call, made below the limit, extends the trace by its state. */
  lemma TracedAppend(s0: Ledger, calls: seq<Request>, states: seq<Ledger>, q: Request, limit: Option<int>, p: Probes)
    requires Traced(s0, calls, states, limit, p)
    requires Below(states[|calls|], limit)
    ensures Traced(s0, calls + [q], states + [Step(states[|calls|], q, limit, p).0], limit, p)
  {
    var calls', states' := calls + [q], states + [Step(states[|calls|], q, limit, p).0];
    forall k | 0 <= k < |calls'|
      ensures Below(states'[k], limit) && states'[k + 1] == Step(states'[k], calls'[k], limit, p).0
    {
      if k < |calls| {
        assert calls[k] == calls'[k];
      }
    }
  }

  /** The trace is the run: the state after the first `k` calls is the one
      `Run` gives for them. */
  lemma {:induction false} TracedRun(s0: Ledger, calls: seq<Request>, states: seq<Ledger>, limit: Option<int>, p: Probes, k: nat)
    requires Traced(s0, calls, states, limit, p) && k <= |calls|
    ensures states[k] == Run(s0, calls[..k], limit, p)
  {
    if k > 0 {
      TracedRun(s0, calls, states, limit, p, k - 1);
      assert calls[..k][..k - 1] == calls[..k - 1];
      assert calls[k - 1] == calls[..k][k - 1];
    }
  }

  /** Each call in the trace was made in a state of the run that was below
      the limit. */
  lemma TracedBelow(s0: Ledger, calls: seq<Request>, states: seq<Ledger>, limit: Option<int>, p: Probes, k: nat)
    requires Traced(s0, calls, states, limit, p) && k < |calls|
    ensures Below(Run(s0, calls[..k], limit, p), limit)
  {
    TracedRun(s0, calls, states, limit, p, k);
    assert calls[k] in calls;
  }

  /** The calls of `download` made for the results `dispatched`, in order,
      each while the list was below the limit, took the state from `s0`
      through `states` to `now`. */
  ghost predicate Logged(fetch: string -> Option<Bytes>, limit: Option<int>, p: Probes,
                         s0: Ledger, now: Ledger, dispatched: seq<Meta>, calls: seq<Request>, states: seq<Ledger>)
  {
    Made(calls, dispatched, fetch) && Traced(s0, calls, states, limit, p) && now == states[|calls|]
  }

  function LastOf(page: seq<Meta>): Meta
    requires page != []
  {
    page[|page| - 1]
  }

  /** The pages from offset `off` up to offset `current`, requested one after
      the other with `before` the last result of the page before `off`: none
      was empty, none ended in the result that ended the page before it, and
      `last` is the last result of the page that ended at `current` (or
      `before` when there was none). */
  ghost predicate Walk(search: nat -> seq<Meta>, off: nat, before: Option<Meta>, current: nat, last: Option<Meta>)
    decreases current - off
  {
    if off >= current then off == current && last == before
    else
      && Page(search, off) != [] && before != Some(LastOf(Page(search, off)))
      && Walk(search, off + |Page(search, off)|, Some(LastOf(Page(search, off))), current, last)
  }

  /** A page that is neither empty nor a repeat extends the walk past it. */
  lemma {:induction false} WalkExtend(search: nat -> seq<Meta>, off: nat, before: Option<Meta>, current: nat, last: Option<Meta>)
    requires Walk(search, off, before, current, last)
    requires Page(search, current) != [] && last != Some(LastOf(Page(search, current)))
    ensures Walk(search, off, before, current + |Page(search, current)|, Some(LastOf(Page(search, current))))
    decreases current - off
  {
    if off < current {
      WalkExtend(search, off + |Page(search, off)|, Some(LastOf(Page(search, off))), current, last);
    }
  }

  /** Between two turns of the paging loop: `dispatched`, the results handed
      on so far, run from the start of the feed up to offset `current`, where
      the rest of the feed begins; every page before `current` went on whole,
      none was a repeat, and `last` is the last result of the page before. */
  ghost predicate Paging(search: nat -> seq<Meta>, total: nat, dispatched: seq<Meta>, current: nat, last: Option<Meta>)
  {
    && Finite(search, total)
    && Feed(search, total, 0) == dispatched + Feed(search, total, current) && |dispatched| == current
    && Walk(search, 0, None, current, last)
  }

  /** How the paging loop ends. `dispatched`, the results handed on, are the
      first `current` results of the feed. The last page requested began at
      `pageAt`; every page before it went on whole and was not a repeat, and
      `last` is the last result of the page before it. The loop stopped at
      an empty page, after the whole feed; at the first page that ended in
      the result that ended the page before; or inside a page that was not a
      repeat, with results left, once the list of URLs in the state `now` had
      reached the limit. */
  ghost predicate Finished(search: nat -> seq<Meta>, total: nat, limit: Option<int>, now: Ledger,
                           current: nat, stop: Stop, dispatched: seq<Meta>, pageAt: nat, last: Option<Meta>)
    requires Finite(search, total)
  {
    && current == |dispatched| <= |Feed(search, total, 0)|
    && dispatched == Feed(search, total, 0)[..current]
    && Walk(search, 0, None, pageAt, last)
    && (stop.NoResults? ==> pageAt == current && Page(search, current) == [] && dispatched == Feed(search, total, 0))
    && (stop.RepeatedPage? ==>
          pageAt == current && Page(search, current) != [] && last == Some(LastOf(Page(search, current))))
    && (stop.LimitExit? ==>
          && Page(search, pageAt) != [] && last != Some(LastOf(Page(search, pageAt)))
          && pageAt <= current < pageAt + |Page(search, pageAt)|
          && current < |Feed(search, total, 0)| && limit.Some? && |now.triedUrls| >= limit.value)
  }

  /** A turn that stops before handing anything on: at an empty page, which
      means the whole feed went, or at a page ending in the result that ended
      the page before. */
  lemma StopBeforePage(search: nat -> seq<Meta>, total: nat, limit: Option<int>, now: Ledger,
                       done: seq<Meta>, current: nat, last: Option<Meta>, stop: Stop)
    requires Paging(search, total, done, current, last)
    requires || (Page(search, current) == [] && stop == NoResults)
             || (Page(search, current) != [] && last == Some(LastOf(Page(search, current))) && stop == RepeatedPage)
    ensures Finished(search, total, limit, now, current, stop, done, current, last)
  {
    FeedPrefix(search, total, done, current);
  }

  /** A turn that hands on the first `count` results of a page that is
      neither empty nor a repeat: if that was the whole page, the loop goes on
      past it, remembering its last result; otherwise the limit cut it short
      and the loop ends. */
  lemma AfterPage(search: nat -> seq<Meta>, total: nat, limit: Option<int>, now: Ledger,
                  done: seq<Meta>, current: nat, last: Option<Meta>, count: nat)
    requires Paging(search, total, done, current, last)
    requires Page(search, current) != [] && last != Some(LastOf(Page(search, current)))
    requires count <= |Page(search, current)|
    requires count < |Page(search, current)| ==> limit.Some? && |now.triedUrls| >= limit.value
    ensures var page := Page(search, current);
            var next := done + page[..count];
            && current < total
            && (count == |page| ==> Paging(search, total, next, current + count, Some(LastOf(page))))
            && (count < |page| ==> Finished(search, total, limit, now, current + count, LimitExit, next, current, last))
  {
    var page := Page(search, current);
    var next := done + page[..count];
    FeedAdvance(search, total, done, current, count, next, current + count);
    if count == |page| {
      WalkExtend(search, 0, None, current, last);
    }
  }

  class Downloader {
    var triedUrls: seq<string>
    var imageMd5s: map<Hash, string>
    var files: map<string, Bytes>
    /** The MD5 digest and the image sniffer. */
    const probes: Probes

    function State(): Ledger
      reads this
    {
      Ledger(triedUrls, imageMd5s, files)
    }

    /** Start-up: load the saved history if there is one, else begin with an
        empty list and an empty index. */
    constructor (saved: Option<History>, dir: map<string, Bytes>, p: Probes)
      ensures State() == Restore(saved, dir)
      ensures probes == p
    {
      match saved {
        case None =>
          triedUrls := [];
          imageMd5s := map[];
        case Some(h) =>
          triedUrls := h.triedUrls;
          imageMd5s := h.imageMd5s;
      }
      files := dir;
      probes := p;
    }

    /** `backup_history`: a copy of the list and of the index. */
    method BackupHistory() returns (snapshot: History)
      ensures snapshot == Snapshot(State())
    {
      snapshot := History(triedUrls, imageMd5s);
    }

    /** `download` for one URL, with `fetched` the bytes the fetch gave or
        `None` when it raised. */
    method Download(url: string, name: string, fetched: Option<Bytes>, limit: Option<int>) returns (outcome: Outcome)
      modifies this
      ensures (State(), outcome) == Step(old(State()), Request(url, NameAndExt(url, name), fetched), limit, probes)
      ensures Extends(old(State()), State())
    {
      var stem := NameAndExt(url, name);
      ghost var before := State();
      outcome := DownloadAs(url, stem, fetched, limit);
      StepExtends(before, Request(url, stem, fetched), limit, probes);
    }

    /** The body of `download` once the base name and extension are known. */
    method DownloadAs(url: string, stem: Stem, fetched: Option<Bytes>, limit: Option<int>) returns (outcome: Outcome)
      modifies this
      ensures (State(), outcome) == Step(old(State()), Request(url, stem, fetched), limit, probes)
    {
      if url in triedUrls {
        return AlreadyTried;
      }
      if fetched.None? {
        return FetchFailed;
      }
      var image := fetched.value;
      if !probes.isImage(image) {
        return InvalidImage;
      }
      var md5Key := probes.md5(image);
      if md5Key in imageMd5s {
        return DuplicateContent(imageMd5s[md5Key]);
      }
      var filename, onDisk := FreeName(stem.slug, stem.ext, md5Key);
      if onDisk {
        return AlreadyOnDisk(filename);
      }
      imageMd5s := imageMd5s[md5Key := filename];
      if limit.Some? && |triedUrls| >= limit.value {
        return LimitReached(filename);
      }
      files := files[filename := image];
      triedUrls := triedUrls + [url];
      outcome := Saved(filename);
    }

    /** The collision loop of `download`: starting from the plain name, try
        `slug-1`, `slug-2`, ... until a name is free (`onDisk` false) or names
        a file whose content has hash `md5Key` (`onDisk` true). */
    method FreeName(slug: string, ext: string, md5Key: Hash) returns (filename: string, onDisk: bool)
      ensures var res := Resolve(files, slug, ext, md5Key, probes.md5, 0);
              filename == CandidateName(slug, ext, res.index) && onDisk == res.SameContent?
    {
      filename := Replace(slug + ext, ".gifv", ".gif");
      var i: nat := 0;
      ghost var stop := Resolve(files, slug, ext, md5Key, probes.md5, 0);
      ResolveStops(files, slug, ext, md5Key, probes.md5, 0);
      while filename in files
        invariant filename == CandidateName(slug, ext, i)
        invariant Resolve(files, slug, ext, md5Key, probes.md5, i) == stop && i <= stop.index
        decreases stop.index - i
      {
        ResolveAt(files, slug, ext, md5Key, probes.md5, i);
        if probes.md5(files[filename]) == md5Key {
          return filename, true;
        }
        i := i + 1;
        filename := slug + "-" + NatToString(i) + ext;
      }
      ResolveAt(files, slug, ext, md5Key, probes.md5, i);
      onDisk := false;
    }

    /** The paging loop of `fetch_images_from_keyword`. `search(off)` is the
        page of results the search returns at offset `off`, which is empty
        from `total` on; `fetch` gives what fetching a URL gives. Each result
        is handed to `Download` in order, and `current` counts them. The loop
        ends on an empty page, on a page whose last result is the last result
        of the page before, or, before a result is handed on, once the list
        has reached the limit. */
    method FetchImagesFromKeyword(search: nat -> seq<Meta>, ghost total: nat, fetch: string -> Option<Bytes>, limit: Option<int>)
      returns (current: nat, stop: Stop, ghost dispatched: seq<Meta>, ghost calls: seq<Request>, ghost states: seq<Ledger>,
               ghost pageAt: nat, ghost last: Option<Meta>)
      requires Finite(search, total)
      modifies this
      ensures Finished(search, total, limit, State(), current, stop, dispatched, pageAt, last)
      ensures Logged(fetch, limit, probes, old(State()), State(), dispatched, calls, states)
    {
      ghost var s0 := State();
      dispatched, calls, states := [], [], [s0];
      current := 0;
      var previous: Option<Meta> := None;
      assert Feed(search, total, 0) == dispatched + Feed(search, total, current);
      while true
        invariant Paging(search, total, dispatched, current, previous)
        invariant Logged(fetch, limit, probes, s0, State(), dispatched, calls, states)
        decreases if current <= total then total - current else 0
      {
        var ended;
        ended, current, previous, dispatched, calls, states, pageAt, last :=
          Turn(search, total, fetch, limit, s0, dispatched, calls, states, current, previous);
        if ended.Some? {
          stop := ended.value;
          return;
        }
      }
    }

    /** One turn of the paging loop: request the page at `current`; stop if
        it is empty or ends in the result that ended the page before;
        otherwise hand its results on, and stop if the limit cut the page
        short. `pageAt` and `before` are the offset of the page requested and
        the last result of the page before it. */
    method Turn(search: nat -> seq<Meta>, ghost total: nat, fetch: string -> Option<Bytes>, limit: Option<int>, ghost s0: Ledger,
                ghost done: seq<Meta>, ghost doneCalls: seq<Request>, ghost doneStates: seq<Ledger>, current: nat, last: Option<Meta>)
      returns (ended: Option<Stop>, next: nat, nextLast: Option<Meta>, ghost nextDone: seq<Meta>, ghost nextCalls: seq<Request>,
               ghost nextStates: seq<Ledger>, ghost pageAt: nat, ghost before: Option<Meta>)
      requires Paging(search, total, done, current, last)
      requires Logged(fetch, limit, probes, s0, State(), done, doneCalls, doneStates)
      modifies this
      ensures pageAt == current && before == last
      ensures ended == Some(NoResults) <==> Page(search, current) == []
      ensures ended == Some(RepeatedPage) <==> Page(search, current) != [] && last == Some(LastOf(Page(search, current)))
      ensures Logged(fetch, limit, probes, s0, State(), nextDone, nextCalls, nextStates)
      ensures ended.None? ==> Paging(search, total, nextDone, next, nextLast) && current < next && current < total
      ensures ended.Some? ==> Finished(search, total, limit, State(), next, ended.value, nextDone, pageAt, before)
    {
      pageAt, before := current, last;
      var metas := Page(search, current);
      if metas == [] {
        StopBeforePage(search, total, limit, State(), done, current, last, NoResults);
        return Some(NoResults), current, last, done, doneCalls, doneStates, pageAt, before;
      }
      if last == Some(metas[|metas| - 1]) {
        StopBeforePage(search, total, limit, State(), done, current, last, RepeatedPage);
        return Some(RepeatedPage), current, last, done, doneCalls, doneStates, pageAt, before;
      }
      ended, next, nextLast, nextDone, nextCalls, nextStates :=
        HandOnPage(search, total, fetch, limit, s0, done, doneCalls, doneStates, current, last);
    }

    /** The rest of a turn, for a page that is neither empty nor a repeat:
        hand its results on, and stop if the limit cut the page short. */
    method HandOnPage(search: nat -> seq<Meta>, ghost total: nat, fetch: string -> Option<Bytes>, limit: Option<int>, ghost s0: Ledger,
                      ghost done: seq<Meta>, ghost doneCalls: seq<Request>, ghost doneStates: seq<Ledger>, current: nat, last: Option<Meta>)
      returns (ended: Option<Stop>, next: nat, nextLast: Option<Meta>, ghost nextDone: seq<Meta>, ghost nextCalls: seq<Request>,
               ghost nextStates: seq<Ledger>)
      requires Paging(search, total, done, current, last)
      requires Page(search, current) != [] && last != Some(LastOf(Page(search, current)))
      requires Logged(fetch, limit, probes, s0, State(), done, doneCalls, doneStates)
      modifies this
      ensures ended == None || ended == Some(LimitExit)
      ensures Logged(fetch, limit, probes, s0, State(), nextDone, nextCalls, nextStates)
      ensures ended.None? ==> Paging(search, total, nextDone, next, nextLast) && current < next && current < total
      ensures ended.Some? ==> Finished(search, total, limit, State(), next, LimitExit, nextDone, current, last)
    {
      var metas := Page(search, current);
      var count;
      count, nextCalls, nextStates := DispatchPage(metas, fetch, limit, s0, done, doneCalls, doneStates);
      AfterPage(search, total, limit, State(), done, current, last, count);
      next := current + count;
      nextLast := Some(metas[|metas| - 1]);
      nextDone := done + metas[..count];
      if count < |metas| {
        ended := Some(LimitExit);
      } else {
        ended := None;
      }
    }

    /** The `for` loop of `fetch_images_from_keyword` over one page: each
        result in turn is handed to `Download` under the name `desc - t`,
        unless the list has already reached the limit, which ends the run
        (`count` results were handed on). */
    method DispatchPage(metas: seq<Meta>, fetch: string -> Option<Bytes>, limit: Option<int>,
                        ghost s0: Ledger, ghost done: seq<Meta>, ghost doneCalls: seq<Request>, ghost doneStates: seq<Ledger>)
      returns (count: nat, ghost calls: seq<Request>, ghost states: seq<Ledger>)
      requires Logged(fetch, limit, probes, s0, State(), done, doneCalls, doneStates)
      modifies this
      ensures count <= |metas|
      ensures Logged(fetch, limit, probes, s0, State(), done + metas[..count], calls, states)
      ensures count < |metas| ==> limit.Some? && |triedUrls| >= limit.value
    {
      calls, states := doneCalls, doneStates;
      assert done + metas[..0] == done;
      for index := 0 to |metas|
        invariant Logged(fetch, limit, probes, s0, State(), done + metas[..index], calls, states)
      {
        var meta := metas[index];
        if limit.Some? && |triedUrls| >= limit.value {
          count := index;
          return;
        }
        var _ := Download(meta.murl, meta.desc + " - " + meta.t, fetch(meta.murl), limit);
        TracedAppend(s0, calls, states, ToRequest(meta, fetch), limit, probes);
        MadeAppend(calls, done + metas[..index], meta, fetch);
        AppendAt(done, metas, index);
        calls, states := calls + [ToRequest(meta, fetch)], states + [State()];
      }
      count := |metas|;
    }
  }

  /** What a paging loop that began in state `s0` leaves behind in `now`: a
      later state, never a URL twice in the list, and, when it began within
      the limit, a list still within it and no more new files than the room
      the limit left. Since each call was made below the limit, no call
      reached the limit branch of `download`. */
  lemma LoggedBounds(fetch: string -> Option<Bytes>, limit: Option<int>, p: Probes,
                     s0: Ledger, now: Ledger, dispatched: seq<Meta>, calls: seq<Request>, states: seq<Ledger>)
    requires Logged(fetch, limit, p, s0, now, dispatched, calls, states)
    ensures now == Run(s0, calls, limit, p)
    ensures Extends(s0, now)
    ensures NoDups(s0.triedUrls) ==> NoDups(now.triedUrls)
    ensures limit.Some? && |s0.triedUrls| <= limit.value ==>
              |now.triedUrls| <= limit.value && |now.files| - |s0.files| <= limit.value - |s0.triedUrls|
    ensures forall k :: 0 <= k < |calls| ==> !Step(Run(s0, calls[..k], limit, p), calls[k], limit, p).1.LimitReached?
  {
    forall k | 0 <= k < |calls|
      ensures !Step(Run(s0, calls[..k], limit, p), calls[k], limit, p).1.LimitReached?
    {
      TracedBelow(s0, calls, states, limit, p, k);
      if Step(Run(s0, calls[..k], limit, p), calls[k], limit, p).1.LimitReached? {
        StepAtLimit(Run(s0, calls[..k], limit, p), calls[k], limit, p);
      }
    }
    TracedRun(s0, calls, states, limit, p, |calls|);
    assert calls[..|calls|] == calls;
    RunExtends(s0, calls, limit, p);
    if NoDups(s0.triedUrls) {
      RunKeepsNoDups(s0, calls, limit, p);
    }
    if limit.Some? && |s0.triedUrls| <= limit.value {
      RunWithinLimit(s0, calls, limit.value, p);
    }
  }
}
