# Bulk Bing image downloader: a verified model of its core

This project models the core of `bbid/bbid.py`, a script that pages through Bing's
image search for a keyword and saves every image it finds into a directory. Run one call at
a time, as the model runs them, it never saves a URL twice, never saves content whose
hash is indexed, and never overwrites a file. Content already on disk is caught only under one of the candidate names. The model
covers four parts:

- **The file name for a URL.** `slugify`, the cut of the suggested name to 36
  characters, and the extension taken from the URL's path. The extension defaults to
  `.gif`, and `.gifv` becomes `.gif` (modules `Text`, `Slug`, `Url`, `FileName`).
- **What one call of `download` does.** It acts on the list of tried URLs, the index
  from content hash to file name, and the output directory:
  - it skips a URL already tried, a failed fetch, bytes that are not an image, and
    content already indexed;
  - it tries `name.ext`, then `name-1.ext`, `name-2.ext`, … until a name is free or
    holds the same content;
  - it reserves the hash, and stops at the limit or writes the file and records the
    URL.

  `Ledger.Step` states this as a function on values. `Ledger.Run` is a run of calls.
- **The paging loop of `fetch_images_from_keyword`.** It requests the page at offset
  `current`. It stops on an empty page, or on a page whose last result is the last
  result of the page before. Otherwise it hands each result to `download`, and stops
  once the list has reached the limit.
- **The copy taken by `backup_history`, and the load at start-up.**

The state the script keeps in globals is the class `Bbid.Downloader`. It has fields
`triedUrls`, `imageMd5s` and `files`. Its methods `Download`, `FreeName` (the `while`
loop that resolves name collisions) and `FetchImagesFromKeyword` (the `while True`
loop) are imperative. Each is proved against the value-level `Step`, `Resolve` and
`Run`, and the properties are proved as lemmas about those functions.

Three behaviours of the code are easy to misread, and the model follows the code in
each:
- The loop stops when a page's *last result* equals the last result of the page
  before. It compares those two JSON objects, not the whole pages.
- `.gifv` is rewritten only in the plain name. The numbered names `name-i.ext` use the
  extension as it came from the URL.
- The limit counts the entries of `tried_urls`, including URLs restored from the saved
  history. It counts every entry, not only this session's saves.

## Model

| member | source | states |
|---|---|---|
| Slug.Slugify | bbid/bbid.py:37-43 | the result is a slug: only `a-z`, `0-9`, `_` and `-`, no `-` or `_` at either end, never `--`; and it is no longer than the input |
| Slug.SlugifyKeepsAlnum | bbid/bbid.py:41-43 | the ASCII letters and digits of the result are exactly those of the input, lower-cased and in order |
| Slug.SlugifyIdempotent | bbid/bbid.py:37-43 | slugging a slug gives it back unchanged |
| Slug.Collapse | bbid/bbid.py:43 | `re.sub(r'[-\s]+', '-', …)` leaves no two hyphens in a row and starts with a hyphen only where the input started with a hyphen or whitespace |
| Slug.CollapseOfRun | bbid/bbid.py:43 | a run of hyphens and whitespace at the start, followed by text that does not start with one, becomes exactly one hyphen |
| Slug.CollapseSplitsAtRun | bbid/bbid.py:43 | a maximal run of hyphens and whitespace between two texts becomes exactly one hyphen, and the texts on either side are collapsed on their own |
| Slug.CollapseKeepsContent | bbid/bbid.py:43 | what is not a hyphen after the collapse is exactly what was neither hyphen nor whitespace before it, in order |
| Slug.AsciiFold | bbid/bbid.py:41 | the fold keeps only ASCII characters, and leaves ASCII text unchanged |
| Slug.AsciiFoldAppend | bbid/bbid.py:41 | the fold works character by character: it folds two halves apart, and a character outside ASCII folds to nothing |
| Slug.AsciiLower | bbid/bbid.py:42 | `.lower()` on the folded text keeps its length, lower-cases each letter `A`-`Z` and leaves every other character as it is, so no capital ASCII letter is left |
| Url.UrlPath | bbid/bbid.py:56 | the path that `urlsplit` gives holds no `?` and no `#` |
| Url.UrlPathOfParts | bbid/bbid.py:56 | a URL built from a scheme, a host, a path and, optionally, a query splits back to exactly that path, with or without a query |
| Url.Basename | bbid/bbid.py:57 | the basename is the suffix of the path after its last `/`, and holds no `/` |
| Url.BasenameAfterSlash | bbid/bbid.py:57 | the basename of a path ending in `/` and then a segment without `/` is that segment |
| Url.SplitExt | bbid/bbid.py:58 | root and extension concatenate back to the name; the extension is empty or a dot followed by text with no dot or `/` |
| Url.SplitExtFinds | bbid/bbid.py:58 | `splitext` finds an extension exactly when the last segment has a dot with some other character in front of it |
| FileName.CutNameShape | bbid/bbid.py:62 | the cut name is a prefix of the stripped name; what it leaves out of the first 36 characters is whitespace; a stripped name of at most 36 characters is kept whole |
| FileName.CutName | bbid/bbid.py:62 | the cut name has at most 36 characters and no whitespace at either end |
| FileName.UrlFileName | bbid/bbid.py:56-57 | the URL's file name holds no `/` and no `?` |
| FileName.UrlFileNameOfParts | bbid/bbid.py:56-57 | the file name of a URL whose path ends in `/seg` is `seg`, with or without a query |
| FileName.SplitExtOfParts | bbid/bbid.py:58 | a file name made of a root and an extension splits back into the two; a name without a dot has no extension |
| FileName.NameAndExt | bbid/bbid.py:56-66 | the base name is a slug of at most 36 characters, and the extension is a dot followed by text with no other dot |
| FileName.DerivedFilename | bbid/bbid.py:56-66 | for a URL whose path ends in `/root.ext`, with or without a query: the base name is the slug of the cut suggested name, or of the cut `root` when no name is given; the extension is `.ext`, or `.gif` when the URL has none; the plain file name is the two together with a leading `.gifv` made `.gif` |
| FileName.BaseCandidate | bbid/bbid.py:66 | `(slug + ext).replace('.gifv', '.gif')` changes only a `.gifv` at the head of the extension |
| FileName.CandidateName | bbid/bbid.py:66-88 | the name tried at round `i` of the collision loop; its values are stated by `BaseCandidate` (round 0 is the plain name, `.gifv` made `.gif`) rounds `1, 2, …` give `slug-i.ext` with the extension as it came, and `NumberedDistinct` and `CandidatesDistinct` state that all rounds give different names |
| FileName.NumberedDistinct | bbid/bbid.py:88 | `name-i.ext` and `name-j.ext` differ whenever `i` and `j` differ |
| FileName.CandidatesDistinct | bbid/bbid.py:82-88 | the collision loop never tries the same name twice |
| Text.NatToString | bbid/bbid.py:88 | the `%d` rendering is never empty and starts with `0` only for the number 0 |
| Text.NatToStringRoundTrip | bbid/bbid.py:88 | the `%d` rendering of a number is all digits and reads back as that number |
| Ledger.ResolveStops | bbid/bbid.py:82-88 | the collision loop stops at or after the round it starts from, at a free name or at a file with the new content's hash; every name it passes is a file with other content |
| Ledger.ResolveFindsFirst | bbid/bbid.py:82-88 | the converse: when every round up to `k` meets a file with other content and round `k` does not, the loop stops at round `k` |
| Ledger.ResolveAt | bbid/bbid.py:83-88 | one round of the loop: a free name or a file with the same hash ends it, and any other file sends it on to the next round, so it stops later |
| Ledger.Resolve | bbid/bbid.py:82-88 | the `while` loop over candidate names, as a function: it stops no earlier than the round it starts from, and it stops at a name that is free or at a file whose content has the new content's hash; `ResolveStops` adds that every name passed is a file with other content, and `ResolveFindsFirst` that it stops at the first such round |
| Ledger.Step | bbid/bbid.py:50-101 | a call changes the state only when it saves or stops at the limit |
| Ledger.StepSkipsTriedUrl | bbid/bbid.py:50-52 | a URL already in the list leaves everything unchanged, whatever its fetch would give |
| Ledger.StepIgnoresBadFetch | bbid/bbid.py:68-74 | a failed fetch, or bytes that are not an image, change nothing, and the outcome says which |
| Ledger.StepSkipsIndexedContent | bbid/bbid.py:77-80 | content whose hash is indexed changes nothing, and the outcome names the file indexed for it |
| Ledger.StepFindsCopyOnDisk | bbid/bbid.py:82-86 | a call that ends at a copy on disk changed nothing, was for new image content, and stopped at a file with the same hash after candidates that are all files with other content |
| Ledger.StepSameOnDisk | bbid/bbid.py:82-86 | the converse: new image content whose candidates before round `k` are files with other content, and whose round-`k` name is a file with the same hash, ends the call there with nothing changed |
| Ledger.StepAtLimit | bbid/bbid.py:90-95 | a call that stops at the limit was for new image content at the limit; it writes nothing, leaves the list alone, and reserves the hash under the first candidate name that is free |
| Ledger.StepSaves | bbid/bbid.py:82-101 | a save happens only below the limit and for new content; it writes the bytes under the first free candidate name, after candidates that are all files with other content; it indexes that name under the hash and appends the URL |
| Ledger.StepFirstFree | bbid/bbid.py:82-101 | the converse of the two above: new image content whose candidates before round `k` are files with other content, and whose round-`k` name is free, is saved under that name below the limit and reserved under it at the limit |
| Ledger.StepExtends | bbid/bbid.py:50-101 | a call never changes or removes an index entry or a file; it adds at most the one hash of the fetched bytes, and adds a file exactly when it adds a URL |
| Ledger.StepWithinLimit | bbid/bbid.py:94-101 | the list changes only by appending the URL on a save, and a list within the limit stays within it |
| Ledger.StepKeepsNoDups | bbid/bbid.py:50-52 | a call never puts a URL in the list twice |
| Ledger.SecondCopyIsDuplicate | bbid/bbid.py:77-90 | after a save, the same content under any other URL is skipped as a duplicate of the saved file |
| Ledger.RunExtends | bbid/bbid.py:50-101 | any run of calls only extends the state |
| Ledger.RunPrefixExtends | bbid/bbid.py:50-101 | the state after the first calls of a run is extended by the state after all of them |
| Ledger.RunWithinLimit | bbid/bbid.py:94-101 | a run that starts within a limit `n` ends within it, and writes at most the room left under `n` |
| Ledger.RunKeepsNoDups | bbid/bbid.py:50-52 | a run never puts a URL in the list twice |
| Bbid.Snapshot | bbid/bbid.py:160-164 | the snapshot holds exactly the list and the index |
| Bbid.Restore | bbid/bbid.py:205-211 | start-up takes the saved list and index, or empty ones when there is no history, over the directory as found |
| Bbid.RestoreSnapshot | bbid/bbid.py:160-164 | restoring a snapshot over the same directory gives back the state it was taken from |
| Bbid.Downloader.constructor | bbid/bbid.py:204-211 | the new downloader's state is the restored state |
| Bbid.Downloader.BackupHistory | bbid/bbid.py:160-165 | the method returns a copy of the list and of the index |
| Bbid.Downloader.Download | bbid/bbid.py:45-108 | the new state and the outcome are those `Step` gives for the URL, the base name and extension derived from it, and the fetch; the state only extends |
| Bbid.Downloader.DownloadAs | bbid/bbid.py:68-101 | once the name is derived, the body of `download` gives the state and outcome that `Step` gives |
| Bbid.Downloader.FreeName | bbid/bbid.py:82-88 | the loop ends at the candidate name where `Resolve` stops, and reports whether that file has the same content |
| Bbid.Downloader.FetchImagesFromKeyword | bbid/bbid.py:117-151 | the results handed on are the first `current` results of the feed, each passed to `download` in order while the list was below the limit; every page before the last one requested went on whole and was neither empty nor a repeat; the loop ended at an empty page after the whole feed, at the first page ending like the page before, or inside a page once the list reached the limit |
| Bbid.Downloader.Turn | bbid/bbid.py:119-148 | a turn stops with `NoResults` exactly when the page is empty, and with `RepeatedPage` exactly when its last result is the last result of the page before; otherwise it hands the page on and either keeps the loop's invariant past it or stops at the limit |
| Bbid.Downloader.HandOnPage | bbid/bbid.py:138-148 | a page that is neither empty nor a repeat goes on; if all of it went, the loop continues past it with its last result remembered, otherwise it stops at the limit |
| Bbid.Downloader.DispatchPage | bbid/bbid.py:138-147 | the results of a page go to `download` in order, each only while the list is below the limit; the method reports how many went, and a page cut short means the list reached the limit |
| Bbid.TracedAppend | bbid/bbid.py:141-146 | a call made below the limit extends the record of calls and states by one |
| Bbid.TracedRun | bbid/bbid.py:138-147 | the state after the first `k` recorded calls is the one `Run` gives for them |
| Bbid.TracedBelow | bbid/bbid.py:141-142 | every call in the trace was made in a state of the run whose list of tried URLs was below the limit |
| Bbid.StopBeforePage | bbid/bbid.py:135-151 | an empty page means the whole feed has been handed on; a repeated last result ends the loop with what went before |
| Bbid.AfterPage | bbid/bbid.py:138-148 | handing on a whole page moves `current` past it and remembers its last result; a page cut short by the limit ends the loop with results left |
| Bbid.WalkExtend | bbid/bbid.py:136-148 | a page that is neither empty nor a repeat extends the record of pages that went on whole |
| Bbid.FeedEmpty | bbid/bbid.py:119-151 | the feed is empty exactly when its first page is |
| Bbid.FeedAdvance | bbid/bbid.py:138-148 | what has been handed on stays a prefix of the feed, and the feed resumes at the next offset |
| Bbid.FeedPrefix | bbid/bbid.py:149-151 | what has been handed on is a prefix of the feed, and is all of it once a page comes back empty |
| Bbid.MadeAppend | bbid/bbid.py:138-147 | the calls made grow in step with the results handed on |
| Bbid.ToRequest | bbid/bbid.py:139-144 | the call made for one search result: its URL `murl`, the name derived from `murl` and `desc - t`, and what fetching `murl` gives; the derived name's values are stated by `FileName.DerivedFilename`, and `Made` and `MadeAppend` tie each call to its result in order |
| Bbid.LoggedBounds | bbid/bbid.py:117-151 | after a paging loop the state is the one `Run` gives for its calls, a later one, with no URL in the list twice; a loop that starts within the limit ends within it and writes no more files than the room left; and no call reached the limit branch of `download` |

## Left out

- HTTP requests, headers and the `html.html` dump are left out because they are network I/O. The bytes a fetch gives, or `None` when it raised, are an input to `Download`.
- BeautifulSoup and JSON parsing of the result page are left out because they are foreign libraries. A page of results is given by a function `search` from offset to results.
- `imghdr.what` and `hashlib.md5` are foreign calls. They are the two fields of `Probes`, with no definition.
- NFKD normalisation in `slugify` is modelled as dropping every non-ASCII character. This is exact on text already in NFKD form, which includes all ASCII text. The `allow_unicode` branch is left out because the script never takes it.
- Threads, `pool_sema`, `img_sema` and the `in_progress` counter are left out. Each `download` runs to completion before the next starts, so the model does not capture interleavings. With its threads, the script can break these guarantees. Two calls can both find a name free (bbid/bbid.py:83) before either writes it (bbid/bbid.py:97), and the later write overwrites the earlier file. A URL (bbid/bbid.py:50) or a hash (bbid/bbid.py:78) checked before another call records it can be saved twice.
- The `SIGINT` handler, the pickle format and `exit(0)` are left out. The exit at the limit is the `LimitExit` stop of the paging loop. The pickled history is the `History` value.
- `main` is left out: argument parsing, `makedirs`, reading the keyword file, `sleep` and `print`.
- `urlsplit` can raise `ValueError`: on a malformed bracketed IPv6 host, and in `_checknetloc`, when the NFKC form of a non-ASCII netloc holds a character that changes how the netloc splits. Both raise at bbid/bbid.py:56, before the `try`, so `download` ends there with the history, the index and the directory unchanged (and the semaphore still held). The model leaves these checks out: it derives a name for every URL and goes on.
- Failures while writing a file, and directory entries that are not files, are left out. Writing a file always succeeds.
- A result is the `Meta` value: `murl`, `desc`, `t`, and a map from every other key to the JSON text of its value. Two results are equal exactly when these are. JSON values that are equal but written differently (key order, spacing) count as different, and a result without one of the three keys (a `KeyError`) is not modelled.
- FetchImagesFromKeyword: the repeated-page stop is modelled only on feeds that are empty from some offset on (`Finite`). A feed that keeps returning non-empty pages ending in the same result stops in the script by that check alone. The model leaves it out because its proof of termination measures the offset against the end of the feed.
- FetchImagesFromKeyword: fetching a URL gives the same result every time it is asked.
- FetchImagesFromKeyword: the loop starts with no previous last result. The script uses `''`, which never equals a result.
- NameAndExt: its own contract gives only the shape of the base name and extension. Their values for a URL built from its parts are stated by `DerivedFilename`.
