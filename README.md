# awsdocs crawler core, modelled in Dafny

`awsdocs` crawls the AWS documentation site. It walks the sitemap tree that
starts at `https://docs.aws.amazon.com/sitemap_index.xml`. It queues every
page URL that survives a host check and an exclusion pattern. It downloads
each queued page, with a bounded retry loop, into a dated directory tree.

This project models the decision logic inside that plumbing, and proves
what that logic promises:

- `strings.dfy`, module `Strings`: the string operations the core relies on.
  These are `strings.Replace(s, old, new, 1)`, `TrimPrefix`, `HasSuffix` and
  the last index of a byte. A small `Wrappers` module holds `Option`.
- `urlfilter.dfy`, module `UrlFilter`: the `http://` to `https://` upgrade;
  the `sdkExclusions` deny list; the loop in `init` that quotes each name into
  an array; and the compiled exclusion pattern.
  - The regular expression is data: a root, alternatives, and a trailing `/`.
  - Its meaning is Go's unanchored `MatchString`.
  - It is proved to match exactly the URLs that the plain rule `Excluded`
    names.
  - The rule `Excluded`: somewhere in the URL, `https://docs.aws.amazon.com/`
    is followed by a locale `[a-z]{2}_[a-z]{2}`, `cdk` or a deny-listed name,
    and then `/`.
- `fetch.dfy`, module `Fetch`: `fetchWithRateLimitHandling` as a loop over an
  oracle `respond(n)`, which says what try `n` runs into. The loop is proved
  against the specification function `Retry`, and `Retry`'s decision table
  is proved as lemmas.
- `walker.dfy`, module `SitemapWalk`: `fetchAndParseSitemap` as a recursive
  method, with two helpers: the index loop (`WalkChildren`) and the URL-set
  loop (`SendUrlSet`).
  - The channel is the output sequence `emitted`.
  - The method is proved equal to the specification function `Walk`.
  - `Walk` is proved to:
    - filter correctly;
    - keep document order;
    - apply the index-based `maxDocs` cap;
    - prefer the index decode over the URL-set decode;
    - isolate errors in children.
- `storage.dfy`, module `Storage`: the path computation of
  `downloadAndSaveAsHTML`, and the order of its effects.
  - The computation is `filepath.Join`, `Dir` and `Base` on `/`-separated
    segments, with the date as a parameter.
  - The effects are: make the directory, fetch, read, write.

The model follows the code in four places where its behaviour may surprise
a reader:

- There is no scheme check. The upgrade is a case-sensitive replacement of
  the first `http://`. A location with another scheme, or with an upper-case
  `HTTP://` that the replacement leaves alone, still passes if `url.Parse`
  reports the host `docs.aws.amazon.com`.
- The `maxDocs` cap tests the entry's position, `i+1 >= maxDocs`, and does
  not count the URLs sent. Entries that were skipped count towards the cap,
  and each URL-set document has its own cap.
- The date comes from the local clock, not UTC. The model takes it as a
  parameter.
- `filepath.Join` resolves `..` segments of the URL against the date
  directory. A page URL such as `https://docs.aws.amazon.com/../../../../../tmp/x`
  passes the host and exclusion checks, and its file is `tmp/x`, outside
  `aws_html` altogether (`Storage.LocatePastDateDir`).

## Model

| member | source | states |
|---|---|---|
| UrlFilter.UpgradeInsecureScheme | main.go:164-165 | a location written `http://…` becomes `https://…` with the rest unchanged |
| UrlFilter.UpgradeFirstOccurrence | main.go:164-165 | the upgrade, here and at main.go:220, leaves a string without `http://` unchanged, and otherwise rewrites exactly its first `http://`, wherever it sits, to `https://` |
| UrlFilter.UpgradeSecureScheme | main.go:219-220 | `https://` holds no `http://`, so a secure location keeps its scheme and only its first embedded `http://` is rewritten |
| UrlFilter.ContainsExcludedTree | main.go:39-68 | any URL that contains `https://docs.aws.amazon.com/<seg>/`, for a locale, `cdk` or a deny-listed `seg`, is excluded, wherever that text appears in it |
| UrlFilter.UnquoteQuoteMeta | main.go:76 | quoting a name with `regexp.QuoteMeta` loses nothing: the quoted text stands for exactly the name |
| UrlFilter.QuoteEach | main.go:74-77 | the loop of `init` fills a fresh array with each SDK name quoted, in the order of the list |
| UrlFilter.Init | main.go:72-83 | `init` builds the exclusion pattern from the quoted names, and that pattern matches a string exactly when the plain exclusion rule holds for it |
| UrlFilter.CompiledPatternExact | main.go:80-82 | for any root and deny list, the compiled pattern matches `s` if and only if `s` contains root, a denied segment and `/`; an empty list joins to one empty branch, which denies the empty segment |
| UrlFilter.EmptyDenyList | main.go:80 | with no SDK name, the pattern's empty branch matches the bare root followed by `/` |
| UrlFilter.ExcludePatternExact | main.go:39-83 | `excludeRegex.MatchString(s)` holds if and only if `s` is excluded by the plain rule, in both directions |
| UrlFilter.MatchMeansDenied | main.go:80-82 | every match of the compiled pattern is an occurrence of root, a denied segment and `/` |
| UrlFilter.DeniedMeansMatch | main.go:80-82 | every occurrence of root, a denied segment and `/` is a match of the compiled pattern |
| Fetch.Verdict | main.go:287-303 | a try that is not retried succeeds if and only if the status is 200 |
| Fetch.FirstDecisive | main.go:258-304 | the first try that is not a 403 or a temporary error; all tries before it are retryable |
| Fetch.RetryDecided | main.go:256-306 | the outcome is fixed by the first decisive try: its verdict after that many tries, or "max retries exceeded" after five retryable tries |
| Fetch.RetryBounds | main.go:257-258 | between 1 and 5 tries are made; "max retries exceeded" comes exactly when all five tries are retryable, and only after five tries |
| Fetch.RetrySucceeds | main.go:288-290 | the fetch succeeds if and only if some try within the first five answers 200 and every try before it was retryable; the last try made is that 200 |
| Fetch.AlwaysForbidden | main.go:292-305 | five 403 answers in a row give "max retries exceeded" after five tries |
| Fetch.FirstTryDecisive | main.go:263-303 | a first try that is neither 403 nor a temporary error ends the loop after one try; a first 404 fails with that status |
| Fetch.FetchWithRateLimitHandling | main.go:256-306 | the loop returns the result and the try count `Retry` specifies, and it sleeps once after each retryable try |
| SitemapWalk.AdmittedSound | main.go:218-240 | every URL in the reference list is an entry with its first `http://` upgraded, and passes the host and exclusion checks |
| SitemapWalk.AdmittedAppend | main.go:218-238 | the reference list of admitted URLs keeps document order: that of a concatenation is the concatenation |
| SitemapWalk.ScanMeaning | main.go:218-246 | the sends of a URL-set document are all admitted entries when uncapped; with a cap they are the admitted entries before position `maxDocs-1`, then at most one more |
| SitemapWalk.ScanIsPrefixOfAdmitted | main.go:218-246 | the URLs sent are a prefix of the admitted entries, in document order |
| SitemapWalk.ScanCapped | main.go:243-245 | with `maxDocs > 0`, at most `maxDocs` URLs are sent from one URL-set document |
| SitemapWalk.ScanUncapped | main.go:243 | with `maxDocs <= 0`, every admitted entry is sent |
| SitemapWalk.ScanCapCountsSkipped | main.go:243-245 | the cap counts positions: if the first `maxDocs-1` entries are all filtered out, at most one URL is sent |
| SitemapWalk.ScanAllPass | main.go:240-245 | when every entry passes, exactly `min(maxDocs, entries)` URLs are sent |
| SitemapWalk.ScanSound | main.go:218-240 | every URL sent from a URL set passes the host and exclusion checks |
| SitemapWalk.ConcatAppend | main.go:204-209 | the children's sends and fetches are concatenated in document order |
| SitemapWalk.WalkErrorSendsNothing | main.go:163-253 | a walk that returns an error has sent nothing and fetched at most its own location |
| SitemapWalk.ChildErrorIsolated | main.go:204-210 | a child that fails does not make the index fail, and the sends of the index are those of the other children in order |
| SitemapWalk.WalkSound | main.go:163-253 | every URL sent, and every sitemap fetched, anywhere in the tree passed the host check and the exclusion pattern after the upgrade |
| SitemapWalk.WalkNeverLeavesDocs | main.go:173-238 | with the pattern of `init`, nothing sent or fetched has a host other than `docs.aws.amazon.com` or lies in an excluded tree |
| SitemapWalk.UrlSetFallback | main.go:198-216 | a fetched body whose index decode fails or is empty, and whose URL-set decode has entries, is scanned as a URL set |
| SitemapWalk.IndexTakesPrecedence | main.go:198-216 | a body that decodes as a non-empty index is walked as an index whatever its URL-set decode gives |
| SitemapWalk.FilteredSitemap | main.go:167-183 | a sitemap that fails to parse, has another host, or is excluded is neither fetched nor walked; only the parse failure is an error |
| SitemapWalk.WalkErrors | main.go:163-253 | each error is reported exactly in its case: parse failure, fetch failure, read failure, or neither decode giving an entry |
| SitemapWalk.FetchAndParseSitemap | main.go:163-253 | the recursive method returns the error, the sends in order and the fetches that `Walk` specifies |
| SitemapWalk.WalkChildren | main.go:204-210 | the index loop walks every child in order, and its sends and fetches are the concatenation of the children's walks |
| SitemapWalk.SendUrlSet | main.go:218-246 | the URL-set loop sends exactly what `Scan` specifies |
| Storage.PadValue | main.go:314-316 | the year, month and day directory names are decimal digits that read back as the date's fields |
| Storage.PadWidth | main.go:314-316 | each date field is zero-padded to its width: four digits for a year below 10000, two for a month or a day |
| Storage.DatePathReadsBack | main.go:311-317 | for a calendar date the directory is `aws_html/YYYY/MM/DD`, with fixed widths, and gives the date back |
| Storage.DatePathInjective | main.go:311-317 | two calendar dates share a date directory only if they are the same date |
| Storage.PlaceShape | main.go:323-331 | for any URL without `..` segments, the directory lies under the date directory, and the file is in that directory; a URL ending in `/` becomes `index.html` inside the directory its segments name |
| Storage.LocateShape | main.go:310-331 | the same, for the date and any URL whose trimmed form has no `..` segment, with `https://` trimmed first |
| Storage.PlacePastRoot | main.go:323-331 | under a root of `k` plain segments, `host` followed by `k + 1` segments `..`, then `name/file`, climbs past every segment of the root and is stored as `name/file`, whatever the root |
| Storage.LocatePastDateDir | main.go:310-331 | `https://host/../../../../../name/file` is stored as `name/file`, outside `aws_html/YYYY/MM/DD`; for a `name` other than `aws_html` that is outside `aws_html` too |
| Storage.FileOfJoin | main.go:328-329 | for a URL of plain segments, `Dir` gives all but the last segment and `Base` gives the last |
| Storage.LocateDirectoryUrl | main.go:320-326 | `https://` + segments + `/` is stored at `aws_html/YYYY/MM/DD/` + segments + `/index.html` |
| Storage.LocateFileUrl | main.go:320-330 | `https://` + segments is stored at `aws_html/YYYY/MM/DD/` + segments, in the directory of all but the last segment |
| Storage.TrailingSlashIsIndex | main.go:324-331 | `…/dir/` and `…/dir/index.html` are written to the same file |
| Storage.Download | main.go:333-361 | the directory is made before anything is fetched; a failed mkdir means no fetch, and otherwise the tries are exactly those of the retry loop; a file is written only when mkdir, fetch, read and write all succeed, and then with the body at the computed path |
| Storage.RateLimitedDownload | main.go:340-346 | a page that answers 403 five times costs five tries and writes nothing |

## Left out

- Concurrency: the worker goroutines, the unbuffered channel, the `WaitGroup` and the shutdown (main.go:130-158). A send on the channel is an append to `emitted`.
- The command line, the log file and every log line (main.go:108-128). `log.Fatalf` on a failed root walk (main.go:153) is left out too.
- The random choice of user agent (main.go:260). It does not change any decision.
- Sleep durations and pacing (main.go:142, main.go:278, main.go:295). `FetchWithRateLimitHandling` counts the sleeps in a ghost out-parameter.
- HTTP itself, which becomes the oracle `respond`: a try runs into a request-construction error, a temporary or permanent network error, or a status code.
- `url.Parse`, which becomes the parameter `hostOf`: `None` for a parse error, otherwise the host.
- `xml.Unmarshal`, which becomes the datatype `Body`: what the index decode and the URL-set decode each give.
- `ioutil.ReadAll`: its failure is a `body` of `None`.
- `time.Now`: the date is a parameter, whichever clock it comes from.
- The filesystem: `Download` returns the directory it creates and the file it writes, and does not touch a disk. A partial `MkdirAll` is not modelled.
- Storage.PlaceShape: holds only for URLs without `..` segments. With them the source writes outside the date directory, as `Storage.PlacePastRoot` shows.
- Storage.LocateShape: holds only for URLs whose trimmed form has no `..` segment. The source can write outside `aws_html/YYYY/MM/DD`, and even outside `aws_html`, for a URL with enough `..` segments (`Storage.LocatePastDateDir`).
- Storage.CleanFrom: Windows volume names are not modelled.
- Storage.Split: splits on `/` only. The Windows path separator is not modelled.
- SitemapWalk.Walk: sitemaps form a finite tree, so a sitemap that lists itself cannot be expressed. The source would recurse forever on such a cycle.
- SitemapWalk.Scan: `maxDocs` and the entry index are unbounded integers. Go's `int` overflow in `i+1` is not modelled.
- `MatchString` is modelled for the one shape of pattern that `init` builds, not as a general regular-expression engine.
