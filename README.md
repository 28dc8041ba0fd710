# BasicWebCrawler, modelled in Dafny

This project models the core of BasicWebCrawler, a small Java crawler. It starts from a
base URL, follows the links it finds on each page as long as they begin with that base
URL, and saves every page under an output directory. Four parts are modelled:

- **The crawl engine** (`crawler/WebCrawler.java`). This is the module `Crawler`. The class
  `WebCrawler` has the `visitedUrls` set as a field and a recursive `Crawl` method.
  - Before crawling, a counting pass (`CountTotalLinks` / `ExploreLinks`) sizes the job,
    and the tracker receives that total.
  - The counting pass and the crawl both stop at the same boundary: an in-scope link of
    a page that downloaded. Both are therefore proved against the same specification:
    the set `Web.ReachSet` of URLs reachable from the start URL.
  - The count equals the size of that set. The crawl visits only URLs of that set and
    reports each saved page once. Since both passes read the same `Web.Site`, progress
    never exceeds the total.
  - The crawl is proved equal to a reference walk, the ghost function `Walk`. It is a
    pre-order, depth-first walk: a page is downloaded, saved and reported before its
    links, and the links are followed in document order. The ghost fields `downloads`,
    `reported` and `printed` record the calls to the downloader and to the tracker, and
    the lines printed. The pages reported are exactly those downloaded that saved, in
    download order.
  - A save failure ends the whole crawl at the page that failed. A fresh crawler whose
    reachable pages all save visits exactly the reach set and reports exactly its pages
    that download.
- **The breadth-first counter** (`crawler/LinkCounter.java`). This is the module
  `LinkCounter`: a `while` loop over a queue with an `allLinks` set.
  - Its count is the size of the reach set of the URL it is given. For an in-scope start
    URL that is the same number `WebCrawler`'s count gives. For an out-of-scope start URL
    the two differ: `LinkCounter` counts the start URL without a scope test, so it gives at
    least 1, while `WebCrawler` gives 0.
  - The queue is first-in-first-out. Each page's new in-scope links join its back in
    document order, once each, and a URL's parent is the first page polled that links
    to it.
- **URL cleaning and file paths** (`UrlHandler.java` and the identical
  `utils/BasicURLHandler.java`). This is the module `UrlHandler`: pure functions over
  strings. The Java string operations they use (`split(..)[0]`, `replace`, `startsWith`,
  `endsWith`) are written out in the module `Strings`.
- **The progress tracker** (`tracker/PTracker.java` and the identical `ProgressTracker.java`).
  This is the module `Tracker`: a class with three fields.

The environment is a value of type `Web.Site`:
- which URLs download, and the links each downloaded page holds, in document order, as
  Jsoup extracts them, resolved by `absUrl` and passed through `cleanUrl`;
- which URLs fail to save.

`java.net.URI` is a parameter of the URL functions. It is any partial function from text
to (scheme, host, path), where a missing part is Java's `null`.

## Model

| member | source | states |
|---|---|---|
| Strings.StartsWith | src/main/java/io/muzoo/ssc/crawler/WebCrawler.java:141 | `s.startsWith(prefix)` holds exactly when the prefix is no longer than `s` and agrees with it position by position; the same test guards LinkCounter.java:56 |
| Strings.EndsWith | src/main/java/io/muzoo/ssc/UrlHandler.java:49 | `s.endsWith(suffix)` holds exactly when the suffix is no longer than `s` and agrees with its last characters position by position; the same test decides the `index.html` branch at line 53 |
| Strings.Replace | src/main/java/io/muzoo/ssc/UrlHandler.java:54 | `replace(target, replacement)` changes nothing when the replacement equals the target, and keeps the length when both have the same length |
| Strings.Before | src/main/java/io/muzoo/ssc/UrlHandler.java:25 | the text before the first delimiter is a prefix of the input, holds no delimiter, and stops at the first delimiter or at the end |
| Strings.SplitFirst | src/main/java/io/muzoo/ssc/UrlHandler.java:25 | `s.split(c)[0]` fails exactly when `s` is non-empty and made only of `c` (Java drops trailing empty strings); otherwise it is the text before the first `c` |
| Strings.ReplaceCharPointwise | src/main/java/io/muzoo/ssc/UrlHandler.java:54 | `replace("/", sep)` keeps the length, turns every `/` into `sep` and leaves every other character alone |
| Strings.ReplaceSkipsPrefix | src/main/java/io/muzoo/ssc/UrlHandler.java:54 | `replace` leaves alone a prefix in which no occurrence of the target starts |
| Strings.ReplaceAbsent | src/main/java/io/muzoo/ssc/UrlHandler.java:54 | `replace` returns a string in which the target never occurs unchanged |
| Strings.ReplaceNoLonger | src/main/java/io/muzoo/ssc/UrlHandler.java:54 | deleting `"https://"` never makes a string longer |
| UrlHandler.Render | src/main/java/io/muzoo/ssc/UrlHandler.java:26 | a part that is present is printed as itself; the text `null` comes out exactly for an absent part or a part that is itself `null` |
| UrlHandler.TextToParse | src/main/java/io/muzoo/ssc/UrlHandler.java:25 | the text handed to the URI parser contains no `#` and no `?`; it is the input up to its first `#` or `?`; the split throws exactly in the two all-delimiter cases |
| UrlHandler.CleanUrl | src/main/java/io/muzoo/ssc/UrlHandler.java:23-30 | cleanUrl throws exactly when a split comes back empty; otherwise it returns `""` exactly when the parser rejects the text (the copy in BasicURLHandler, lines 48-55, is identical) |
| UrlHandler.CleanUrlOfParsedText | src/main/java/io/muzoo/ssc/UrlHandler.java:25 | the parser text is a fixed point of the stripping, and cleaning it gives the same result as cleaning the URL |
| UrlHandler.QueryAndFragmentIgnored | src/test/java/io/muzoo/ssc/UrlHandlerTest.java:11-17 | a URL followed by any query or fragment cleans, without throwing, to the same string as the URL alone |
| UrlHandler.CleanUrlThrowsOnlyOnLeadingDelimiter | src/main/java/io/muzoo/ssc/UrlHandler.java:25 | cleanUrl can throw only on input that starts with `#` or `?`, so never on an absolute URL from absUrl |
| UrlHandler.UnqueriedUrlCleansToItself | src/main/java/io/muzoo/ssc/UrlHandler.java:23-30 | a URL with no query or fragment, whose parts reassemble to it, cleans to itself |
| UrlHandler.RelativeTextKeepsNulls | src/main/java/io/muzoo/ssc/UrlHandler.java:26 | text that the parser reads as relative (no scheme, no host) cleans to `"null://null" + path`, not to `""` |
| UrlHandler.WithSeparator | src/main/java/io/muzoo/ssc/UrlHandler.java:49-51 | the root ends with the separator; a separator is appended only when the root lacks one, and at most one is appended |
| UrlHandler.MapToPath | src/main/java/io/muzoo/ssc/UrlHandler.java:54 | the mapped URL is no longer than the cleaned URL; with a platform separator other than `/`, no `/` is left |
| UrlHandler.GetFilePath | src/main/java/io/muzoo/ssc/UrlHandler.java:43-58 | getFilePath throws exactly when cleanUrl throws and returns `""` exactly when the cleaned URL is `""`; any other path starts with the output root followed by one separator, and ends with `index.html` when the cleaned URL ends with `/` (the copy in BasicURLHandler, lines 58-73, is identical) |
| UrlHandler.FilePathJoinsRootOnce | src/main/java/io/muzoo/ssc/UrlHandler.java:49-56 | every non-empty file path starts with the output root; exactly one separator follows it, whether or not the root already ended with one |
| UrlHandler.DirectoryMapsToIndex | src/main/java/io/muzoo/ssc/UrlHandler.java:53-54 | a directory-style cleaned URL always yields a path ending in `index.html` |
| UrlHandler.HttpSchemeKept | src/main/java/io/muzoo/ssc/UrlHandler.java:54 | an `http://` prefix is not stripped; only `https://` is deleted |
| UrlHandler.SchemeNeedsDoubleSlash | src/main/java/io/muzoo/ssc/UrlHandler.java:54 | `"https://"` occurs nowhere in a text that has no two neighbouring slashes |
| UrlHandler.SegmentsHaveNoDoubleSlash | src/main/java/io/muzoo/ssc/UrlHandler.java:54 | `host/file` and `host/folder/` have no double slash when the segments hold no slash and the second is non-empty |
| UrlHandler.HttpsSchemeDeleted | src/main/java/io/muzoo/ssc/UrlHandler.java:54 | on an https URL whose rest has no double slash, the mapping deletes the leading scheme and only swaps separators in the rest |
| UrlHandler.SeparatorSwapped | src/main/java/io/muzoo/ssc/UrlHandler.java:54 | in `host/file`, exactly the one slash becomes the separator |
| UrlHandler.SeparatorsSwapped | src/main/java/io/muzoo/ssc/UrlHandler.java:54 | in `host/folder/`, exactly the two slashes become separators |
| UrlHandler.FileUrlMapped | src/main/java/io/muzoo/ssc/UrlHandler.java:43-58 | `https://host/file` maps to root, host, separator, file, with no `index.html` |
| UrlHandler.HttpsFileUrlCleansToItself | src/main/java/io/muzoo/ssc/UrlHandler.java:23-30 | `https://host/file`, parsed into its three parts, cleans to itself |
| UrlHandler.HttpsFileUrlMaps | src/main/java/io/muzoo/ssc/UrlHandler.java:54 | `https://host/file` maps to host, separator, file |
| UrlHandler.FileUrlNotSlashTerminated | src/main/java/io/muzoo/ssc/UrlHandler.java:53 | `https://host/file` with a non-empty, slash-free file does not take the `index.html` branch |
| UrlHandler.FileUrlScenario | src/test/java/io/muzoo/ssc/utils/BasicURLHandlerTest.java:43-48 | `https://example.com/page` with root `output` gives `output/example.com/page`, with `/` or `\` as the separator |
| UrlHandler.RootSeparatorScenario | src/test/java/io/muzoo/ssc/utils/BasicURLHandlerTest.java:65-79 | the root `outputDir`, with or without a trailing separator, gives the same `outputDir/example.com/page` |
| UrlHandler.DirectoryUrlMapped | src/main/java/io/muzoo/ssc/UrlHandler.java:43-58 | `https://host/folder/` (non-empty folder) maps to root, host, separator, folder, separator, `index.html` |
| UrlHandler.HttpsFolderUrlCleansToItself | src/main/java/io/muzoo/ssc/UrlHandler.java:23-30 | `https://host/folder/`, parsed into its three parts, cleans to itself |
| UrlHandler.HttpsFolderUrlMaps | src/main/java/io/muzoo/ssc/UrlHandler.java:54 | `https://host/folder/` maps to host, separator, folder, separator |
| UrlHandler.DirectoryUrlScenario | src/test/java/io/muzoo/ssc/utils/BasicURLHandlerTest.java:50-56 | `https://example.com/folder/` with root `output` gives `output/example.com/folder/index.html`, with `/` or `\` as the separator |
| Tracker.PTracker.constructor | src/main/java/io/muzoo/ssc/tracker/PTracker.java:6-8 | a fresh tracker has total 0, count 0 and current URL `""`; this and the other tracker rows also hold for the identical ProgressTracker |
| Tracker.PTracker.SetTotalUrls | src/main/java/io/muzoo/ssc/tracker/PTracker.java:10-12 | sets the total and leaves the count and the current URL unchanged |
| Tracker.PTracker.IncrementDownloadedUrls | src/main/java/io/muzoo/ssc/tracker/PTracker.java:14-18 | the count rises by exactly one, the current URL becomes the argument, the total is unchanged, and the printed line reflects the new state |
| Tracker.PTracker.PrintProgress | src/main/java/io/muzoo/ssc/tracker/PTracker.java:20-28 | changes no field; gives the "not set" notice exactly when the total is 0, and otherwise the count, total and current URL |
| Tracker.Replay | src/test/java/io/muzoo/ssc/ProgressTrackerTest.java:17-24 | after a total and k increments on a fresh tracker, the count is k (not clamped at the total), the current URL is the last one, and the lines printed are `Lines` from count 0 |
| Tracker.Line | src/main/java/io/muzoo/ssc/tracker/PTracker.java:14-28 | the line printed after an increment is the "not set" notice exactly when the total is 0, and otherwise carries the count, the total and the URL |
| Tracker.Lines | src/main/java/io/muzoo/ssc/tracker/PTracker.java:14-28 | a run of increments prints one line per URL |
| Tracker.LinesAt | src/main/java/io/muzoo/ssc/tracker/PTracker.java:14-28 | the k-th line of a run of increments carries the count after k + 1 increments, the run's total and the k-th URL |
| Tracker.LinesAppend | src/main/java/io/muzoo/ssc/tracker/PTracker.java:14-28 | two runs of increments under one total print the lines of the first, then those of the second counted on from where the first stopped |
| Web.Site.Download | src/main/java/io/muzoo/ssc/crawler/WebCrawler.java:147-153 | a download succeeds only for a URL the site has a page for, and then yields that page's links |
| Web.ScopeIsTextualPrefix | src/main/java/io/muzoo/ssc/crawler/WebCrawler.java:141 | the scope test is a string prefix: `http://example.com` admits `http://example.com.other/x` |
| Web.ReachSetInScope | src/main/java/io/muzoo/ssc/crawler/LinkCounter.java:56 | every reachable URL except the start URL passed the scope test |
| Web.ReachSetCharacterized | src/main/java/io/muzoo/ssc/crawler/WebCrawler.java:180-204 | a set that holds the start URL, is closed under in-scope links, and holds only reachable URLs is exactly the reach set |
| Crawler.WebCrawler.constructor | src/main/java/io/muzoo/ssc/crawler/WebCrawler.java:114-122 | the crawler starts with an empty visited set and keeps its configuration |
| Crawler.WebCrawler.StartCrawling | src/main/java/io/muzoo/ssc/crawler/WebCrawler.java:125-138 | the total is the size of the reach set, counting pages that fail to download, and it is set before the crawl: every line printed during the call is a progress line carrying that total; the crawl is exactly the pre-order walk `Walk` from baseUrl (visited set, downloads in order, and reports, which are the downloads that saved, in order); the tracker counts one increment per report, holds the last URL reported, and its count rises by no more than the total; both passes download the start page, the count first; the crawl visits only reachable URLs; either the crawl completed, with every new page saved and every in-scope link followed, or it stopped at a reachable page that downloaded and failed to save; a fresh crawler with no save failure in the reach set visits exactly the reach set and reports exactly its downloadable pages |
| Crawler.WebCrawler.Crawl | src/main/java/io/muzoo/ssc/crawler/WebCrawler.java:140-172 | crawl(url) leaves exactly the state of the pre-order walk `Walk` from the old visited set: its visited set, its downloads appended in order, the downloads that saved appended to the reports in the same order, and `false` exactly when the walk stopped at a save failure; the tracker counted one increment per new report, holds the last one, and printed one line per report carrying the count, the unchanged total and the URL |
| Crawler.WebCrawler.CrawlLinks | src/main/java/io/muzoo/ssc/crawler/WebCrawler.java:163-171 | the loop over a page's links leaves exactly the state of `WalkLinks`, the walk over those links in document order that ends at the first save failure; the tracker is kept in step with the reports as for Crawl |
| Crawler.WebCrawler.Walk | src/main/java/io/muzoo/ssc/crawler/WebCrawler.java:140-172 | the reference order of crawl: it only adds to the visited set; an in-scope URL ends up visited, and a new one is the first download, before any of its links |
| Crawler.WebCrawler.WalkLinks | src/main/java/io/muzoo/ssc/crawler/WebCrawler.java:165-171 | the walk over a page's links only adds to the visited set |
| Crawler.WebCrawler.WalkIsSound | src/main/java/io/muzoo/ssc/crawler/WebCrawler.java:140-172 | the walk adds to the visited set exactly the URLs it downloads, each once, each new, in scope and reachable; a completed walk saved every page it downloaded and followed all their in-scope links; a stopped walk ends on a page that downloaded and failed to save |
| Crawler.WebCrawler.WalkLinksIsSound | src/main/java/io/muzoo/ssc/crawler/WebCrawler.java:165-171 | the same for the walk over a page's links from the i-th on, each download reachable from the page; a completed loop visited every in-scope link from the i-th on |
| Crawler.WebCrawler.WalkLinksStep | src/main/java/io/muzoo/ssc/crawler/WebCrawler.java:165-171 | one step of the link loop: the walk from the i-th link, then the remaining links only if that walk did not stop |
| Crawler.WebCrawler.WalkOutcome | src/main/java/io/muzoo/ssc/crawler/WebCrawler.java:140-172 | a crawler left in the state of a sound walk stays consistent: visited URLs in scope and downloaded once each, reports exactly the downloads that saved; new URLs are reachable and the walk's outcome (all saved and closed, or stopped at a save failure) holds of the crawler |
| Crawler.WebCrawler.SavedPages | src/main/java/io/muzoo/ssc/crawler/WebCrawler.java:156-160 | the pages reported are pages of the downloads that downloaded and saved |
| Crawler.WebCrawler.SavedPagesConcat | src/main/java/io/muzoo/ssc/crawler/WebCrawler.java:156-160 | the reports of two stretches of downloads are those of the first, then those of the second |
| Crawler.WebCrawler.SavedPagesHas | src/main/java/io/muzoo/ssc/crawler/WebCrawler.java:156-160 | every downloaded page that saves is reported |
| Crawler.WebCrawler.SavedPagesDistinct | src/main/java/io/muzoo/ssc/crawler/WebCrawler.java:156-160 | pages downloaded once each are reported once each |
| Crawler.TracksChain | src/main/java/io/muzoo/ssc/tracker/PTracker.java:14-18 | two stretches of increments, the second starting where the first stopped, count, print and end on the URL as one stretch of all the reports |
| Crawler.WebCrawler.VisitedWithinReach | src/main/java/io/muzoo/ssc/crawler/WebCrawler.java:140-172 | URLs the crawl from baseUrl newly visits lie in the reach set |
| Crawler.WebCrawler.ReportedWithinReach | src/main/java/io/muzoo/ssc/crawler/WebCrawler.java:160 | the pages newly reported, once each, are no more than the reach set holds, so progress stays within the total |
| Crawler.WebCrawler.StopWithinReach | src/main/java/io/muzoo/ssc/crawler/WebCrawler.java:157 | the page a crawl stopped at lies in the reach set |
| Crawler.WebCrawler.CrawlOutcome | src/main/java/io/muzoo/ssc/crawler/WebCrawler.java:125-138 | after a crawl from the base URL, the new visited URLs are in the reach set, the new reports are no more than its size, a stop is at a reachable page, and a fresh crawl with no save failure covers the reach set exactly |
| Crawler.WebCrawler.FreshCrawlCoversReach | src/main/java/io/muzoo/ssc/crawler/WebCrawler.java:140-172 | a completed crawl from the base URL by a fresh crawler visited exactly the reach set and reported exactly its pages that download |
| Crawler.WebCrawler.CountTotalLinks | src/main/java/io/muzoo/ssc/crawler/WebCrawler.java:174-178 | the count is the size of the reach set (0 for an out-of-scope URL), and the pass downloads each URL of that set once |
| Crawler.WebCrawler.ExploreLinks | src/main/java/io/muzoo/ssc/crawler/WebCrawler.java:180-204 | the set only grows; each added URL is in scope, reachable from the URL and downloaded once; the added URLs are closed under in-scope links |
| LinkCounter.LinkCounter.constructor | src/main/java/io/muzoo/ssc/crawler/LinkCounter.java:21-25 | the counter keeps its base URL and downloader |
| LinkCounter.LinkCounter.CountTotalLinks | src/main/java/io/muzoo/ssc/crawler/LinkCounter.java:30-63 | the count is the size of the reach set and at least 1, the start URL included without a scope test; each URL is queued once, the start URL first; every later URL is in scope; the queue order is breadth-first: parents come in queue order, each URL's parent is the first polled page that links to it, and URLs found on the same page come in the order of their first link there |
| LinkCounter.LinkCounter.DiscoverLinks | src/main/java/io/muzoo/ssc/crawler/LinkCounter.java:49-60 | the queue gains at its back exactly the page's in-scope links not yet in `allLinks`, once each and in the page's order, and keeps its old entries; `allLinks` gains exactly those URLs; the order stays breadth-first; afterwards every in-scope link of the page is known |
| LinkCounter.LinkCounter.NewLinks | src/main/java/io/muzoo/ssc/crawler/LinkCounter.java:49-60 | the URLs the link loop adds are exactly the page's in-scope links not already known, with no repeats |
| LinkCounter.LinkCounter.NewLinksInDocumentOrder | src/main/java/io/muzoo/ssc/crawler/LinkCounter.java:49-60 | the URLs the link loop adds come in the order of their first occurrence on the page |
| LinkCounter.LinkCounter.BreadthFirstPairwise | src/main/java/io/muzoo/ssc/crawler/LinkCounter.java:36-60 | in a breadth-first queue order, any two URLs have their parents in queue order, and two URLs found on the same page come in the order of their first link there, after that page |
| LinkCounter.LinkCounter.PolledOneMore | src/main/java/io/muzoo/ssc/crawler/LinkCounter.java:37-43 | polling a URL whose download fails keeps the queue order breadth-first |
| LinkCounter.LinkCounter.DiscoveryProgress | src/main/java/io/muzoo/ssc/crawler/LinkCounter.java:56-59 | each pass that adds a URL shrinks the set of URLs not yet discovered, so the loop ends |
| LinkCounter.LinkCounter.DiscoverLink | src/main/java/io/muzoo/ssc/crawler/LinkCounter.java:56-59 | adding a new in-scope link keeps the set equal to the queued URLs, without repetition, and keeps every URL reachable |
| LinkCounter.LinkCounter.DiscoverChild | src/main/java/io/muzoo/ssc/crawler/LinkCounter.java:56-58 | a URL found on the page polled last, linked from no earlier page and after the URLs already found on that page, joins the queue keeping it breadth-first |
| LinkCounter.LinkCounter.LinksExpanded | src/main/java/io/muzoo/ssc/crawler/LinkCounter.java:49-60 | once each in-scope link of a page has been checked, every in-scope link of the page is known |
| LinkCounter.LinkCounter.DiscoveryComplete | src/main/java/io/muzoo/ssc/crawler/LinkCounter.java:36-62 | when every queued page has been expanded, `allLinks` is the reach set and its size is the number of queued URLs |

## Behaviour of the code worth knowing

- A `saveToFile` failure is not caught inside `crawl` (WebCrawler.java:157). It ends the
  whole crawl, and `startCrawling` swallows it (lines 135-137). No further link of any
  page is followed.
- There is no `javascript:` filter and no `http`/`https` scheme check. The scope test is a
  plain `startsWith(baseUrl)` (WebCrawler.java:141, LinkCounter.java:56).
- Cleaned URLs drop the port: only scheme, host and path are kept (UrlHandler.java:26).
- A URL that `java.net.URI` accepts as a relative reference is not rejected. Its missing
  scheme and host are printed as `null` (`UrlHandler.RelativeTextKeepsNulls`). The
  method's own comment at UrlHandler.java:21 promises `""` for an invalid URL, and the
  tests at src/test/java/io/muzoo/ssc/UrlHandlerTest.java:19-24 and
  src/test/java/io/muzoo/ssc/utils/BasicURLHandlerTest.java:37-41 and 58-63 expect `""`
  for `"invalid-url"`. `java.net.URI` reads `"invalid-url"` as a relative reference
  whose path is that text, so by `UrlHandler.RelativeTextKeepsNulls` the code returns
  `"null://nullinvalid-url"` there. The parser itself is a parameter of the model.
- cleanUrl can throw (UrlHandler.java:25). This happens on a non-empty input made only of
  `#`. It also happens when the text before the first `#` is non-empty and made only of
  `?`. Only `URISyntaxException` is caught (line 27), so the
  `ArrayIndexOutOfBoundsException` escapes.
- `LinkCounter` puts a URL in `allLinks` when it finds it, not when it takes it off the
  queue (LinkCounter.java:56-58). It counts the start URL without a scope test (lines
  33-34).
- Each page the crawl reaches before any save failure is downloaded twice per
  `startCrawling`: once by the count and once by the crawl
  (`Crawler.WebCrawler.StartCrawling`). The tests at
  src/test/java/io/muzoo/ssc/crawler/WebCrawlerTest.java:55-56 and 155-156 expect one
  download of each page overall. The model states the once-only law per pass.

## Left out

- Network and file I/O (`HttpDownloader`, `saveToFile`). Downloads and save outcomes come
  from `Web.Site`.
- Crawler.WebCrawler.StartCrawling: both passes read one fixed `Web.Site`. A real server
  can answer differently the second time. A page that fails during the count and then
  downloads during the crawl would make Java's progress exceed the total; the model does
  not capture that.
- Jsoup parsing, the CSS selector and `absUrl` resolution are foreign code. Each page's
  link sequence is an input.
- `java.net.URI` parsing is foreign code. It is the `parse` parameter.
- Crawler.WebCrawler.Crawl: the file path is not computed during the crawl. An exception
  from `getFilePath` is folded into the URL's save failure. `getFilePath` is modelled on
  its own in `UrlHandler`.
- Crawler.WebCrawler.Crawl: the site's links are taken as already cleaned.
  - A cleanUrl exception while the crawl follows a link is not modelled.
  - `UrlHandler.CleanUrlThrowsOnlyOnLeadingDelimiter` shows this needs a link starting
    with `#` or `?`, which `absUrl` never returns.
- Tracker.PTracker.IncrementDownloadedUrls: the count is an unbounded integer. Java's
  `int` would wrap after 2^31 - 1 increments, which no crawl of a finite site reaches.
- Tracker.PTracker.PrintProgress: the printed percentage and the `printf` formatting are
  floating point and console output. The result gives the three values they are printed
  from.
- The console messages of `crawl` and `startCrawling`.
- The static fields of `LinkCounter` are instance constants here. Two counters therefore
  do not share their configuration.
- `CrawlerManager`, `Main` and `TestLogging`. These handle process set-up, timing and
  logging.
- The interfaces without behaviour: `Downloader` and `tracker/ProgressTracker.java`.
- The commented-out code at the top of `crawler/WebCrawler.java` and
  `utils/BasicURLHandler.java`.
