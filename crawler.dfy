/**
 * crawler/WebCrawler.java: a counting pass (countTotalLinks/exploreLinks) followed by the
 * recursive depth-first crawl, both guarded by a set of URLs and by the literal
 * `startsWith(baseUrl)` scope test.
 */
module Crawler {
  import opened Strings
  import opened Web
  import opened Tracker

  /** Where a crawl ends: the visited set, the URLs it downloaded in order, and whether no save failed. */
  datatype Walked = Walked(visited: set<Url>, downloads: seq<Url>, ok: bool)

  /** A walk `w` preceded by the downloads `done`. */
  function After(done: seq<Url>, w: Walked): (r: Walked)
    ensures r.visited == w.visited && r.ok == w.ok && |r.downloads| == |done| + |w.downloads|
  {
    Walked(w.visited, done + w.downloads, w.ok)
  }

  lemma AppendAssoc<T>(a: seq<T>, b: seq<T>, c: seq<T>)
    ensures (a + b) + c == a + (b + c)
  {
  }

  lemma AfterAfter(a: seq<Url>, b: seq<Url>, w: Walked)
    ensures After(a, After(b, w)) == After(a + b, w)
  {
    assert a + (b + w.downloads) == (a + b) + w.downloads;
  }

  /** The URL the tracker holds after reporting `news`, having held `current`. */
  function LastReported(current: string, news: seq<Url>): (r: string)
    ensures news == [] ==> r == current
    ensures news != [] ==> r == news[|news| - 1]
  {
    if news == [] then current else news[|news| - 1]
  }

  /**
   * A tracker that showed `total`, `count` and `current`, with `printedBefore` printed,
   * shows `nowTotal`, `nowCount` and `nowCurrent` and has printed `printed` after the
   * reports `news`: it kept its total, counted one download per report, holds the last
   * URL reported, and printed one line per report (Lines).
   */
  ghost predicate Tracks(total: int, count: int, current: string, printedBefore: seq<ProgressLine>, news: seq<Url>,
                         nowTotal: int, nowCount: int, nowCurrent: string, printed: seq<ProgressLine>)
  {
    && nowTotal == total
    && nowCount == count + |news|
    && nowCurrent == LastReported(current, news)
    && printed == printedBefore + Lines(count, total, news)
  }

  /** Two stretches of tracking, the second starting where the first ended, make one. */
  lemma TracksChain(total: int, count: int, current: string, p0: seq<ProgressLine>, news1: seq<Url>,
                    total1: int, count1: int, current1: string, p1: seq<ProgressLine>, news2: seq<Url>,
                    total2: int, count2: int, current2: string, p2: seq<ProgressLine>)
    requires Tracks(total, count, current, p0, news1, total1, count1, current1, p1)
    requires Tracks(total1, count1, current1, p1, news2, total2, count2, current2, p2)
    ensures Tracks(total, count, current, p0, news1 + news2, total2, count2, current2, p2)
  {
    LinesAppend(count, total, news1, news2);
    AppendAssoc(p0, Lines(count, total, news1), Lines(count1, total, news2));
  }

  class WebCrawler {
    const baseUrl: Url
    const outputDir: string
    /** The downloader and the file system: what each URL downloads to, and where saving fails. */
    const site: Site
    const tracker: PTracker
    var visitedUrls: set<Url>
    /** Every URL crawl has handed to downloader.download, in call order. */
    ghost var downloads: seq<Url>
    /** Every URL crawl has passed to tracker.incrementDownloadedUrls, in call order. */
    ghost var reported: seq<Url>
    /** Every line those calls printed, in order. */
    ghost var printed: seq<ProgressLine>

    /**
     * Visited URLs are in scope and each was downloaded exactly once, and the pages
     * reported are exactly those downloaded that saved, in download order (`Consistent`);
     * each report printed one line.
     */
    ghost predicate Valid()
      reads this
    {
      Consistent(visitedUrls, downloads, reported) && |printed| == |reported|
    }

    /** Valid, on given values of the visited set, the downloads and the reports. */
    ghost predicate Consistent(visited: set<Url>, ds: seq<Url>, rs: seq<Url>) {
      && (forall u :: u in visited ==> StartsWith(u, baseUrl))
      && Distinct(ds)
      && (forall u :: u in ds <==> u in visited)
      && rs == SavedPages(ds)
    }

    /** The page at u downloads and saves: crawl reports such a page right after saving it. */
    ghost predicate Saves(u: Url) {
      site.Download(u).Fetched? && u !in site.saveFails
    }

    /** The pages of `ds` that download and save, in the order of `ds`. */
    ghost function SavedPages(ds: seq<Url>): (r: seq<Url>)
      ensures forall u :: u in r ==> u in ds && Saves(u)
      decreases |ds|
    {
      if ds == [] then [] else (if Saves(ds[0]) then [ds[0]] else []) + SavedPages(ds[1..])
    }

    /** The saved pages of a + b are those of a, then those of b. */
    lemma {:induction false} SavedPagesConcat(a: seq<Url>, b: seq<Url>)
      ensures SavedPages(a + b) == SavedPages(a) + SavedPages(b)
      decreases |a|
    {
      if a == [] {
        assert a + b == b;
      } else {
        assert (a + b)[1..] == a[1..] + b;
        SavedPagesConcat(a[1..], b);
        var head := if Saves(a[0]) then [a[0]] else [];
        assert SavedPages(a + b) == head + (SavedPages(a[1..]) + SavedPages(b));
        assert head + (SavedPages(a[1..]) + SavedPages(b)) == (head + SavedPages(a[1..])) + SavedPages(b);
      }
    }

    /** Every page of `ds` that downloads and saves is among its saved pages. */
    lemma {:induction false} SavedPagesHas(ds: seq<Url>, u: Url)
      requires u in ds && Saves(u)
      ensures u in SavedPages(ds)
      decreases |ds|
    {
      if ds[0] != u {
        assert u in ds[1..] by {
          var k :| 0 <= k < |ds| && ds[k] == u;
          assert ds[1..][k - 1] == u;
        }
        SavedPagesHas(ds[1..], u);
      }
    }

    /** Pages downloaded once each are reported once each. */
    lemma {:induction false} SavedPagesDistinct(ds: seq<Url>)
      requires Distinct(ds)
      ensures Distinct(SavedPages(ds))
      decreases |ds|
    {
      if ds != [] {
        var rest := ds[1..];
        assert Distinct(rest) by {
          forall i, j | 0 <= i < j < |rest| ensures rest[i] != rest[j] {
            assert rest[i] == ds[i + 1] && rest[j] == ds[j + 1];
          }
        }
        SavedPagesDistinct(rest);
        var head := if Saves(ds[0]) then [ds[0]] else [];
        assert ds[0] !in rest by {
          forall k | 0 <= k < |rest| ensures rest[k] != ds[0] {
            assert rest[k] == ds[k + 1];
          }
        }
        DistinctConcat(head, SavedPages(rest));
      }
    }

    /** Every URL visited since `before` is reachable from `from`. */
    ghost predicate VisitedReachable(before: set<Url>, from: Url)
      reads this
    {
      forall u :: u in visitedUrls && u !in before ==> Reachable(site, baseUrl, from, u)
    }

    /** Every page downloaded since `before` was saved and reported. */
    ghost predicate VisitedSaved(before: set<Url>)
      reads this
    {
      forall u :: u in visitedUrls && u !in before && site.Download(u).Fetched? ==>
        u !in site.saveFails && u in reported
    }

    /** The in-scope links of every page visited since `before`, except `pending`, are visited. */
    ghost predicate VisitedClosed(before: set<Url>, pending: set<Url>)
      reads this
    {
      forall u, v :: u in visitedUrls && u !in before && u !in pending && Edge(site, baseUrl, u, v) ==>
        v in visitedUrls
    }

    /**
     * The last page downloaded downloaded but could not be saved: the crawl was cut
     * short there, before the page was reported and before any of its links was followed.
     */
    ghost predicate StoppedAtSaveFailure()
      reads this
    {
      downloads != [] && site.Download(downloads[|downloads| - 1]).Fetched? && downloads[|downloads| - 1] in site.saveFails
    }

    /** Tracks, read off the tracker's fields and the lines printed so far. */
    ghost predicate Tracked(total: int, count: int, current: string, printedBefore: seq<ProgressLine>, news: seq<Url>)
      reads this, tracker
    {
      Tracks(total, count, current, printedBefore, news,
             tracker.totalUrls, tracker.downloadedUrls, tracker.currentUrl, printed)
    }

    constructor (baseUrl: Url, outputDir: string, site: Site, tracker: PTracker)
      ensures Valid()
      ensures this.baseUrl == baseUrl && this.outputDir == outputDir
      ensures this.site == site && this.tracker == tracker
      ensures visitedUrls == {} && downloads == [] && reported == [] && printed == []
    {
      this.baseUrl := baseUrl;
      this.outputDir := outputDir;
      this.site := site;
      this.tracker := tracker;
      visitedUrls := {};
      downloads := [];
      reported := [];
      printed := [];
    }

    /**
     * The count pass, then the crawl.  The total is the number of URLs reachable from
     * baseUrl, whether or not they download.  A save failure ends the crawl at the page
     * that failed (`completed` is false) and is swallowed here.  The tracker counts one
     * increment per page reported, and when no reachable page fails to save, a fresh
     * crawler visits exactly the URLs that were counted and reports exactly those that
     * downloaded.
     */
    method StartCrawling() returns (ghost counted: seq<Url>, ghost completed: bool)
      requires Valid()
      modifies this, tracker
      ensures Valid()
      ensures tracker.totalUrls == |ReachSet(site, baseUrl, baseUrl)|
      ensures Distinct(counted) && forall u :: u in counted <==> u in ReachSet(site, baseUrl, baseUrl)
      ensures forall u :: u in visitedUrls && u !in old(visitedUrls) ==> u in ReachSet(site, baseUrl, baseUrl)
      ensures Tracked(|ReachSet(site, baseUrl, baseUrl)|, old(tracker.downloadedUrls), old(tracker.currentUrl),
                      old(printed), SavedPages(Walk(old(visitedUrls), baseUrl).downloads))
      ensures tracker.downloadedUrls - old(tracker.downloadedUrls) <= tracker.totalUrls
      // the count comes first: every line the crawl prints carries the counted total
      ensures forall k :: |old(printed)| <= k < |printed| ==>
                printed[k].Progress? && printed[k].total == |ReachSet(site, baseUrl, baseUrl)|
      // the crawl is the pre-order walk from baseUrl
      ensures visitedUrls == Walk(old(visitedUrls), baseUrl).visited
      ensures downloads == old(downloads) + Walk(old(visitedUrls), baseUrl).downloads
      ensures reported == old(reported) + SavedPages(Walk(old(visitedUrls), baseUrl).downloads)
      ensures completed == Walk(old(visitedUrls), baseUrl).ok
      // a save failure is the last thing the crawl does, at a reachable page
      ensures completed ==> VisitedSaved(old(visitedUrls)) && VisitedClosed(old(visitedUrls), {})
      ensures !completed ==> |downloads| > |old(downloads)| && StoppedAtSaveFailure() &&
                             downloads[|downloads| - 1] in ReachSet(site, baseUrl, baseUrl)
      // the start page is downloaded by both passes: first by the count, then by the crawl
      ensures counted != [] && counted[0] == baseUrl
      ensures baseUrl !in old(visitedUrls) ==> |downloads| > |old(downloads)| && downloads[|old(downloads)|] == baseUrl
      ensures old(visitedUrls) == {} && ReachSet(site, baseUrl, baseUrl) !! site.saveFails ==>
                visitedUrls == ReachSet(site, baseUrl, baseUrl)
                && forall u :: u in reported <==> u in visitedUrls && site.Download(u).Fetched?
    {
      var totalLinks;
      totalLinks, counted := CountTotalLinks(baseUrl);
      tracker.SetTotalUrls(totalLinks);
      ghost var before, downloadsBefore, reportedBefore := visitedUrls, downloads, reported;
      var ok := Crawl(baseUrl);
      completed := ok;
      CrawlOutcome(before, downloadsBefore, reportedBefore);
      ReachableFromItself(site, baseUrl, baseUrl);
      ReachableInReachSet(site, baseUrl, baseUrl, baseUrl);
      LinesAt(old(tracker.downloadedUrls), totalLinks, SavedPages(Walk(before, baseUrl).downloads));
    }

    /**
     * What the walk from baseUrl leaves behind, given the visited set, the downloads and
     * the reports before it: the crawler stays consistent; the walk stayed inside the
     * reach set and reported no more pages than the reach set holds; it saved and
     * followed everything it downloaded, or stopped at a reachable page that failed to
     * save; and it covered the whole reach set when the crawler was fresh and no
     * reachable page fails to save.
     */
    lemma CrawlOutcome(before: set<Url>, downloadsBefore: seq<Url>, reportedBefore: seq<Url>)
      requires Consistent(before, downloadsBefore, reportedBefore)
      requires visitedUrls == Walk(before, baseUrl).visited
      requires downloads == downloadsBefore + Walk(before, baseUrl).downloads
      requires reported == reportedBefore + SavedPages(Walk(before, baseUrl).downloads)
      ensures Consistent(visitedUrls, downloads, reported)
      ensures forall u :: u in visitedUrls && u !in before ==> u in ReachSet(site, baseUrl, baseUrl)
      ensures |reported| - |reportedBefore| <= |ReachSet(site, baseUrl, baseUrl)|
      ensures Walk(before, baseUrl).ok ==> VisitedSaved(before) && VisitedClosed(before, {})
      ensures !Walk(before, baseUrl).ok ==>
                |downloads| > |downloadsBefore| && StoppedAtSaveFailure() &&
                downloads[|downloads| - 1] in ReachSet(site, baseUrl, baseUrl)
      ensures before == {} && ReachSet(site, baseUrl, baseUrl) !! site.saveFails ==>
                visitedUrls == ReachSet(site, baseUrl, baseUrl)
                && forall u :: u in reported <==> u in visitedUrls && site.Download(u).Fetched?
    {
      var w := Walk(before, baseUrl);
      WalkIsSound(before, baseUrl);
      WalkOutcome(before, downloadsBefore, reportedBefore, baseUrl, w);
      VisitedWithinReach(before);
      ReportedWithinReach(reportedBefore, before);
      if !w.ok {
        StopWithinReach(downloadsBefore, before);
      }
      if before == {} && ReachSet(site, baseUrl, baseUrl) !! site.saveFails {
        FreshCrawlCoversReach();
      }
    }

    /** What the crawl from baseUrl visited since `before` lies in the reach set of baseUrl. */
    lemma VisitedWithinReach(before: set<Url>)
      requires VisitedReachable(before, baseUrl)
      ensures forall u :: u in visitedUrls && u !in before ==> u in ReachSet(site, baseUrl, baseUrl)
    {
      forall u | u in visitedUrls && u !in before ensures u in ReachSet(site, baseUrl, baseUrl) {
        ReachableInReachSet(site, baseUrl, baseUrl, u);
      }
    }

    /** The pages reported since `reportedBefore`, each once, are no more than the reach set holds. */
    lemma ReportedWithinReach(reportedBefore: seq<Url>, before: set<Url>)
      requires Consistent(visitedUrls, downloads, reported) && reportedBefore <= reported
      requires forall u :: u in reported && u !in reportedBefore ==> u !in before
      requires forall u :: u in visitedUrls && u !in before ==> u in ReachSet(site, baseUrl, baseUrl)
      ensures |reported| - |reportedBefore| <= |ReachSet(site, baseUrl, baseUrl)|
    {
      SavedPagesDistinct(downloads);
      var newlyReported := reported[|reportedBefore|..];
      forall u | u in newlyReported ensures u in ReachSet(site, baseUrl, baseUrl) {
        var k :| |reportedBefore| <= k < |reported| && reported[k] == u;
        assert u !in reportedBefore by {
          forall j | 0 <= j < |reportedBefore| ensures reportedBefore[j] != u {
            assert reportedBefore[j] == reported[j];
          }
        }
        assert u in downloads;
      }
      assert Distinct(newlyReported);
      DistinctWithin(newlyReported, ReachSet(site, baseUrl, baseUrl));
    }

    /** A page downloaded after `downloadsBefore` was not visited before, so it lies in the reach set. */
    lemma StopWithinReach(downloadsBefore: seq<Url>, before: set<Url>)
      requires Consistent(visitedUrls, downloads, reported) && downloadsBefore <= downloads
      requires |downloads| > |downloadsBefore|
      requires forall u :: u in downloadsBefore <==> u in before
      requires forall u :: u in visitedUrls && u !in before ==> u in ReachSet(site, baseUrl, baseUrl)
      ensures downloads[|downloads| - 1] in ReachSet(site, baseUrl, baseUrl)
    {
      var last := downloads[|downloads| - 1];
      assert last !in downloadsBefore by {
        assert downloadsBefore == downloads[..|downloadsBefore|];
      }
    }

    /**
     * A crawl from baseUrl by a fresh crawler that was not cut short visited exactly the
     * reach set and reported exactly its pages that downloaded.
     */
    lemma FreshCrawlCoversReach()
      requires Consistent(visitedUrls, downloads, reported) && baseUrl in visitedUrls
      requires VisitedReachable({}, baseUrl) && VisitedSaved({}) && VisitedClosed({}, {})
      ensures visitedUrls == ReachSet(site, baseUrl, baseUrl)
      ensures forall u :: u in reported <==> u in visitedUrls && site.Download(u).Fetched?
    {
      ReachSetCharacterized(site, baseUrl, baseUrl, visitedUrls);
    }

    /**
     * The reference order of crawl(url) from the visited set `visited`: a pre-order
     * depth-first walk.  A URL is marked visited and downloaded before its links; the links
     * are followed in document order; the first page that downloads but fails to save stops
     * the whole walk.
     */
    ghost function Walk(visited: set<Url>, url: Url): (w: Walked)
      ensures visited <= w.visited
      ensures StartsWith(url, baseUrl) ==> url in w.visited
      ensures url !in visited && StartsWith(url, baseUrl) ==> w.downloads != [] && w.downloads[0] == url
      decreases Targets(site) + {url} - visited, 1
    {
      if url in visited || !StartsWith(url, baseUrl) then Walked(visited, [], true)
      else if site.Download(url).Failed? then Walked(visited + {url}, [url], true)
      else if url in site.saveFails then Walked(visited + {url}, [url], false)
      else After([url], WalkLinks(visited + {url}, url, 0))
    }

    /** The walk over the links of the page `from`, from its i-th link on. */
    ghost function WalkLinks(visited: set<Url>, from: Url, i: nat): (w: Walked)
      requires site.Download(from).Fetched? && i <= |site.Download(from).links|
      ensures visited <= w.visited
      decreases Targets(site) - visited, 2, |site.Download(from).links| - i
    {
      var links := site.Download(from).links;
      if i == |links| then Walked(visited, [], true)
      else
        LinkIsTarget(site, from, links[i]);
        var w := Walk(visited, links[i]);
        if w.ok then After(w.downloads, WalkLinks(w.visited, from, i + 1)) else w
    }

    /**
     * What a walk `w` from the visited set `visited` leaves behind, for a walk that starts
     * at `root`: the visited set grows by exactly the URLs downloaded, each once, each new,
     * in scope and reachable from root.  A walk that completes saved every page it
     * downloaded and followed every in-scope link of them; one that stops ends on a page
     * that downloaded and failed to save.
     */
    ghost predicate WalkSound(visited: set<Url>, root: Url, w: Walked) {
      && (forall u :: u in w.visited <==> u in visited || u in w.downloads)
      && Distinct(w.downloads)
      && (forall u :: u in w.downloads ==>
            u !in visited && StartsWith(u, baseUrl) && Reachable(site, baseUrl, root, u))
      && (w.ok ==> forall u :: u in w.downloads && site.Download(u).Fetched? ==> u !in site.saveFails)
      && (w.ok ==> forall u, v :: u in w.downloads && Edge(site, baseUrl, u, v) ==> v in w.visited)
      && (!w.ok ==> w.downloads != [] && site.Download(w.downloads[|w.downloads| - 1]).Fetched?
                    && w.downloads[|w.downloads| - 1] in site.saveFails)
    }

    lemma {:induction false} WalkIsSound(visited: set<Url>, url: Url)
      ensures WalkSound(visited, url, Walk(visited, url))
      decreases Targets(site) + {url} - visited, 1
    {
      if url !in visited && StartsWith(url, baseUrl) {
        ReachableFromItself(site, baseUrl, url);
        if site.Download(url).Fetched? && url !in site.saveFails {
          var links := site.Download(url).links;
          var rest := WalkLinks(visited + {url}, url, 0);
          WalkLinksIsSound(visited + {url}, url, 0);
          DistinctConcat([url], rest.downloads);
          if rest.ok {
            forall v | Edge(site, baseUrl, url, v) ensures v in rest.visited {
              var j :| 0 <= j < |links| && links[j] == v;
            }
          }
        }
      }
    }

    lemma {:induction false} WalkLinksIsSound(visited: set<Url>, from: Url, i: nat)
      requires site.Download(from).Fetched? && i <= |site.Download(from).links|
      ensures WalkSound(visited, from, WalkLinks(visited, from, i))
      ensures WalkLinks(visited, from, i).ok ==>
                forall j :: i <= j < |site.Download(from).links| && StartsWith(site.Download(from).links[j], baseUrl) ==>
                  site.Download(from).links[j] in WalkLinks(visited, from, i).visited
      decreases Targets(site) - visited, 2, |site.Download(from).links| - i
    {
      var links := site.Download(from).links;
      if i < |links| {
        LinkIsTarget(site, from, links[i]);
        var w := Walk(visited, links[i]);
        WalkIsSound(visited, links[i]);
        forall u | u in w.downloads ensures Reachable(site, baseUrl, from, u) {
          assert Edge(site, baseUrl, from, links[i]);
          ReachablePrepend(site, baseUrl, from, links[i], u);
        }
        if w.ok {
          var rest := WalkLinks(w.visited, from, i + 1);
          WalkLinksIsSound(w.visited, from, i + 1);
          DistinctConcat(w.downloads, rest.downloads);
        }
      }
    }

    /**
     * One step of the walk over a page's links, behind the downloads `done`: the walk from
     * its i-th link, then the rest of the links if no save failed there.
     */
    lemma WalkLinksStep(visited: set<Url>, from: Url, i: nat, done: seq<Url>)
      requires site.Download(from).Fetched? && i < |site.Download(from).links|
      ensures var w := Walk(visited, site.Download(from).links[i]);
              After(done, WalkLinks(visited, from, i)) ==
                if w.ok then After(done + w.downloads, WalkLinks(w.visited, from, i + 1))
                else Walked(w.visited, done + w.downloads, false)
    {
      var w := Walk(visited, site.Download(from).links[i]);
      if w.ok {
        AfterAfter(done, w.downloads, WalkLinks(w.visited, from, i + 1));
      }
    }

    /**
     * The state a walk `w` from the visited set `before` leads to, with the downloads
     * `downloadsBefore` and the reports `reportedBefore` before it: the crawler stays
     * consistent, and the crawl's properties can be read off the walk.
     */
    lemma WalkOutcome(before: set<Url>, downloadsBefore: seq<Url>, reportedBefore: seq<Url>, root: Url, w: Walked)
      requires Consistent(before, downloadsBefore, reportedBefore) && WalkSound(before, root, w)
      requires visitedUrls == w.visited && downloads == downloadsBefore + w.downloads
      requires reported == reportedBefore + SavedPages(w.downloads)
      ensures Consistent(visitedUrls, downloads, reported)
      ensures VisitedReachable(before, root)
      ensures forall u :: u in reported && u !in reportedBefore ==> u !in before
      ensures w.ok ==> VisitedSaved(before) && VisitedClosed(before, {})
      ensures !w.ok ==> exists u :: u in visitedUrls && u !in before && site.Download(u).Fetched? &&
                                    u in site.saveFails
      ensures !w.ok ==> |downloads| > |downloadsBefore| && StoppedAtSaveFailure()
    {
      DistinctConcat(downloadsBefore, w.downloads);
      SavedPagesConcat(downloadsBefore, w.downloads);
      var saved := SavedPages(w.downloads);
      forall u | u in reported && u !in reportedBefore ensures u !in before {
        assert u in saved;
      }
      if w.ok {
        forall u | u in visitedUrls && u !in before && site.Download(u).Fetched?
          ensures u !in site.saveFails && u in reported
        {
          SavedPagesHas(w.downloads, u);
        }
      } else {
        var last := w.downloads[|w.downloads| - 1];
        assert downloads[|downloads| - 1] == last;
        assert last in w.downloads;
      }
    }

    /**
     * crawl(url).  Skips a visited or out-of-scope URL; otherwise marks it visited, then
     * downloads it, saves it, reports it, and crawls its links in order (CrawlLinks).  A
     * failed download only ends this call.  A failed save is an exception that no caller
     * up to startCrawling catches: here it is the result false, after which nothing more
     * is downloaded, saved or reported.  The crawl is exactly the pre-order walk `Walk`;
     * WalkIsSound and WalkOutcome state what that walk visits, saves and reports.
     */
    method Crawl(url: Url) returns (ok: bool)
      modifies this, tracker
      decreases Targets(site) + {url} - visitedUrls, 1
      ensures visitedUrls == Walk(old(visitedUrls), url).visited
      ensures downloads == old(downloads) + Walk(old(visitedUrls), url).downloads
      ensures reported == old(reported) + SavedPages(Walk(old(visitedUrls), url).downloads)
      ensures ok == Walk(old(visitedUrls), url).ok
      ensures Tracked(old(tracker.totalUrls), old(tracker.downloadedUrls), old(tracker.currentUrl),
                      old(printed), SavedPages(Walk(old(visitedUrls), url).downloads))
    {
      if url in visitedUrls || !StartsWith(url, baseUrl) {
        ok := true;
        assert downloads == downloads + [] && reported == reported + [];
      } else {
        visitedUrls := visitedUrls + {url};
        downloads := downloads + [url];
        var page := site.Download(url);
        if page.Failed? {
          ok := true;
          assert reported == reported + SavedPages([url]);
        } else if url in site.saveFails {
          ok := false;
          assert reported == reported + SavedPages([url]);
        } else {
          var line := tracker.IncrementDownloadedUrls(url);
          reported := reported + [url];
          printed := printed + [line];
          ghost var printedMid := printed;
          ghost var total, count, current := tracker.totalUrls, tracker.downloadedUrls, tracker.currentUrl;
          assert Lines(old(tracker.downloadedUrls), old(tracker.totalUrls), [url]) == [line];
          assert Tracks(old(tracker.totalUrls), old(tracker.downloadedUrls), old(tracker.currentUrl), old(printed), [url],
                        total, count, current, printedMid);
          ok := CrawlLinks(url, page.links);
          ghost var rest := WalkLinks(old(visitedUrls) + {url}, url, 0).downloads;
          TracksChain(old(tracker.totalUrls), old(tracker.downloadedUrls), old(tracker.currentUrl), old(printed), [url],
                      total, count, current, printedMid, SavedPages(rest),
                      tracker.totalUrls, tracker.downloadedUrls, tracker.currentUrl, printed);
          assert ([url] + rest)[1..] == rest;
          AppendAssoc(old(downloads), [url], rest);
          AppendAssoc(old(reported), [url], SavedPages(rest));
        }
      }
    }

    /**
     * The loop of crawl over the links of a page `from`: each link is crawled in document
     * order, and a save failure in one of those crawls propagates at once, so no later
     * link is crawled.  The loop is exactly the walk `WalkLinks` over the page's links.
     */
    method CrawlLinks(from: Url, links: seq<Url>) returns (ok: bool)
      requires site.Download(from) == Fetched(links)
      modifies this, tracker
      decreases Targets(site) - visitedUrls, 2
      ensures visitedUrls == WalkLinks(old(visitedUrls), from, 0).visited
      ensures downloads == old(downloads) + WalkLinks(old(visitedUrls), from, 0).downloads
      ensures reported == old(reported) + SavedPages(WalkLinks(old(visitedUrls), from, 0).downloads)
      ensures ok == WalkLinks(old(visitedUrls), from, 0).ok
      ensures Tracked(old(tracker.totalUrls), old(tracker.downloadedUrls), old(tracker.currentUrl),
                      old(printed), SavedPages(WalkLinks(old(visitedUrls), from, 0).downloads))
    {
      ghost var done: seq<Url> := [];
      ok := true;
      var i := 0;
      while i < |links| && ok
        invariant 0 <= i <= |links|
        invariant old(visitedUrls) <= visitedUrls
        invariant downloads == old(downloads) + done
        invariant reported == old(reported) + SavedPages(done)
        invariant Tracked(old(tracker.totalUrls), old(tracker.downloadedUrls), old(tracker.currentUrl),
                          old(printed), SavedPages(done))
        invariant ok ==> WalkLinks(old(visitedUrls), from, 0) == After(done, WalkLinks(visitedUrls, from, i))
        invariant !ok ==> WalkLinks(old(visitedUrls), from, 0) == Walked(visitedUrls, done, false)
        decreases |links| - i
      {
        var next := links[i];
        LinkIsTarget(site, from, next);
        ghost var w := Walk(visitedUrls, next);
        ghost var printedBefore, doneBefore := printed, done;
        ghost var total, count, current := tracker.totalUrls, tracker.downloadedUrls, tracker.currentUrl;
        WalkLinksStep(visitedUrls, from, i, done);
        ok := Crawl(next);
        TracksChain(old(tracker.totalUrls), old(tracker.downloadedUrls), old(tracker.currentUrl), old(printed),
                    SavedPages(doneBefore), total, count, current, printedBefore, SavedPages(w.downloads),
                    tracker.totalUrls, tracker.downloadedUrls, tracker.currentUrl, printed);
        done := done + w.downloads;
        SavedPagesConcat(doneBefore, w.downloads);
        AppendAssoc(old(downloads), doneBefore, w.downloads);
        AppendAssoc(old(reported), SavedPages(doneBefore), SavedPages(w.downloads));
        i := i + 1;
      }
      if ok {
        assert done + [] == done;
      }
    }

    /** countTotalLinks(url): the size of the set exploreLinks fills, starting empty. */
    method CountTotalLinks(url: Url) returns (n: nat, ghost fetched: seq<Url>)
      ensures StartsWith(url, baseUrl) ==> n == |ReachSet(site, baseUrl, url)|
      ensures !StartsWith(url, baseUrl) ==> n == 0 && fetched == []
      ensures StartsWith(url, baseUrl) ==> fetched != [] && fetched[0] == url
      ensures StartsWith(url, baseUrl) ==>
                Distinct(fetched) && forall u :: u in fetched <==> u in ReachSet(site, baseUrl, url)
    {
      var allLinks;
      allLinks, fetched := ExploreLinks(url, {});
      if StartsWith(url, baseUrl) {
        ReachSetCharacterized(site, baseUrl, url, allLinks);
      }
      n := |allLinks|;
    }

    /**
     * exploreLinks(url, allLinks): the crawl's traversal without saving or reporting.
     * Every URL it adds is in scope, reachable from url, and downloaded exactly once
     * (`fetched`), including those whose download fails; what it adds is closed under
     * in-scope links.
     */
    method ExploreLinks(url: Url, allLinks: set<Url>) returns (result: set<Url>, ghost fetched: seq<Url>)
      decreases Targets(site) + {url} - allLinks
      ensures allLinks <= result
      ensures url in allLinks || !StartsWith(url, baseUrl) ==> result == allLinks && fetched == []
      ensures url !in allLinks && StartsWith(url, baseUrl) ==> url in result && fetched != [] && fetched[0] == url
      ensures Distinct(fetched) && forall u :: u in fetched <==> u in result && u !in allLinks
      ensures forall u :: u in result && u !in allLinks ==> StartsWith(u, baseUrl) && Reachable(site, baseUrl, url, u)
      ensures forall u, v :: u in result && u !in allLinks && Edge(site, baseUrl, u, v) ==> v in result
    {
      if url in allLinks || !StartsWith(url, baseUrl) {
        return allLinks, [];
      }
      result := allLinks + {url};
      fetched := [url];
      ReachableFromItself(site, baseUrl, url);

      var page := site.Download(url);
      if page.Failed? {
        return;
      }
      var links := page.links;
      for i := 0 to |links|
        invariant allLinks + {url} <= result
        invariant fetched != [] && fetched[0] == url
        invariant Distinct(fetched) && forall u :: u in fetched <==> u in result && u !in allLinks
        invariant forall u :: u in result && u !in allLinks ==> StartsWith(u, baseUrl) && Reachable(site, baseUrl, url, u)
        invariant forall j :: 0 <= j < i && StartsWith(links[j], baseUrl) ==> links[j] in result
        invariant forall u, v :: u in result && u !in allLinks && u != url && Edge(site, baseUrl, u, v) ==> v in result
      {
        var next := links[i];
        LinkIsTarget(site, url, next);
        var more, moreFetched := ExploreLinks(next, result);
        forall u | u in more && u !in result ensures Reachable(site, baseUrl, url, u) {
          ReachablePrepend(site, baseUrl, url, next, u);
        }
        DistinctConcat(fetched, moreFetched);
        result, fetched := more, fetched + moreFetched;
      }
    }
  }
}
