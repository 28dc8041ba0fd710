/**
 * The progress counter of tracker/PTracker.java and of its twin ProgressTracker.java
 * (the same three fields and methods, protected instead of private).
 */
module Tracker {

  /** What printProgress writes: the "not set" notice, or the counts behind the percentage line. */
  datatype ProgressLine = TotalNotSet | Progress(downloaded: int, total: int, url: string)

  /** The line printProgress gives after an increment: the notice while no total is set. */
  function Line(downloaded: int, total: int, url: string): (l: ProgressLine)
    ensures l.TotalNotSet? <==> total == 0
    ensures l.Progress? ==> l.downloaded == downloaded && l.total == total && l.url == url
  {
    if total == 0 then TotalNotSet else Progress(downloaded, total, url)
  }

  /**
   * The lines printed by one increment per URL of `urls`, starting from the count `count`
   * under the fixed total `total`.
   */
  function Lines(count: int, total: int, urls: seq<string>): (r: seq<ProgressLine>)
    ensures |r| == |urls|
    decreases |urls|
  {
    if urls == [] then []
    else Lines(count, total, urls[..|urls| - 1]) + [Line(count + |urls|, total, urls[|urls| - 1])]
  }

  /** The k-th line printed carries the count after k + 1 increments, the total and the k-th URL. */
  lemma {:induction false} LinesAt(count: int, total: int, urls: seq<string>)
    ensures forall k :: 0 <= k < |urls| ==> Lines(count, total, urls)[k] == Line(count + k + 1, total, urls[k])
    decreases |urls|
  {
    if urls != [] {
      var init := urls[..|urls| - 1];
      LinesAt(count, total, init);
      forall k | 0 <= k < |urls| ensures Lines(count, total, urls)[k] == Line(count + k + 1, total, urls[k]) {
        if k < |init| {
          assert urls[k] == init[k];
        }
      }
    }
  }

  /** Increments for a + b print the lines for a, then those for b from the count a left. */
  lemma {:induction false} LinesAppend(count: int, total: int, a: seq<string>, b: seq<string>)
    ensures Lines(count, total, a + b) == Lines(count, total, a) + Lines(count + |a|, total, b)
    decreases |b|
  {
    if b != [] {
      var init := b[..|b| - 1];
      assert (a + b)[..|a + b| - 1] == a + init;
      LinesAppend(count, total, a, init);
    } else {
      assert a + b == a;
    }
  }

  class PTracker {
    var totalUrls: int
    var downloadedUrls: int
    var currentUrl: string

    constructor ()
      ensures totalUrls == 0 && downloadedUrls == 0 && currentUrl == ""
    {
      totalUrls := 0;
      downloadedUrls := 0;
      currentUrl := "";
    }

    /** Sets the total and nothing else. */
    method SetTotalUrls(total: int)
      modifies this
      ensures totalUrls == total
      ensures downloadedUrls == old(downloadedUrls) && currentUrl == old(currentUrl)
    {
      totalUrls := total;
    }

    /** Counts one more download, remembers its URL and prints the progress line. */
    method IncrementDownloadedUrls(url: string) returns (line: ProgressLine)
      modifies this
      ensures downloadedUrls == old(downloadedUrls) + 1 && currentUrl == url
      ensures totalUrls == old(totalUrls)
      ensures line == Line(downloadedUrls, totalUrls, url)
    {
      downloadedUrls := downloadedUrls + 1;
      currentUrl := url;
      line := PrintProgress();
    }

    /**
     * Reads the three fields and changes none of them: with no total it only gives the
     * notice; otherwise the counts and the current URL from which the percentage is printed.
     */
    method PrintProgress() returns (line: ProgressLine)
      ensures line.TotalNotSet? <==> totalUrls == 0
      ensures line.Progress? ==> line.downloaded == downloadedUrls && line.total == totalUrls
      ensures line.Progress? ==> line.url == currentUrl
    {
      if totalUrls == 0 {
        return TotalNotSet;
      }
      line := Progress(downloadedUrls, totalUrls, currentUrl);
    }
  }

  /**
   * A fresh tracker given a total and then one increment per URL: the count is the number
   * of increments, with no clamping against the total, the current URL is the last one, and
   * the lines printed are those of Lines.
   */
  method Replay(total: int, urls: seq<string>) returns (t: PTracker, printed: seq<ProgressLine>)
    ensures fresh(t)
    ensures t.totalUrls == total && t.downloadedUrls == |urls|
    ensures t.currentUrl == if urls == [] then "" else urls[|urls| - 1]
    ensures printed == Lines(0, total, urls)
  {
    t := new PTracker();
    t.SetTotalUrls(total);
    printed := [];
    for i := 0 to |urls|
      invariant t.totalUrls == total && t.downloadedUrls == i
      invariant t.currentUrl == if i == 0 then "" else urls[i - 1]
      invariant printed == Lines(0, total, urls[..i])
    {
      var line := t.IncrementDownloadedUrls(urls[i]);
      assert urls[..i + 1][..i] == urls[..i];
      printed := printed + [line];
    }
    assert urls[..|urls|] == urls;
  }
}
