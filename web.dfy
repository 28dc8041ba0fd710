/**
 * The world the crawler runs in, seen through its collaborators: what the downloader
 * returns for each URL (the links Jsoup extracts from a page, already resolved by absUrl
 * and passed through cleanUrl), and which URLs saveToFile fails on.  On top of it, the
 * link graph restricted by the baseUrl prefix, and what can be reached in it.
 */
module Web {
  import opened Strings

  type Url = string

  /** downloader.download(url): an IOException, or the page's links in document order. */
  datatype Fetch = Failed | Fetched(links: seq<Url>)

  datatype Site = Site(pages: map<Url, Fetch>, saveFails: set<Url>) {
    /** A URL the map does not mention fails to download. */
    function Download(url: Url): (f: Fetch)
      ensures f.Fetched? ==> url in pages && pages[url] == f
      ensures url !in pages ==> f.Failed?
      ensures url in pages ==> f == pages[url]
    {
      if url in pages then pages[url] else Failed
    }
  }

  /** Every URL that occurs as a link on some page: with the start URL, all a crawl can ever see. */
  ghost function Targets(site: Site): set<Url> {
    set u, v | u in site.pages && site.pages[u].Fetched? && v in site.pages[u].links :: v
  }

  /** u downloads, v is one of its links, and v passes the scope test `v.startsWith(base)`. */
  ghost predicate Edge(site: Site, base: Url, u: Url, v: Url) {
    site.Download(u).Fetched? && v in site.Download(u).links && StartsWith(v, base)
  }

  ghost predicate IsPath(site: Site, base: Url, p: seq<Url>) {
    |p| >= 1 && forall i :: 0 <= i < |p| - 1 ==> Edge(site, base, p[i], p[i + 1])
  }

  ghost predicate Reachable(site: Site, base: Url, from: Url, to: Url) {
    exists p :: IsPath(site, base, p) && p[0] == from && p[|p| - 1] == to
  }

  /** The URLs reachable from `from` through in-scope links of pages that download. */
  ghost function ReachSet(site: Site, base: Url, from: Url): set<Url> {
    set u | u in Targets(site) + {from} && Reachable(site, base, from, u)
  }

  /** No in-scope link leads out of s. */
  ghost predicate Closed(site: Site, base: Url, s: set<Url>) {
    forall u, v :: u in s && Edge(site, base, u, v) ==> v in s
  }

  predicate Distinct(s: seq<Url>) {
    forall i, j :: 0 <= i < j < |s| ==> s[i] != s[j]
  }

  lemma LinkIsTarget(site: Site, u: Url, v: Url)
    requires site.Download(u).Fetched? && v in site.Download(u).links
    ensures v in Targets(site)
  {
    assert u in site.pages && site.pages[u].Fetched? && v in site.pages[u].links;
  }

  lemma ReachableFromItself(site: Site, base: Url, from: Url)
    ensures Reachable(site, base, from, from)
  {
    assert IsPath(site, base, [from]);
  }

  /** A path followed by one more in-scope link is a path. */
  lemma ReachableAppend(site: Site, base: Url, from: Url, u: Url, v: Url)
    requires Reachable(site, base, from, u) && Edge(site, base, u, v)
    ensures Reachable(site, base, from, v)
  {
    var p :| IsPath(site, base, p) && p[0] == from && p[|p| - 1] == u;
    var q := p + [v];
    assert IsPath(site, base, q);
  }

  /** An in-scope link followed by a path is a path. */
  lemma ReachablePrepend(site: Site, base: Url, from: Url, u: Url, v: Url)
    requires Edge(site, base, from, u) && Reachable(site, base, u, v)
    ensures Reachable(site, base, from, v)
  {
    var p :| IsPath(site, base, p) && p[0] == u && p[|p| - 1] == v;
    var q := [from] + p;
    assert forall i :: 1 <= i < |q| ==> q[i] == p[i - 1];
    assert IsPath(site, base, q);
  }

  /** Whatever is reachable lies in the finite universe of the start URL and the link targets. */
  lemma ReachableInReachSet(site: Site, base: Url, from: Url, u: Url)
    requires Reachable(site, base, from, u)
    ensures u in ReachSet(site, base, from)
  {
    var p :| IsPath(site, base, p) && p[0] == from && p[|p| - 1] == u;
    if |p| > 1 {
      LinkIsTarget(site, p[|p| - 2], u);
    }
  }

  /** Apart from the start URL itself, everything reachable passed the scope test on the way in. */
  lemma ReachSetInScope(site: Site, base: Url, from: Url, u: Url)
    requires u in ReachSet(site, base, from) && u != from
    ensures StartsWith(u, base)
  {
    var p :| IsPath(site, base, p) && p[0] == from && p[|p| - 1] == u;
    assert Edge(site, base, p[|p| - 2], u);
  }

  /** The last URL of a path from inside a closed set is inside it. */
  lemma {:induction false} ClosedHoldsPathEnd(site: Site, base: Url, s: set<Url>, p: seq<Url>)
    requires Closed(site, base, s) && IsPath(site, base, p) && p[0] in s
    ensures p[|p| - 1] in s
    decreases |p|
  {
    if |p| > 1 {
      var q := p[..|p| - 1];
      assert IsPath(site, base, q);
      ClosedHoldsPathEnd(site, base, s, q);
      assert Edge(site, base, q[|q| - 1], p[|p| - 1]);
    }
  }

  /** A closed set that holds the start URL holds everything reachable from it. */
  lemma ReachSetWithinClosed(site: Site, base: Url, from: Url, s: set<Url>)
    requires from in s && Closed(site, base, s)
    ensures ReachSet(site, base, from) <= s
  {
    forall u | u in ReachSet(site, base, from) ensures u in s {
      var p :| IsPath(site, base, p) && p[0] == from && p[|p| - 1] == u;
      ClosedHoldsPathEnd(site, base, s, p);
    }
  }

  /**
   * The set a traversal ends with is exactly the reach set when it holds the start URL,
   * is closed, and holds only reachable URLs.
   */
  lemma ReachSetCharacterized(site: Site, base: Url, from: Url, s: set<Url>)
    requires from in s && Closed(site, base, s)
    requires forall u :: u in s ==> Reachable(site, base, from, u)
    ensures s == ReachSet(site, base, from)
  {
    ReachSetWithinClosed(site, base, from, s);
    forall u | u in s ensures u in ReachSet(site, base, from) {
      ReachableInReachSet(site, base, from, u);
    }
  }

  /** A sequence without repetitions has as many elements as its set. */
  lemma {:induction false} DistinctCard(s: seq<Url>)
    requires Distinct(s)
    ensures |set x | x in s| == |s|
  {
    if s != [] {
      var t := s[..|s| - 1];
      var last := s[|s| - 1];
      DistinctCard(t);
      assert (set x | x in s) == (set x | x in t) + {last};
      assert last !in t;
    }
  }

  /** The position of the first occurrence of v in s. */
  function FirstIndex(s: seq<Url>, v: Url): (i: nat)
    requires v in s
    ensures i < |s| && s[i] == v && v !in s[..i]
  {
    if s[0] == v then 0
    else
      var j := FirstIndex(s[1..], v);
      assert s[..j + 1] == [s[0]] + s[1..][..j];
      j + 1
  }

  /** Appending to a sequence does not move the first occurrence of what it already holds. */
  lemma FirstIndexOfPrefix(s: seq<Url>, x: Url, v: Url)
    requires v in s
    ensures FirstIndex(s + [x], v) == FirstIndex(s, v)
  {
    var i, j := FirstIndex(s + [x], v), FirstIndex(s, v);
    assert (s + [x])[j] == v;
  }

  /** Growing a set within a bound shrinks what the bound holds beyond it. */
  lemma RemainderShrinks(a: set<Url>, b: set<Url>, bound: set<Url>)
    requires a < b <= bound
    ensures bound - b < bound - a
  {
    var v :| v in b && v !in a;
    assert v in (bound - a) - (bound - b);
  }

  /** Dropping the first k entries of s + t leaves what is left of s, then t. */
  lemma DropAppended(s: seq<Url>, t: seq<Url>, k: nat)
    requires k <= |s|
    ensures (s + t)[k..] == s[k..] + t
  {
  }

  /** Taking the head off s[k..] leaves s[k + 1..]. */
  lemma DropFirst(s: seq<Url>, k: nat)
    requires k < |s|
    ensures s[k..][0] == s[k] && s[k..][1..] == s[k + 1..]
  {
  }

  /** Two sequences without repetitions and without common elements concatenate without repetitions. */
  lemma DistinctConcat(a: seq<Url>, b: seq<Url>)
    requires Distinct(a) && Distinct(b) && forall x :: x in a ==> x !in b
    ensures Distinct(a + b)
  {
    forall i, j | 0 <= i < j < |a + b| ensures (a + b)[i] != (a + b)[j] {
      if i < |a| && j >= |a| {
        assert (a + b)[i] in a && (a + b)[j] == b[j - |a|];
      }
    }
  }

  /** A sequence without repetitions drawn from a set is no longer than the set. */
  lemma DistinctWithin(s: seq<Url>, bound: set<Url>)
    requires Distinct(s) && forall x :: x in s ==> x in bound
    ensures |s| <= |bound|
  {
    DistinctCard(s);
    assert (set x | x in s) <= bound;
    SubsetCard((set x | x in s), bound);
  }

  lemma {:induction false} SubsetCard(a: set<Url>, b: set<Url>)
    requires a <= b
    ensures |a| <= |b|
    decreases |b|
  {
    if b != {} {
      var x :| x in b;
      SubsetCard(a - {x}, b - {x});
    }
  }

  /**
   * The scope test is a plain string prefix, not a host comparison: a base without a
   * trailing slash admits a different host that merely extends its name.
   */
  lemma ScopeIsTextualPrefix(base: Url, other: Url)
    requires base == "http://example.com" && other == "http://example.com.other/x"
    ensures StartsWith(other, base)
  {
  }
}
