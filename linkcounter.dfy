/**
 * crawler/LinkCounter.java: the breadth-first count.  Unlike WebCrawler's exploreLinks,
 * the start URL is counted without the scope test, and a URL is added to the set the
 * moment it is discovered, not when it is dequeued.
 */
module LinkCounter {
  import opened Strings
  import opened Web

  class LinkCounter {
    const baseUrl: Url
    /** The downloader, seen as what each URL downloads to. */
    const site: Site

    constructor (baseUrl: Url, site: Site)
      ensures this.baseUrl == baseUrl && this.site == site
    {
      this.baseUrl := baseUrl;
      this.site := site;
    }

    /**
     * The URLs discovered from url so far: `order` lists the set once each in discovery
     * order, and every one is a link target (or url) reachable from url.
     */
    ghost predicate Discovered(url: Url, allLinks: set<Url>, order: seq<Url>) {
      && Distinct(order) && order != [] && order[0] == url
      && (forall u :: u in allLinks <==> u in order)
      && allLinks <= Targets(site) + {url}
      && (forall u :: u in allLinks ==> Reachable(site, baseUrl, url, u))
    }

    /** The first `done` URLs of `order` have had all their in-scope links discovered. */
    ghost predicate Expanded(order: seq<Url>, done: nat, allLinks: set<Url>) {
      forall j, v {:trigger Edge(site, baseUrl, order[j], v)} ::
        0 <= j < done && j < |order| && Edge(site, baseUrl, order[j], v) ==> v in allLinks
    }

    /** On the page of `page`, the first link to v comes before the first link to w. */
    ghost predicate LinkedBefore(page: Url, v: Url, w: Url) {
      var f := site.Download(page);
      f.Fetched? && v in f.links && w in f.links && FirstIndex(f.links, v) < FirstIndex(f.links, w)
    }

    /**
     * First-in-first-out discovery.  Each URL after the first was found on the page of an
     * earlier one (`parent`), among the first `polled` URLs, those already taken off the
     * queue.  That parent is the first page in queue order that links to the URL, parents
     * come in queue order, and the URLs found on one page come in the order of their first
     * link on it.
     */
    ghost predicate BreadthFirst(order: seq<Url>, parent: seq<nat>, polled: nat) {
      |parent| == |order| && FoundOnParent(order, parent, polled) && FirstParent(order, parent)
      && ParentsInQueueOrder(order, parent) && SiblingsInLinkOrder(order, parent)
    }

    ghost predicate FoundOnParent(order: seq<Url>, parent: seq<nat>, polled: nat)
      requires |parent| == |order|
    {
      forall j :: 1 <= j < |order| ==>
        parent[j] < j && parent[j] < polled && Edge(site, baseUrl, order[parent[j]], order[j])
    }

    ghost predicate FirstParent(order: seq<Url>, parent: seq<nat>)
      requires |parent| == |order|
    {
      forall j, i {:trigger Edge(site, baseUrl, order[i], order[j])} ::
        1 <= j < |order| && 0 <= i < parent[j] && i < j ==> !Edge(site, baseUrl, order[i], order[j])
    }

    ghost predicate ParentsInQueueOrder(order: seq<Url>, parent: seq<nat>)
      requires |parent| == |order|
    {
      forall k :: 2 <= k < |order| ==> parent[k - 1] <= parent[k]
    }

    ghost predicate SiblingsInLinkOrder(order: seq<Url>, parent: seq<nat>)
      requires |parent| == |order|
    {
      forall k :: 2 <= k < |order| && parent[k - 1] == parent[k] && parent[k] < |order| ==>
        LinkedBefore(order[parent[k]], order[k - 1], order[k])
    }

    /**
     * The pairwise reading of BreadthFirst: the parents of any two URLs come in queue order,
     * and any two URLs found on the same page come in the order of their first link on it.
     */
    lemma BreadthFirstPairwise(order: seq<Url>, parent: seq<nat>, polled: nat)
      requires BreadthFirst(order, parent, polled)
      ensures forall j, k :: 1 <= j < k < |order| ==> parent[j] <= parent[k]
      ensures forall j, k :: 1 <= j < k < |order| && parent[j] == parent[k] ==>
                parent[k] < k && LinkedBefore(order[parent[k]], order[j], order[k])
    {
      forall j, k | 1 <= j < k < |order| ensures parent[j] <= parent[k] {
        ParentsMonotone(order, parent, j, k);
      }
      forall j, k | 1 <= j < k < |order| && parent[j] == parent[k]
        ensures parent[k] < k && LinkedBefore(order[parent[k]], order[j], order[k])
      {
        SiblingsOrdered(order, parent, polled, j, k);
      }
    }

    lemma {:induction false} ParentsMonotone(order: seq<Url>, parent: seq<nat>, j: nat, k: nat)
      requires |parent| == |order| && ParentsInQueueOrder(order, parent) && 1 <= j <= k < |order|
      ensures parent[j] <= parent[k]
      decreases k - j
    {
      if j < k {
        ParentsMonotone(order, parent, j, k - 1);
      }
    }

    lemma {:induction false} SiblingsOrdered(order: seq<Url>, parent: seq<nat>, polled: nat, j: nat, k: nat)
      requires BreadthFirst(order, parent, polled) && 1 <= j < k < |order| && parent[j] == parent[k]
      ensures parent[k] < k && LinkedBefore(order[parent[k]], order[j], order[k])
      decreases k - j
    {
      ParentsMonotone(order, parent, j, k - 1);
      assert parent[k - 1] == parent[k];
      if j < k - 1 {
        SiblingsOrdered(order, parent, polled, j, k - 1);
      }
    }

    /** Taking one more URL off the queue keeps the discovery first-in-first-out. */
    lemma PolledOneMore(order: seq<Url>, parent: seq<nat>, polled: nat)
      requires BreadthFirst(order, parent, polled)
      ensures BreadthFirst(order, parent, polled + 1)
    {
    }

    /**
     * Appending a link of the URL polled last keeps the discovery first-in-first-out, when
     * no earlier page links to it and it comes after that page's URLs already queued.
     */
    lemma DiscoverChild(order: seq<Url>, parent: seq<nat>, polled: nat, nextUrl: Url)
      requires BreadthFirst(order, parent, polled) && 1 <= polled <= |order|
      requires Edge(site, baseUrl, order[polled - 1], nextUrl)
      requires forall i :: 0 <= i < polled - 1 ==> !Edge(site, baseUrl, order[i], nextUrl)
      requires forall j :: 1 <= j < |order| && parent[j] == polled - 1 ==> LinkedBefore(order[polled - 1], order[j], nextUrl)
      ensures BreadthFirst(order + [nextUrl], parent + [polled - 1], polled)
    {
      var order', parent' := order + [nextUrl], parent + [polled - 1];
      ChildFoundOnParent(order, parent, polled, nextUrl);
      ChildFirstParent(order, parent, polled, nextUrl);
      ChildParentInQueueOrder(order, parent, polled, nextUrl);
      ChildSiblingsInLinkOrder(order, parent, polled, nextUrl);
    }

    lemma ChildFoundOnParent(order: seq<Url>, parent: seq<nat>, polled: nat, nextUrl: Url)
      requires |parent| == |order| && FoundOnParent(order, parent, polled) && 1 <= polled <= |order|
      requires Edge(site, baseUrl, order[polled - 1], nextUrl)
      ensures FoundOnParent(order + [nextUrl], parent + [polled - 1], polled)
    {
      var order', parent' := order + [nextUrl], parent + [polled - 1];
      forall j | 1 <= j < |order'|
        ensures parent'[j] < j && parent'[j] < polled && Edge(site, baseUrl, order'[parent'[j]], order'[j])
      {
        if j < |order| {
          assert order'[j] == order[j] && parent'[j] == parent[j] && order'[parent[j]] == order[parent[j]];
        }
      }
    }

    lemma ChildFirstParent(order: seq<Url>, parent: seq<nat>, polled: nat, nextUrl: Url)
      requires |parent| == |order| && FirstParent(order, parent) && 1 <= polled <= |order|
      requires forall i :: 0 <= i < polled - 1 ==> !Edge(site, baseUrl, order[i], nextUrl)
      ensures FirstParent(order + [nextUrl], parent + [polled - 1])
    {
      var order', parent' := order + [nextUrl], parent + [polled - 1];
      forall j, i | 1 <= j < |order'| && 0 <= i < parent'[j] && i < j
        ensures !Edge(site, baseUrl, order'[i], order'[j])
      {
        assert order'[i] == order[i];
        if j < |order| {
          assert order'[j] == order[j] && parent'[j] == parent[j];
        }
      }
    }

    lemma ChildParentInQueueOrder(order: seq<Url>, parent: seq<nat>, polled: nat, nextUrl: Url)
      requires |parent| == |order| && ParentsInQueueOrder(order, parent)
      requires forall j :: 1 <= j < |order| ==> parent[j] < polled
      requires 1 <= polled
      ensures ParentsInQueueOrder(order + [nextUrl], parent + [polled - 1])
    {
      var parent' := parent + [polled - 1];
      assert forall j :: 0 <= j < |parent| ==> parent'[j] == parent[j];
    }

    lemma ChildSiblingsInLinkOrder(order: seq<Url>, parent: seq<nat>, polled: nat, nextUrl: Url)
      requires |parent| == |order| && SiblingsInLinkOrder(order, parent) && 1 <= polled <= |order|
      requires forall j :: 1 <= j < |order| ==> parent[j] < j
      requires forall j :: 1 <= j < |order| && parent[j] == polled - 1 ==> LinkedBefore(order[polled - 1], order[j], nextUrl)
      ensures SiblingsInLinkOrder(order + [nextUrl], parent + [polled - 1])
    {
      var order', parent' := order + [nextUrl], parent + [polled - 1];
      forall k | 2 <= k < |order'| && parent'[k - 1] == parent'[k] && parent'[k] < |order'|
        ensures LinkedBefore(order'[parent'[k]], order'[k - 1], order'[k])
      {
        assert order'[k - 1] == order[k - 1] && parent'[k - 1] == parent[k - 1];
        if k < |order| {
          assert order'[k] == order[k] && parent'[k] == parent[k] && order'[parent[k]] == order[parent[k]];
        } else {
          assert order'[polled - 1] == order[polled - 1];
        }
      }
    }

    /**
     * The links of a page that the loop adds, in the order it adds them: each in-scope link
     * not already known, at its first occurrence.
     */
    function NewLinks(links: seq<Url>, known: set<Url>): (r: seq<Url>)
      ensures Distinct(r)
      ensures forall v :: v in r <==> v in links && v !in known && StartsWith(v, baseUrl)
      decreases |links|
    {
      if links == [] then []
      else
        var init := NewLinks(links[..|links| - 1], known);
        var last := links[|links| - 1];
        assert links == links[..|links| - 1] + [last];
        if last !in known && StartsWith(last, baseUrl) && last !in init then init + [last] else init
    }

    /** Every URL of r is a link of the page, and r lists them in the order of their first link. */
    ghost predicate InLinkOrder(links: seq<Url>, r: seq<Url>) {
      (forall a :: 0 <= a < |r| ==> r[a] in links)
      && forall a, b :: 0 <= a < b < |r| ==> FirstIndex(links, r[a]) < FirstIndex(links, r[b])
    }

    /** The new links keep the order of their first occurrences on the page. */
    lemma {:induction false} NewLinksInDocumentOrder(links: seq<Url>, known: set<Url>)
      ensures InLinkOrder(links, NewLinks(links, known))
      decreases |links|
    {
      if links != [] {
        var prefix, last := links[..|links| - 1], links[|links| - 1];
        assert links == prefix + [last];
        NewLinksInDocumentOrder(prefix, known);
        var init := NewLinks(prefix, known);
        assert InLinkOrder(prefix, init);
        forall v | v in prefix ensures FirstIndex(links, v) == FirstIndex(prefix, v) {
          FirstIndexOfPrefix(prefix, last, v);
        }
        var r := NewLinks(links, known);
        if last !in known && StartsWith(last, baseUrl) && last !in init {
          assert last !in prefix;
          assert FirstIndex(links, last) == |prefix|;
          assert r == init + [last];
        } else {
          assert r == init;
        }
        forall a, b | 0 <= a < b < |r| ensures FirstIndex(links, r[a]) < FirstIndex(links, r[b]) {
          assert r[a] == init[a] && init[a] in prefix;
          assert FirstIndex(links, r[a]) == FirstIndex(prefix, init[a]);
          if b < |init| {
            assert r[b] == init[b] && init[b] in prefix;
            assert FirstIndex(links, r[b]) == FirstIndex(prefix, init[b]);
            assert FirstIndex(prefix, init[a]) < FirstIndex(prefix, init[b]);
          } else {
            assert r[b] == last;
          }
        }
      }
    }

    /** A page whose in-scope links have all been discovered is expanded. */
    lemma LinksExpanded(currentUrl: Url, links: seq<Url>, allLinks: set<Url>)
      requires site.Download(currentUrl) == Fetched(links)
      requires forall k :: 0 <= k < |links| && StartsWith(links[k], baseUrl) ==> links[k] in allLinks
      ensures forall v :: Edge(site, baseUrl, currentUrl, v) ==> v in allLinks
    {
      forall v | Edge(site, baseUrl, currentUrl, v) ensures v in allLinks {
        var k :| 0 <= k < |links| && links[k] == v;
      }
    }

    /** Discovering an in-scope link of a URL already discovered keeps both predicates. */
    lemma DiscoverLink(url: Url, allLinks: set<Url>, order: seq<Url>, done: nat, currentUrl: Url, nextUrl: Url)
      requires Discovered(url, allLinks, order) && Expanded(order, done, allLinks)
      requires currentUrl in allLinks && Edge(site, baseUrl, currentUrl, nextUrl) && nextUrl !in allLinks
      ensures Discovered(url, allLinks + {nextUrl}, order + [nextUrl])
      ensures Expanded(order + [nextUrl], done, allLinks + {nextUrl})
    {
      LinkIsTarget(site, currentUrl, nextUrl);
      ReachableAppend(site, baseUrl, url, currentUrl, nextUrl);
      var order' := order + [nextUrl];
      assert forall j :: 0 <= j < |order| ==> order'[j] == order[j];
    }

    /**
     * The `for (Element link : links)` loop of countTotalLinks, on the page of the URL just
     * polled: the page's in-scope links not yet known join the set and the back of the
     * queue together, in document order and once each; the queue keeps its old entries.
     */
    method DiscoverLinks(url: Url, currentUrl: Url, links: seq<Url>, allLinks: set<Url>, queue: seq<Url>,
                         ghost order: seq<Url>, ghost parent: seq<nat>, ghost head: nat)
      returns (allLinks': set<Url>, queue': seq<Url>, ghost order': seq<Url>, ghost parent': seq<nat>)
      requires site.Download(currentUrl) == Fetched(links)
      requires 1 <= head <= |order| && queue == order[head..] && order[head - 1] == currentUrl
      requires Discovered(url, allLinks, order) && Expanded(order, head - 1, allLinks)
      requires BreadthFirst(order, parent, head - 1)
      ensures queue' == queue + NewLinks(links, allLinks) && order' == order + NewLinks(links, allLinks)
      ensures queue' == order'[head..]
      ensures forall u :: u in allLinks' <==> u in allLinks || u in NewLinks(links, allLinks)
      ensures |parent'| == |order'| && parent'[..|order|] == parent && forall j :: |order| <= j < |order'| ==> parent'[j] == head - 1
      ensures BreadthFirst(order', parent', head)
      ensures Discovered(url, allLinks', order') && Expanded(order', head, allLinks')
      ensures allLinks <= allLinks' && (allLinks' == allLinks ==> queue' == queue)
    {
      allLinks', queue', order', parent' := allLinks, queue, order, parent;
      ScanStarted(url, allLinks, order, parent, head);
      assert queue + [] == queue;
      for i := 0 to |links|
        invariant QueueScanned(links[..i], allLinks, order, parent, head, allLinks', order', parent')
        invariant SearchScanned(url, head, allLinks', order', parent')
        invariant queue' == queue + NewLinks(links[..i], allLinks)
      {
        var nextUrl := links[i];
        if nextUrl !in allLinks' && StartsWith(nextUrl, baseUrl) {
          ScanNew(url, currentUrl, links, i, allLinks, order, parent, head, allLinks', order', parent');
          allLinks' := allLinks' + {nextUrl};
          queue' := queue' + [nextUrl];
          order', parent' := order' + [nextUrl], parent' + [head - 1];
        } else {
          ScanKnown(links, i, allLinks, order, parent, head, allLinks', order', parent');
        }
      }
      assert links[..|links|] == links;
      ScanFinished(currentUrl, links, allLinks, order, parent, head, allLinks', order', parent');
      DropAppended(order, NewLinks(links, allLinks), head);
    }

    /** Before any link is scanned, the state of DiscoverLinks is that of the queue just polled. */
    lemma ScanStarted(url: Url, allLinks: set<Url>, order: seq<Url>, parent: seq<nat>, head: nat)
      requires 1 <= head <= |order| && Discovered(url, allLinks, order) && Expanded(order, head - 1, allLinks)
      requires BreadthFirst(order, parent, head - 1)
      ensures QueueScanned([], allLinks, order, parent, head, allLinks, order, parent)
      ensures SearchScanned(url, head, allLinks, order, parent)
    {
      PolledOneMore(order, parent, head - 1);
      assert order + [] == order;
    }

    /** Once every link of the page is scanned, the page polled last is expanded too. */
    lemma ScanFinished(currentUrl: Url, links: seq<Url>, allLinks: set<Url>, order: seq<Url>, parent: seq<nat>,
                       head: nat, allLinks': set<Url>, order': seq<Url>, parent': seq<nat>)
      requires site.Download(currentUrl) == Fetched(links)
      requires 1 <= head <= |order| && order[head - 1] == currentUrl
      requires QueueScanned(links, allLinks, order, parent, head, allLinks', order', parent')
      requires Expanded(order', head - 1, allLinks')
      ensures Expanded(order', head, allLinks')
      ensures allLinks <= allLinks' && (allLinks' == allLinks ==> NewLinks(links, allLinks) == [])
    {
      LinksExpanded(currentUrl, links, allLinks');
      assert order'[head - 1] == currentUrl;
      if NewLinks(links, allLinks) != [] {
        assert NewLinks(links, allLinks)[0] in allLinks' - allLinks;
      }
    }

    /**
     * The queue part of the state of DiscoverLinks after the links `scanned`: the new ones
     * were appended to the queue in order and to the set, each found on the page polled
     * last, and every in-scope link scanned is known.
     */
    ghost predicate QueueScanned(scanned: seq<Url>, allLinks: set<Url>, order: seq<Url>, parent: seq<nat>, head: nat,
                                 allLinks': set<Url>, order': seq<Url>, parent': seq<nat>)
    {
      && order' == order + NewLinks(scanned, allLinks)
      && (forall u :: u in allLinks' <==> u in allLinks || u in NewLinks(scanned, allLinks))
      && |parent'| == |order'| && parent'[..|order|] == parent
      && (forall j :: |order| <= j < |order'| ==> parent'[j] == head - 1)
      && (forall k :: 0 <= k < |scanned| && StartsWith(scanned[k], baseUrl) ==> scanned[k] in allLinks')
    }

    /** The search part of that state: the invariants of the search hold of the grown queue, with `head` URLs polled. */
    ghost predicate SearchScanned(url: Url, head: nat, allLinks': set<Url>, order': seq<Url>, parent': seq<nat>) {
      && head >= 1
      && Discovered(url, allLinks', order') && Expanded(order', head - 1, allLinks')
      && BreadthFirst(order', parent', head)
    }

    /** A link that is new at position i comes after the URLs the page has already added. */
    lemma NewLinkAfterSiblings(currentUrl: Url, links: seq<Url>, i: nat, allLinks: set<Url>,
                               order: seq<Url>, order': seq<Url>, parent': seq<nat>, head: nat)
      requires site.Download(currentUrl) == Fetched(links) && i < |links| && links[i] !in links[..i]
      requires order' == order + NewLinks(links[..i], allLinks) && |parent'| == |order'|
      requires forall j :: 1 <= j < |order| ==> parent'[j] < head - 1
      ensures forall j :: 1 <= j < |order'| && parent'[j] == head - 1 ==> LinkedBefore(currentUrl, order'[j], links[i])
    {
      forall j | 1 <= j < |order'| && parent'[j] == head - 1 ensures LinkedBefore(currentUrl, order'[j], links[i]) {
        assert order'[j] in NewLinks(links[..i], allLinks);
        var k :| 0 <= k < i && links[k] == order'[j];
        assert FirstIndex(links, order'[j]) <= k;
        assert FirstIndex(links, links[i]) == i;
      }
    }

    /** A link already known, or out of scope, is passed over. */
    lemma ScanKnown(links: seq<Url>, i: nat, allLinks: set<Url>, order: seq<Url>, parent: seq<nat>, head: nat,
                    allLinks': set<Url>, order': seq<Url>, parent': seq<nat>)
      requires i < |links| && QueueScanned(links[..i], allLinks, order, parent, head, allLinks', order', parent')
      requires links[i] in allLinks' || !StartsWith(links[i], baseUrl)
      ensures QueueScanned(links[..i + 1], allLinks, order, parent, head, allLinks', order', parent')
      ensures NewLinks(links[..i + 1], allLinks) == NewLinks(links[..i], allLinks)
    {
      assert links[..i + 1][..i] == links[..i];
      assert NewLinks(links[..i + 1], allLinks) == NewLinks(links[..i], allLinks);
    }

    /** A new in-scope link joins the set and the back of the queue. */
    lemma ScanNew(url: Url, currentUrl: Url, links: seq<Url>, i: nat, allLinks: set<Url>, order: seq<Url>, parent: seq<nat>,
                  head: nat, allLinks': set<Url>, order': seq<Url>, parent': seq<nat>)
      requires site.Download(currentUrl) == Fetched(links) && i < |links|
      requires 1 <= head <= |order| && order[head - 1] == currentUrl
      requires BreadthFirst(order, parent, head - 1)
      requires QueueScanned(links[..i], allLinks, order, parent, head, allLinks', order', parent')
      requires SearchScanned(url, head, allLinks', order', parent')
      requires links[i] !in allLinks' && StartsWith(links[i], baseUrl)
      ensures QueueScanned(links[..i + 1], allLinks, order, parent, head,
                           allLinks' + {links[i]}, order' + [links[i]], parent' + [head - 1])
      ensures SearchScanned(url, head, allLinks' + {links[i]}, order' + [links[i]], parent' + [head - 1])
      ensures NewLinks(links[..i + 1], allLinks) == NewLinks(links[..i], allLinks) + [links[i]]
    {
      ScanNewQueue(links, i, allLinks, order, parent, head, allLinks', order', parent');
      assert links[i] !in links[..i];
      assert forall j :: 1 <= j < |order| ==> parent'[j] == parent[j] < head - 1;
      ScanNewSearch(url, currentUrl, links, i, allLinks, order, head, allLinks', order', parent');
    }

    /** The search part after a new link: it is reachable, and a breadth-first child of the page. */
    lemma ScanNewSearch(url: Url, currentUrl: Url, links: seq<Url>, i: nat, allLinks: set<Url>, order: seq<Url>, head: nat,
                        allLinks': set<Url>, order': seq<Url>, parent': seq<nat>)
      requires site.Download(currentUrl) == Fetched(links) && i < |links|
      requires links[i] !in allLinks' && links[i] !in links[..i] && StartsWith(links[i], baseUrl)
      requires 1 <= head <= |order| && order[head - 1] == currentUrl
      requires order' == order + NewLinks(links[..i], allLinks) && |parent'| == |order'|
      requires forall j :: 1 <= j < |order| ==> parent'[j] < head - 1
      requires SearchScanned(url, head, allLinks', order', parent')
      ensures SearchScanned(url, head, allLinks' + {links[i]}, order' + [links[i]], parent' + [head - 1])
    {
      var nextUrl := links[i];
      assert order'[head - 1] == currentUrl;
      DiscoverLink(url, allLinks', order', head - 1, currentUrl, nextUrl);
      NewLinkAfterSiblings(currentUrl, links, i, allLinks, order, order', parent', head);
      DiscoverChild(order', parent', head, nextUrl);
    }

    /** The queue part after a new link. */
    lemma ScanNewQueue(links: seq<Url>, i: nat, allLinks: set<Url>, order: seq<Url>, parent: seq<nat>, head: nat,
                       allLinks': set<Url>, order': seq<Url>, parent': seq<nat>)
      requires head >= 1 && i < |links| && links[i] !in allLinks' && StartsWith(links[i], baseUrl)
      requires QueueScanned(links[..i], allLinks, order, parent, head, allLinks', order', parent')
      ensures NewLinks(links[..i + 1], allLinks) == NewLinks(links[..i], allLinks) + [links[i]]
      ensures QueueScanned(links[..i + 1], allLinks, order, parent, head,
                           allLinks' + {links[i]}, order' + [links[i]], parent' + [head - 1])
    {
      assert links[..i + 1][..i] == links[..i];
      assert NewLinks(links[..i + 1], allLinks) == NewLinks(links[..i], allLinks) + [links[i]];
      assert (parent' + [head - 1])[..|order|] == parent'[..|order|];
    }

    /** Discovering a URL shrinks the set of URLs still to discover. */
    lemma DiscoveryProgress(url: Url, allLinks: set<Url>, allLinks': set<Url>, order': seq<Url>)
      requires allLinks <= allLinks' && Discovered(url, allLinks', order')
      ensures allLinks' != allLinks ==> Targets(site) + {url} - allLinks' < Targets(site) + {url} - allLinks
    {
      if allLinks' != allLinks {
        RemainderShrinks(allLinks, allLinks', Targets(site) + {url});
      }
    }

    /** Once every discovered URL is expanded, the discovered set is the reach set. */
    lemma DiscoveryComplete(url: Url, allLinks: set<Url>, order: seq<Url>)
      requires Discovered(url, allLinks, order) && Expanded(order, |order|, allLinks)
      ensures allLinks == ReachSet(site, baseUrl, url) && |order| == |allLinks|
    {
      forall u, v | u in allLinks && Edge(site, baseUrl, u, v) ensures v in allLinks {
        var j :| 0 <= j < |order| && order[j] == u;
      }
      ReachSetCharacterized(site, baseUrl, url, allLinks);
      DistinctCard(order);
      assert (set x | x in order) == allLinks;
    }

    /**
     * countTotalLinks(url): the number of URLs reachable from url through in-scope links
     * of pages that download, url itself included whatever its prefix.  `order` is the
     * sequence in which URLs entered the queue: each exactly once, url first, every later
     * one in scope; `parent` names the URL on whose page each was found, and those pages
     * were read in the order their URLs were queued (first in, first out).
     */
    method CountTotalLinks(url: Url) returns (n: nat, ghost order: seq<Url>, ghost parent: seq<nat>)
      ensures n == |ReachSet(site, baseUrl, url)| && n >= 1
      ensures Distinct(order) && |order| == n && order[0] == url
      ensures forall u :: u in order <==> u in ReachSet(site, baseUrl, url)
      ensures forall j :: 1 <= j < |order| ==> StartsWith(order[j], baseUrl)
      ensures BreadthFirst(order, parent, |order|)
    {
      var allLinks := {url};
      var queue := [url];
      order, parent := [url], [0];
      ghost var head := 0;
      ReachableFromItself(site, baseUrl, url);
      while queue != []
        invariant 0 <= head <= |order| && queue == order[head..]
        invariant Discovered(url, allLinks, order)
        invariant Expanded(order, head, allLinks)
        invariant BreadthFirst(order, parent, head)
        decreases Targets(site) + {url} - allLinks, |queue|
      {
        DropFirst(order, head);
        var currentUrl := queue[0];
        queue := queue[1..];
        head := head + 1;
        var page := site.Download(currentUrl);
        if page.Failed? {
          PolledOneMore(order, parent, head - 1);
          continue;
        }
        ghost var known := allLinks;
        allLinks, queue, order, parent := DiscoverLinks(url, currentUrl, page.links, allLinks, queue, order, parent, head);
        DiscoveryProgress(url, known, allLinks, order);
      }
      DiscoveryComplete(url, allLinks, order);
      forall j | 1 <= j < |order| ensures StartsWith(order[j], baseUrl) {
        ReachSetInScope(site, baseUrl, url, order[j]);
      }
      n := |allLinks|;
    }
  }
}
