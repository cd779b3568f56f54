// The catalogue crawl: pages are fetched from a work list until no page links
// to a new one, a page fails, or the cap on pages is reached.
module Catalog {
  type Url = string

  const MAX_PAGES: nat := 40

  /** What fetching an address gives; `links` are the next-page links of the page, as written there. */
  datatype Answer =
    | Unreachable
    | Refused(status: int)
    | Page(names: set<string>, markup: bool, links: seq<Url>)

  datatype Verdict =
    | Complete
    | Unverified
    | Capped
    | CouldNotReach(url: Url)
    | Answered(status: int, url: Url)
    | NoModelLinks

  predicate Failed(v: Verdict) {
    !v.Complete? && !v.Unverified?
  }

  /** Resolving an address that is already resolved changes nothing. */
  ghost predicate Settles(resolve: Url -> Url) {
    forall x: Url :: resolve(resolve(x)) == resolve(x)
  }

  // ------------------------------------------------------------ the link graph

  /** The addresses a page links to; a page that does not load links nowhere. */
  function Targets(web: Url -> Answer, resolve: Url -> Url, u: Url): set<Url> {
    if web(u).Page? then set l | l in web(u).links :: resolve(l) else {}
  }

  ghost predicate IsPath(web: Url -> Answer, resolve: Url -> Url, root: Url, path: seq<Url>) {
    && path != [] && path[0] == root
    && forall i :: 0 <= i < |path| - 1 ==> path[i + 1] in Targets(web, resolve, path[i])
  }

  ghost predicate Reachable(web: Url -> Answer, resolve: Url -> Url, root: Url, u: Url) {
    exists path :: IsPath(web, resolve, root, path) && path[|path| - 1] == u
  }

  lemma RootIsReachable(web: Url -> Answer, resolve: Url -> Url, root: Url)
    ensures Reachable(web, resolve, root, root)
  {
    assert IsPath(web, resolve, root, [root]);
  }

  lemma LinksAreReachable(web: Url -> Answer, resolve: Url -> Url, root: Url, u: Url, v: Url)
    requires Reachable(web, resolve, root, u) && v in Targets(web, resolve, u)
    ensures Reachable(web, resolve, root, v)
  {
    hide Targets;
    var path :| IsPath(web, resolve, root, path) && path[|path| - 1] == u;
    assert IsPath(web, resolve, root, path + [v]);
  }

  /** A set is closed when it holds every address its members link to. */
  ghost predicate Closed(web: Url -> Answer, resolve: Url -> Url, pages: set<Url>) {
    forall u, v :: u in pages && v in Targets(web, resolve, u) ==> v in pages
  }

  lemma {:induction false} PathStaysInside(web: Url -> Answer, resolve: Url -> Url, root: Url, path: seq<Url>,
                                           pages: set<Url>)
    requires IsPath(web, resolve, root, path) && root in pages && Closed(web, resolve, pages)
    ensures path[|path| - 1] in pages
  {
    hide Targets;
    if |path| > 1 {
      var k := |path| - 1;
      assert path[k - 1 + 1] in Targets(web, resolve, path[k - 1]);
      assert IsPath(web, resolve, root, path[..k]) by {
        forall i | 0 <= i < k - 1 ensures path[..k][i + 1] in Targets(web, resolve, path[..k][i]) {
          assert path[i + 1] in Targets(web, resolve, path[i]);
        }
      }
      PathStaysInside(web, resolve, root, path[..k], pages);
    }
  }

  /** The reachable addresses are the least closed set around the root. */
  lemma ReachableIsLeast(web: Url -> Answer, resolve: Url -> Url, root: Url, pages: set<Url>, u: Url)
    requires root in pages && Closed(web, resolve, pages) && Reachable(web, resolve, root, u)
    ensures u in pages
  {
    var path :| IsPath(web, resolve, root, path) && path[|path| - 1] == u;
    PathStaysInside(web, resolve, root, path, pages);
  }

  // ------------------------------------------------------------ what a crawl owes

  predicate Distinct(s: seq<Url>) {
    forall i, j :: 0 <= i < j < |s| ==> s[i] != s[j]
  }

  function NamesOf(a: Answer): set<string> {
    if a.Page? then a.names else {}
  }

  /** All the names on the pages at the given addresses. */
  function NamesOn(web: Url -> Answer, asked: seq<Url>): set<string> {
    set u, name | u in asked && name in NamesOf(web(u)) :: name
  }

  ghost predicate MarkupOn(web: Url -> Answer, asked: seq<Url>) {
    exists u :: u in asked && web(u).Page? && web(u).markup
  }

  ghost predicate AllLoad(web: Url -> Answer, asked: seq<Url>) {
    forall u :: u in asked ==> web(u).Page?
  }

  ghost predicate AllReachable(web: Url -> Answer, resolve: Url -> Url, root: Url, asked: seq<Url>) {
    forall u :: u in asked ==> Reachable(web, resolve, root, u)
  }

  /** The addresses asked for are exactly those reachable. */
  ghost predicate Covers(web: Url -> Answer, resolve: Url -> Url, root: Url, asked: seq<Url>) {
    forall u :: u in asked <==> Reachable(web, resolve, root, u)
  }

  /** Everything reachable loads, there are at most 40 pages of it, and the first page names a model. */
  ghost predicate Crawlable(web: Url -> Answer, resolve: Url -> Url, root: Url) {
    && NamesOf(web(root)) != {}
    && exists pages: seq<Url> :: Distinct(pages) && |pages| <= 40 &&
                                 AllLoad(web, pages) && Covers(web, resolve, root, pages)
  }

  // ------------------------------------------------------------ counting

  function Elements(s: seq<Url>): set<Url> {
    set u | u in s
  }

  lemma {:induction false} DistinctCount(s: seq<Url>)
    requires Distinct(s)
    ensures |Elements(s)| == |s|
  {
    if s != [] {
      var k := |s| - 1;
      DistinctCount(s[..k]);
      assert Elements(s) == Elements(s[..k]) + {s[k]};
      assert s[k] !in Elements(s[..k]);
    }
  }

  /** A list without repeats that leaves out a member of another is shorter, if it lies inside it. */
  lemma Fewer(inside: seq<Url>, outside: seq<Url>, u: Url)
    requires Distinct(inside) && Distinct(outside)
    requires forall x :: x in inside ==> x in outside
    requires u in outside && u !in inside
    ensures |inside| < |outside|
  {
    DistinctCount(inside);
    DistinctCount(outside);
    assert u in Elements(outside) && u !in Elements(inside);
    assert Elements(inside) <= Elements(outside);
    FewerElements(Elements(inside), Elements(outside));
  }

  lemma {:induction false} FewerElements(a: set<Url>, b: set<Url>)
    requires a < b
    ensures |a| < |b|
  {
    var u :| u in b && u !in a;
    assert a <= b - {u};
    NotMoreElements(a, b - {u});
  }

  lemma {:induction false} NotMoreElements(a: set<Url>, b: set<Url>)
    requires a <= b
    ensures |a| <= |b|
  {
    if a != {} {
      var u :| u in a;
      NotMoreElements(a - {u}, b - {u});
    }
  }

  /** A crawl that stopped short had cause to: the pages were not crawlable. */
  lemma StoppedShort(web: Url -> Answer, resolve: Url -> Url, root: Url, asked: seq<Url>, u: Url)
    requires Distinct(asked) && AllReachable(web, resolve, root, asked)
    requires Reachable(web, resolve, root, u)
    requires !web(u).Page? || (|asked| == MAX_PAGES && u !in asked)
    ensures !Crawlable(web, resolve, root)
  {
    hide Reachable, Distinct;
    if Crawlable(web, resolve, root) {
      var pages: seq<Url> :| Distinct(pages) && |pages| <= MAX_PAGES &&
                             AllLoad(web, pages) && Covers(web, resolve, root, pages);
      assert u in pages;
      if web(u).Page? { Fewer(asked, pages, u); }
    }
  }

  lemma FinishedWhole(web: Url -> Answer, resolve: Url -> Url, root: Url, asked: seq<Url>)
    requires Distinct(asked) && AllReachable(web, resolve, root, asked) && AllLoad(web, asked)
    requires asked != [] && asked[0] == root && |asked| <= MAX_PAGES && NamesOf(web(root)) != {}
    requires Closed(web, resolve, Elements(asked))
    ensures Covers(web, resolve, root, asked) && Crawlable(web, resolve, root)
  {
    hide Reachable, Distinct, Closed, NamesOf;
    assert root in Elements(asked);
    forall u | Reachable(web, resolve, root, u) ensures u in asked {
      ReachableIsLeast(web, resolve, root, Elements(asked), u);
      assert u in Elements(asked);
    }
  }

  // ------------------------------------------------------------ the work list

  /** The address has been asked for, or is still to be. */
  predicate Covered(resolve: Url -> Url, asked: seq<Url>, queue: seq<Url>, v: Url) {
    v in asked || exists q :: q in queue && resolve(q) == v
  }

  ghost predicate FrontierCovers(web: Url -> Answer, resolve: Url -> Url, root: Url, asked: seq<Url>, queue: seq<Url>) {
    && Covered(resolve, asked, queue, root)
    && forall u, v :: u in asked && v in Targets(web, resolve, u) ==> Covered(resolve, asked, queue, v)
  }

  ghost predicate QueueReachable(web: Url -> Answer, resolve: Url -> Url, root: Url, queue: seq<Url>) {
    forall q :: q in queue ==> Reachable(web, resolve, root, resolve(q))
  }

  /** Taking an address from the front of the list and asking for it covers it still. */
  lemma CoverAfterShift(resolve: Url -> Url, asked: seq<Url>, queue: seq<Url>, v: Url)
    requires queue != [] && Covered(resolve, asked, queue, v)
    ensures Covered(resolve, asked + [resolve(queue[0])], queue[1..], v)
    ensures resolve(queue[0]) in asked ==> Covered(resolve, asked, queue[1..], v)
  {
    if v !in asked {
      var q :| q in queue && resolve(q) == v;
      assert q == queue[0] || q in queue[1..];
    }
  }

  /** Behind the work list stand exactly the addresses linked to that were not seen before. */
  ghost predicate Pushed(resolve: Url -> Url, links: seq<Url>, seen: set<Url>, queue: seq<Url>, next: seq<Url>) {
    && |queue| <= |next| && next[..|queue|] == queue
    && (forall q :: q in next[|queue|..] <==> q !in seen && exists l :: l in links && resolve(l) == q)
    && forall q :: q in next[|queue|..] ==> resolve(q) == q
  }

  /** Where among the first n links those to addresses not seen before stand, in order. */
  function Fresh(resolve: Url -> Url, links: seq<Url>, seen: set<Url>, n: nat): (r: seq<nat>)
    requires n <= |links|
    ensures forall i :: 0 <= i < |r| ==> r[i] < n
  {
    if n == 0 then []
    else Fresh(resolve, links, seen, n - 1) + (if resolve(links[n - 1]) in seen then [] else [n - 1])
  }

  /** The places of fresh links ascend, and leave out no link to an address not seen before. */
  lemma {:induction false} FreshAre(resolve: Url -> Url, links: seq<Url>, seen: set<Url>, n: nat)
    requires n <= |links|
    ensures var r := Fresh(resolve, links, seen, n);
            && (forall i, j :: 0 <= i < j < |r| ==> r[i] < r[j])
            && (forall k: nat :: k in r <==> k < n && resolve(links[k]) !in seen)
  {
    hide Fresh;
    FreshNext(resolve, links, seen, n);
    if n > 0 {
      FreshAre(resolve, links, seen, n - 1);
      AscendingNext(Fresh(resolve, links, seen, n - 1), n - 1);
    }
  }

  lemma AscendingNext(r: seq<nat>, n: nat)
    requires forall i :: 0 <= i < |r| ==> r[i] < n
    requires forall i, j :: 0 <= i < j < |r| ==> r[i] < r[j]
    ensures forall i, j :: 0 <= i < j < |r + [n]| ==> (r + [n])[i] < (r + [n])[j]
    ensures forall k :: k in r + [n] <==> k in r || k == n
  {
  }

  lemma FreshNext(resolve: Url -> Url, links: seq<Url>, seen: set<Url>, n: nat)
    requires n <= |links|
    ensures Fresh(resolve, links, seen, n) ==
      if n == 0 then []
      else Fresh(resolve, links, seen, n - 1) + (if resolve(links[n - 1]) in seen then [] else [n - 1])
  {
  }

  lemma AddressesNext(resolve: Url -> Url, links: seq<Url>, at: seq<nat>, k: nat)
    requires k < |links| && forall i :: 0 <= i < |at| ==> at[i] < |links|
    ensures AddressesAt(resolve, links, at + [k]) == AddressesAt(resolve, links, at) + [resolve(links[k])]
  {
    assert (at + [k])[..|at|] == at;
  }

  /** The addresses of the fresh links among the first n, in order. */
  function Unseen(resolve: Url -> Url, links: seq<Url>, seen: set<Url>, n: nat): seq<Url>
    requires n <= |links|
  {
    AddressesAt(resolve, links, Fresh(resolve, links, seen, n))
  }

  lemma UnseenNext(resolve: Url -> Url, links: seq<Url>, seen: set<Url>, n: nat)
    requires n < |links|
    ensures resolve(links[n]) in seen ==> Unseen(resolve, links, seen, n + 1) == Unseen(resolve, links, seen, n)
    ensures resolve(links[n]) !in seen ==>
      Unseen(resolve, links, seen, n + 1) == Unseen(resolve, links, seen, n) + [resolve(links[n])]
  {
    hide Fresh, AddressesAt;
    FreshNext(resolve, links, seen, n + 1);
    AddressesNext(resolve, links, Fresh(resolve, links, seen, n), n);
  }

  /** The addresses at some places of a page's links. */
  function AddressesAt(resolve: Url -> Url, links: seq<Url>, at: seq<nat>): (r: seq<Url>)
    requires forall i :: 0 <= i < |at| ==> at[i] < |links|
    ensures |r| == |at| && forall i :: 0 <= i < |r| ==> r[i] == resolve(links[at[i]])
  {
    if at == [] then [] else AddressesAt(resolve, links, at[..|at| - 1]) + [resolve(links[at[|at| - 1]])]
  }

  /** The next-page links of a page not seen before are appended to the work list, in their order on the page. */
  method PushLinks(resolve: Url -> Url, links: seq<Url>, seen: set<Url>, queue: seq<Url>) returns (next: seq<Url>)
    requires Settles(resolve)
    ensures next == queue + Unseen(resolve, links, seen, |links|)
    ensures Pushed(resolve, links, seen, queue, next)
  {
    FreshPushed(resolve, links, seen, queue);
    NoAddresses(resolve, links, seen);
    hide Unseen, Pushed, Settles;
    next := queue;
    BehindNothing(queue);
    for i := 0 to |links|
      invariant next == queue + Unseen(resolve, links, seen, i)
    {
      UnseenNext(resolve, links, seen, i);
      var href := resolve(links[i]);
      if href !in seen {
        Behind(queue, Unseen(resolve, links, seen, i), href);
        next := next + [href];
      }
    }
  }

  lemma NoAddresses(resolve: Url -> Url, links: seq<Url>, seen: set<Url>)
    ensures Unseen(resolve, links, seen, 0) == []
  {
  }

  lemma Behind(queue: seq<Url>, more: seq<Url>, u: Url)
    ensures queue + more + [u] == queue + (more + [u])
  {
  }

  lemma BehindNothing<T>(s: seq<T>)
    ensures s + [] == s && [] + s == s
  {
  }

  /** An address is unseen on a page if and only if it was not seen before and a link on the page leads to it. */
  lemma UnseenAre(resolve: Url -> Url, links: seq<Url>, seen: set<Url>, q: Url)
    ensures q in Unseen(resolve, links, seen, |links|) <==> q !in seen && exists l :: l in links && resolve(l) == q
  {
    var at := Fresh(resolve, links, seen, |links|);
    var tail := AddressesAt(resolve, links, at);
    FreshAre(resolve, links, seen, |links|);
    hide Fresh, AddressesAt;
    if q in tail {
      var i :| 0 <= i < |tail| && tail[i] == q;
      assert at[i] in at && links[at[i]] in links;
    }
    if q !in seen && exists l :: l in links && resolve(l) == q {
      var k: nat :| k < |links| && resolve(links[k]) == q;
      assert k in at;
      var i :| 0 <= i < |at| && at[i] == k;
      assert tail[i] == q;
    }
  }

  lemma FreshPushed(resolve: Url -> Url, links: seq<Url>, seen: set<Url>, queue: seq<Url>)
    requires Settles(resolve)
    ensures Pushed(resolve, links, seen, queue, queue + Unseen(resolve, links, seen, |links|))
  {
    hide Unseen;
    var tail := Unseen(resolve, links, seen, |links|);
    assert (queue + tail)[|queue|..] == tail && (queue + tail)[..|queue|] == queue;
    forall q ensures q in tail <==> q !in seen && exists l :: l in links && resolve(l) == q {
      UnseenAre(resolve, links, seen, q);
    }
  }

  // ------------------------------------------------------------ the order of the crawl

  /** A link: the number of its page among those asked for, and its place on the page. */
  datatype Place = Place(page: nat, link: nat)

  predicate Earlier(a: Place, b: Place) {
    a.page < b.page || (a.page == b.page && a.link < b.link)
  }

  predicate IsPlace(web: Url -> Answer, asked: seq<Url>, p: Place) {
    p.page < |asked| && web(asked[p.page]).Page? && p.link < |web(asked[p.page]).links|
  }

  function LinkAt(web: Url -> Answer, resolve: Url -> Url, asked: seq<Url>, p: Place): Url
    requires IsPlace(web, asked, p)
  {
    resolve(web(asked[p.page]).links[p.link])
  }

  predicate Ascending(places: seq<Place>) {
    forall i, j :: 0 <= i < j < |places| ==> Earlier(places[i], places[j])
  }

  /** The place is the first, over the pages in the order they were asked for, that links to the address. */
  ghost predicate FirstLink(web: Url -> Answer, resolve: Url -> Url, asked: seq<Url>, p: Place, u: Url) {
    && IsPlace(web, asked, p) && LinkAt(web, resolve, asked, p) == u
    && forall q :: IsPlace(web, asked, q) && LinkAt(web, resolve, asked, q) == u ==> !Earlier(q, p)
  }

  /**
   * Every address but the first is asked for because of the first link to it, and the
   * addresses are asked for in the order of those links.
   */
  ghost predicate ByFirstLinks(web: Url -> Answer, resolve: Url -> Url, asked: seq<Url>, first: seq<Place>) {
    && |asked| == |first| + 1
    && Ascending(first)
    && forall i :: 0 <= i < |first| ==> first[i].page <= i && FirstLink(web, resolve, asked, first[i], asked[i + 1])
  }

  ghost predicate InLinkOrder(web: Url -> Answer, resolve: Url -> Url, asked: seq<Url>) {
    exists first :: ByFirstLinks(web, resolve, asked, first)
  }

  /** The work list holds links in order, behind all that were used; a link not on it leads to an address asked for. */
  ghost predicate ListInOrder(web: Url -> Answer, resolve: Url -> Url, asked: seq<Url>, queue: seq<Url>,
                              first: seq<Place>, from: seq<Place>) {
    && ByFirstLinks(web, resolve, asked, first)
    && Ascending(first + from)
    && LeadTo(web, resolve, asked, from, queue)
    && AllListed(web, resolve, asked, from)
  }

  ghost predicate AllListed(web: Url -> Answer, resolve: Url -> Url, asked: seq<Url>, from: seq<Place>) {
    forall q :: IsPlace(web, asked, q) && LinkAt(web, resolve, asked, q) !in asked ==> q in from
  }

  predicate LeadTo(web: Url -> Answer, resolve: Url -> Url, asked: seq<Url>, from: seq<Place>, queue: seq<Url>) {
    && |from| == |queue|
    && forall i :: 0 <= i < |from| ==>
         IsPlace(web, asked, from[i]) && LinkAt(web, resolve, asked, from[i]) == resolve(queue[i])
  }

  lemma OrderSkips(web: Url -> Answer, resolve: Url -> Url, asked: seq<Url>, queue: seq<Url>, first: seq<Place>,
                   from: seq<Place>)
    requires ListInOrder(web, resolve, asked, queue, first, from) && queue != [] && resolve(queue[0]) in asked
    ensures from != [] && ListInOrder(web, resolve, asked, queue[1..], first, from[1..])
  {
    hide ByFirstLinks, Earlier, IsPlace;
    assert from == [from[0]] + from[1..];
    forall i, j | 0 <= i < j < |first + from[1..]| ensures Earlier((first + from[1..])[i], (first + from[1..])[j]) {
      var all := first + from;
      assert (first + from[1..])[i] == all[if i < |first| then i else i + 1];
      assert (first + from[1..])[j] == all[if j < |first| then j else j + 1];
    }
  }

  lemma SamePlaces(web: Url -> Answer, resolve: Url -> Url, asked: seq<Url>, u: Url, p: Place)
    ensures IsPlace(web, asked, p) ==>
      && IsPlace(web, asked + [u], p)
      && LinkAt(web, resolve, asked + [u], p) == LinkAt(web, resolve, asked, p)
    ensures IsPlace(web, asked + [u], p) ==> IsPlace(web, asked, p) || p.page == |asked|
  {
  }

  lemma FirstLinkStays(web: Url -> Answer, resolve: Url -> Url, asked: seq<Url>, u: Url, p: Place, v: Url)
    requires FirstLink(web, resolve, asked, p, v)
    ensures FirstLink(web, resolve, asked + [u], p, v)
  {
    SamePlaces(web, resolve, asked, u, p);
    forall q | IsPlace(web, asked + [u], q) && LinkAt(web, resolve, asked + [u], q) == v ensures !Earlier(q, p) {
      SamePlaces(web, resolve, asked, u, q);
    }
  }

  /** The address at the front of the list, if new, stands at the first link to it. */
  lemma FrontIsFirstLink(web: Url -> Answer, resolve: Url -> Url, asked: seq<Url>, queue: seq<Url>, first: seq<Place>,
                         from: seq<Place>)
    requires ListInOrder(web, resolve, asked, queue, first, from) && queue != [] && resolve(queue[0]) !in asked
    ensures from != [] && FirstLink(web, resolve, asked, from[0], resolve(queue[0]))
  {
    hide ByFirstLinks;
    var u := resolve(queue[0]);
    forall q | IsPlace(web, asked, q) && LinkAt(web, resolve, asked, q) == u ensures !Earlier(q, from[0]) {
      assert q in from;
      var i :| 0 <= i < |from| && from[i] == q;
      if i > 0 {
        assert Earlier((first + from)[|first|], (first + from)[|first| + i]);
      }
    }
  }

  lemma OrderAsks(web: Url -> Answer, resolve: Url -> Url, asked: seq<Url>, queue: seq<Url>, first: seq<Place>,
                  from: seq<Place>)
    requires ListInOrder(web, resolve, asked, queue, first, from) && queue != [] && resolve(queue[0]) !in asked
    ensures from != [] && ByFirstLinks(web, resolve, asked + [resolve(queue[0])], first + [from[0]])
    ensures InLinkOrder(web, resolve, asked + [resolve(queue[0])])
  {
    FrontIsFirstLink(web, resolve, asked, queue, first, from);
    var u, next := resolve(queue[0]), first + [from[0]];
    var now := asked + [u];
    hide FirstLink;
    forall i | 0 <= i < |next| ensures next[i].page <= i && FirstLink(web, resolve, now, next[i], now[i + 1]) {
      FirstLinkStays(web, resolve, asked, u, next[i], now[i + 1]);
    }
    forall i, j | 0 <= i < j < |next| ensures Earlier(next[i], next[j]) {
      assert next[i] == (first + from)[i] && next[j] == (first + from)[j];
    }
    assert ByFirstLinks(web, resolve, now, next);
  }

  /** The places of the fresh links of page number n. */
  function PlacesOf(n: nat, at: seq<nat>): (r: seq<Place>)
    ensures |r| == |at| && forall i :: 0 <= i < |r| ==> r[i] == Place(n, at[i])
  {
    if at == [] then [] else PlacesOf(n, at[..|at| - 1]) + [Place(n, at[|at| - 1])]
  }

  lemma {:induction false} PlacesHave(n: nat, at: seq<nat>, k: nat)
    requires k in at
    ensures Place(n, k) in PlacesOf(n, at)
  {
    var i :| 0 <= i < |at| && at[i] == k;
    assert PlacesOf(n, at)[i] == Place(n, k);
  }

  /** Fresh places come behind all places of earlier pages, in order. */
  lemma FreshAscend(before: seq<Place>, n: nat, at: seq<nat>)
    requires Ascending(before) && forall i :: 0 <= i < |before| ==> before[i].page < n
    requires forall i, j :: 0 <= i < j < |at| ==> at[i] < at[j]
    ensures Ascending(before + PlacesOf(n, at))
  {
    hide PlacesOf;
  }

  lemma FreshLead(web: Url -> Answer, resolve: Url -> Url, asked: seq<Url>, u: Url, at: seq<nat>)
    requires web(u).Page? && Settles(resolve) && forall i :: 0 <= i < |at| ==> at[i] < |web(u).links|
    ensures LeadTo(web, resolve, asked + [u], PlacesOf(|asked|, at), AddressesAt(resolve, web(u).links, at))
  {
    hide PlacesOf, AddressesAt;
    var places, addresses := PlacesOf(|asked|, at), AddressesAt(resolve, web(u).links, at);
    forall i | 0 <= i < |places|
      ensures IsPlace(web, asked + [u], places[i])
      ensures LinkAt(web, resolve, asked + [u], places[i]) == resolve(addresses[i])
    {
      assert places[i] == Place(|asked|, at[i]) && addresses[i] == resolve(web(u).links[at[i]]);
    }
  }

  lemma LeadConcat(web: Url -> Answer, resolve: Url -> Url, asked: seq<Url>, a: seq<Place>, q: seq<Url>,
                   b: seq<Place>, r: seq<Url>)
    requires LeadTo(web, resolve, asked, a, q) && LeadTo(web, resolve, asked, b, r)
    ensures LeadTo(web, resolve, asked, a + b, q + r)
  {
    hide IsPlace, LinkAt;
  }

  lemma LeadStays(web: Url -> Answer, resolve: Url -> Url, asked: seq<Url>, u: Url, from: seq<Place>, queue: seq<Url>)
    requires LeadTo(web, resolve, asked, from, queue)
    ensures LeadTo(web, resolve, asked + [u], from, queue)
  {
    forall i | 0 <= i < |from|
      ensures IsPlace(web, asked + [u], from[i]) && LinkAt(web, resolve, asked + [u], from[i]) == resolve(queue[i])
    {
      SamePlaces(web, resolve, asked, u, from[i]);
    }
  }

  lemma LeadRest(web: Url -> Answer, resolve: Url -> Url, asked: seq<Url>, from: seq<Place>, queue: seq<Url>)
    requires LeadTo(web, resolve, asked, from, queue) && queue != []
    ensures LeadTo(web, resolve, asked, from[1..], queue[1..])
  {
    hide IsPlace, LinkAt;
  }

  /** A link on the new page to an address not asked for is fresh. */
  lemma NewLinkIsFresh(web: Url -> Answer, resolve: Url -> Url, asked: seq<Url>, u: Url, q: Place)
    requires IsPlace(web, asked + [u], q) && q.page == |asked|
    requires LinkAt(web, resolve, asked + [u], q) !in asked + [u]
    ensures web(u).Page?
    ensures q in FreshPlaces(web, resolve, asked, u)
  {
    var links, seen := web(u).links, Elements(asked + [u]);
    FreshAre(resolve, links, seen, |links|);
    hide Fresh, PlacesOf;
    assert resolve(links[q.link]) !in seen;
    PlacesHave(|asked|, Fresh(resolve, links, seen, |links|), q.link);
  }

  lemma OrderParts(web: Url -> Answer, resolve: Url -> Url, asked: seq<Url>, queue: seq<Url>, first: seq<Place>,
                   from: seq<Place>)
    requires ListInOrder(web, resolve, asked, queue, first, from)
    ensures LeadTo(web, resolve, asked, from, queue) && Ascending(first + from) && |from| == |queue|
    ensures forall i :: 0 <= i < |first + from| ==> (first + from)[i].page < |asked|
  {
    hide FirstLink, LinkAt, Earlier, AllListed;
  }

  lemma Assemble(web: Url -> Answer, resolve: Url -> Url, asked: seq<Url>, queue: seq<Url>, first: seq<Place>,
                 from: seq<Place>)
    requires ByFirstLinks(web, resolve, asked, first) && Ascending(first + from)
    requires LeadTo(web, resolve, asked, from, queue) && AllListed(web, resolve, asked, from)
    ensures ListInOrder(web, resolve, asked, queue, first, from)
  {
  }

  /** The links of a page just asked for behind the rest of the list. */
  lemma ListGrows(web: Url -> Answer, resolve: Url -> Url, asked: seq<Url>, u: Url, queue: seq<Url>, before: seq<Place>,
                  from: seq<Place>)
    requires web(u).Page? && Settles(resolve) && LeadTo(web, resolve, asked, from, queue)
    requires Ascending(before) && forall i :: 0 <= i < |before| ==> before[i].page < |asked|
    ensures var now := asked + [u];
            var places := FreshPlaces(web, resolve, asked, u);
            && Ascending(before + places)
            && LeadTo(web, resolve, now, from + places,
                      queue + Unseen(resolve, web(u).links, Elements(now), |web(u).links|))
  {
    var links := web(u).links;
    FreshAre(resolve, links, Elements(asked + [u]), |links|);
    hide Ascending, LeadTo, Elements, Settles, Fresh, PlacesOf, AddressesAt;
    var at := Fresh(resolve, links, Elements(asked + [u]), |links|);
    FreshAscend(before, |asked|, at);
    FreshLead(web, resolve, asked, u, at);
    LeadStays(web, resolve, asked, u, from, queue);
    LeadConcat(web, resolve, asked + [u], from, queue, PlacesOf(|asked|, at), AddressesAt(resolve, links, at));
  }

  /** A new page puts its fresh links behind the list, at places behind all others. */
  lemma OrderAdvances(web: Url -> Answer, resolve: Url -> Url, asked: seq<Url>, queue: seq<Url>, first: seq<Place>,
                      from: seq<Place>)
    requires ListInOrder(web, resolve, asked, queue, first, from) && queue != [] && resolve(queue[0]) !in asked
    requires web(resolve(queue[0])).Page? && Settles(resolve)
    ensures from != []
    ensures var u := resolve(queue[0]);
            ListInOrder(web, resolve, asked + [u],
                        queue[1..] + Unseen(resolve, web(u).links, Elements(asked + [u]), |web(u).links|),
                        first + [from[0]], from[1..] + FreshPlaces(web, resolve, asked, u))
  {
    hide ListInOrder, ByFirstLinks, Ascending, LeadTo, AllListed, Elements, Settles, FreshPlaces, Unseen, InLinkOrder;
    var u := resolve(queue[0]);
    var links := web(u).links;
    OrderParts(web, resolve, asked, queue, first, from);
    OrderAsks(web, resolve, asked, queue, first, from);
    LeadRest(web, resolve, asked, from, queue);
    ListGrows(web, resolve, asked, u, queue[1..], first + from, from[1..]);
    NewLinksListed(web, resolve, asked, queue, first, from);
    var places := FreshPlaces(web, resolve, asked, u);
    assert first + [from[0]] + (from[1..] + places) == first + from + places;
    Assemble(web, resolve, asked + [u], queue[1..] + Unseen(resolve, links, Elements(asked + [u]), |links|),
             first + [from[0]], from[1..] + places);
  }

  lemma NewLinksListed(web: Url -> Answer, resolve: Url -> Url, asked: seq<Url>, queue: seq<Url>, first: seq<Place>,
                       from: seq<Place>)
    requires ListInOrder(web, resolve, asked, queue, first, from) && queue != [] && resolve(queue[0]) !in asked
    requires web(resolve(queue[0])).Page?
    ensures from != []
    ensures var u := resolve(queue[0]);
            AllListed(web, resolve, asked + [u], from[1..] + FreshPlaces(web, resolve, asked, u))
  {
    var u := resolve(queue[0]);
    hide ByFirstLinks, Ascending, PlacesOf, Fresh, Elements;
    forall q | IsPlace(web, asked + [u], q) && LinkAt(web, resolve, asked + [u], q) !in asked + [u]
      ensures q in from[1..] + FreshPlaces(web, resolve, asked, u)
    {
      SamePlaces(web, resolve, asked, u, q);
      if IsPlace(web, asked, q) {
        assert q in from && from == [from[0]] + from[1..];
      } else {
        NewLinkIsFresh(web, resolve, asked, u, q);
      }
    }
  }

  /** The first page. */
  lemma OrderStarts(web: Url -> Answer, resolve: Url -> Url, u: Url)
    ensures InLinkOrder(web, resolve, [u])
    ensures web(u).Page? && Settles(resolve) ==>
      ListInOrder(web, resolve, [u], Unseen(resolve, web(u).links, Elements([u]), |web(u).links|), [],
                  FreshPlaces(web, resolve, [], u))
  {
    assert ByFirstLinks(web, resolve, [u], []);
    NothingListed(web, resolve);
    hide ListInOrder, ByFirstLinks, Ascending, LeadTo, Elements, Settles, FreshPlaces, Unseen, InLinkOrder;
    if web(u).Page? && Settles(resolve) {
      var addresses := Unseen(resolve, web(u).links, Elements([u]), |web(u).links|);
      var places := FreshPlaces(web, resolve, [], u);
      BehindNothing([u]);
      BehindNothing(addresses);
      BehindNothing(places);
      ListGrows(web, resolve, [], u, [], [], []);
      FirstLinksListed(web, resolve, u);
      Assemble(web, resolve, [u], addresses, [], places);
    }
  }

  lemma NothingListed(web: Url -> Answer, resolve: Url -> Url)
    ensures LeadTo(web, resolve, [], [], []) && Ascending([])
  {
  }

  lemma FirstLinksListed(web: Url -> Answer, resolve: Url -> Url, u: Url)
    requires web(u).Page?
    ensures AllListed(web, resolve, [u], FreshPlaces(web, resolve, [], u))
  {
    hide FreshPlaces;
    assert [] + [u] == [u];
    forall q | IsPlace(web, [u], q) && LinkAt(web, resolve, [u], q) !in [u]
      ensures q in FreshPlaces(web, resolve, [], u)
    {
      NewLinkIsFresh(web, resolve, [], u, q);
    }
  }

  /** The places of the fresh links of a page just asked for. */
  function FreshPlaces(web: Url -> Answer, resolve: Url -> Url, asked: seq<Url>, u: Url): seq<Place>
    requires web(u).Page?
  {
    PlacesOf(|asked|, Fresh(resolve, web(u).links, Elements(asked + [u]), |web(u).links|))
  }

  lemma OrderKnown(web: Url -> Answer, resolve: Url -> Url, asked: seq<Url>, queue: seq<Url>, first: seq<Place>,
                   from: seq<Place>)
    requires ListInOrder(web, resolve, asked, queue, first, from)
    ensures InLinkOrder(web, resolve, asked)
  {
    hide ByFirstLinks;
  }

  /** Asking for the address at the front keeps the order, on the first page and on later ones. */
  lemma OrderGoesOn(web: Url -> Answer, resolve: Url -> Url, asked: seq<Url>, queue: seq<Url>, first: seq<Place>,
                    from: seq<Place>)
    requires queue != [] && resolve(queue[0]) !in asked && Settles(resolve)
    requires if asked == [] then |queue| == 1 else ListInOrder(web, resolve, asked, queue, first, from)
    ensures var u := resolve(queue[0]);
            && InLinkOrder(web, resolve, asked + [u])
            && (asked != [] ==> from != [])
            && (web(u).Page? ==>
                  var next := queue[1..] + Unseen(resolve, web(u).links, Elements(asked + [u]), |web(u).links|);
                  var places := FreshPlaces(web, resolve, asked, u);
                  if asked == [] then ListInOrder(web, resolve, asked + [u], next, [], places)
                  else ListInOrder(web, resolve, asked + [u], next, first + [from[0]], from[1..] + places))
  {
    hide ListInOrder, InLinkOrder, Unseen, FreshPlaces, Elements, Settles, ByFirstLinks;
    var u := resolve(queue[0]);
    if asked == [] {
      OrderStarts(web, resolve, u);
      assert [] + [u] == [u];
      if web(u).Page? {
        var addresses := Unseen(resolve, web(u).links, Elements([u]), |web(u).links|);
        assert queue[1..] + addresses == addresses;
      }
    } else {
      FrontIsFirstLink(web, resolve, asked, queue, first, from);
      OrderAsks(web, resolve, asked, queue, first, from);
      if web(u).Page? { OrderAdvances(web, resolve, asked, queue, first, from); }
    }
  }

  lemma PushCovers(web: Url -> Answer, resolve: Url -> Url, root: Url, asked: seq<Url>, u: Url, queue: seq<Url>,
                   next: seq<Url>)
    requires web(u).Page? && Settles(resolve)
    requires Covered(resolve, asked + [u], queue, root)
    requires forall t, v :: t in asked && v in Targets(web, resolve, t) ==> Covered(resolve, asked + [u], queue, v)
    requires Pushed(resolve, web(u).links, Elements(asked + [u]), queue, next)
    ensures FrontierCovers(web, resolve, root, asked + [u], next)
  {
    var now := asked + [u];
    forall v | Covered(resolve, now, queue, v) ensures Covered(resolve, now, next, v) {
      if v !in now {
        var q :| q in queue && resolve(q) == v;
        assert q in next[..|queue|];
        assert q in next;
      }
    }
    forall v | v in Targets(web, resolve, u) ensures Covered(resolve, now, next, v) {
      if v !in now {
        var l :| l in web(u).links && resolve(l) == v;
        assert v !in Elements(now);
        assert v in next[|queue|..];
        assert v in next && resolve(v) == v;
      }
    }
    forall t, v | t in now && v in Targets(web, resolve, t) ensures Covered(resolve, now, next, v) {
      hide Targets, Covered;
      assert t in asked || t == u;
    }
  }

  lemma PushReachable(web: Url -> Answer, resolve: Url -> Url, root: Url, u: Url, seen: set<Url>, queue: seq<Url>,
                      next: seq<Url>)
    requires web(u).Page? && Reachable(web, resolve, root, u) && QueueReachable(web, resolve, root, queue)
    requires Pushed(resolve, web(u).links, seen, queue, next)
    ensures QueueReachable(web, resolve, root, next)
  {
    hide Reachable;
    forall q | q in next ensures Reachable(web, resolve, root, resolve(q)) {
      assert next == next[..|queue|] + next[|queue|..];
      if q !in queue {
        assert q in next[|queue|..];
        assert q in Targets(web, resolve, u);
        LinksAreReachable(web, resolve, root, u, q);
      }
    }
  }

  // ------------------------------------------------------------ the crawl

  /** What holds each time the work list is looked at. */
  ghost predicate Crawling(web: Url -> Answer, resolve: Url -> Url, source: Url, asked: seq<Url>, queue: seq<Url>) {
    var root := resolve(source);
    && Distinct(asked) && |asked| <= MAX_PAGES
    && AllLoad(web, asked) && AllReachable(web, resolve, root, asked)
    && (if asked == [] then queue == [source] else asked[0] == root && NamesOf(web(root)) != {})
    && FrontierCovers(web, resolve, root, asked, queue) && QueueReachable(web, resolve, root, queue)
  }

  lemma CrawlStarts(web: Url -> Answer, resolve: Url -> Url, source: Url)
    ensures Crawling(web, resolve, source, [], [source])
  {
    RootIsReachable(web, resolve, resolve(source));
  }

  /** An address seen before is passed over. */
  lemma CrawlSkips(web: Url -> Answer, resolve: Url -> Url, source: Url, asked: seq<Url>, queue: seq<Url>)
    requires Crawling(web, resolve, source, asked, queue) && queue != [] && resolve(queue[0]) in asked
    ensures Crawling(web, resolve, source, asked, queue[1..])
  {
    hide Targets, Covered, Reachable;
    forall v | Covered(resolve, asked, queue, v) ensures Covered(resolve, asked, queue[1..], v) {
      CoverAfterShift(resolve, asked, queue, v);
    }
  }

  /** A new page that loads puts its links on the list. */
  lemma CrawlAdvances(web: Url -> Answer, resolve: Url -> Url, source: Url, asked: seq<Url>, queue: seq<Url>,
                      next: seq<Url>)
    requires Crawling(web, resolve, source, asked, queue) && Settles(resolve)
    requires queue != [] && |asked| < MAX_PAGES && resolve(queue[0]) !in asked
    requires web(resolve(queue[0])).Page? && (asked == [] ==> NamesOf(web(resolve(source))) != {})
    requires var u := resolve(queue[0]);
             Pushed(resolve, web(u).links, Elements(asked + [u]), queue[1..], next)
    ensures Crawling(web, resolve, source, asked + [resolve(queue[0])], next)
  {
    hide Targets, Covered, Reachable, Pushed;
    var root, u := resolve(source), resolve(queue[0]);
    forall v | Covered(resolve, asked, queue, v) ensures Covered(resolve, asked + [u], queue[1..], v) {
      CoverAfterShift(resolve, asked, queue, v);
    }
    PushCovers(web, resolve, root, asked, u, queue[1..], next);
    PushReachable(web, resolve, root, u, Elements(asked + [u]), queue[1..], next);
  }

  /** Where a crawl has got to, nothing reachable is left out unless something is still on the list. */
  lemma CrawlEnds(web: Url -> Answer, resolve: Url -> Url, source: Url, asked: seq<Url>)
    requires Crawling(web, resolve, source, asked, [])
    ensures asked != [] && Covers(web, resolve, resolve(source), asked) && Crawlable(web, resolve, resolve(source))
  {
    hide Targets, Reachable;
    var root := resolve(source);
    assert Closed(web, resolve, Elements(asked)) by {
      forall u, v | u in Elements(asked) && v in Targets(web, resolve, u) ensures v in Elements(asked) {
        assert Covered(resolve, asked, [], v);
      }
    }
    FinishedWhole(web, resolve, root, asked);
  }

  /** A first page that names nothing, a page that does not load, or a page beyond the cap: not crawlable. */
  lemma CrawlFails(web: Url -> Answer, resolve: Url -> Url, source: Url, asked: seq<Url>, queue: seq<Url>)
    requires Crawling(web, resolve, source, asked, queue) && queue != []
    ensures var u := resolve(queue[0]);
            && (u !in asked ==> Distinct(asked + [u]))
            && |asked| <= MAX_PAGES
            && Reachable(web, resolve, resolve(source), u) && AllReachable(web, resolve, resolve(source), asked + [u])
            && (asked == [] ==> u == resolve(source))
            && (!web(u).Page? || (|asked| == MAX_PAGES && u !in asked) ==> !Crawlable(web, resolve, resolve(source)))
  {
    hide Crawlable, Reachable, Covered, Targets;
    var u := resolve(queue[0]);
    if !web(u).Page? || (|asked| == MAX_PAGES && u !in asked) {
      StoppedShort(web, resolve, resolve(source), asked, u);
    }
  }

  lemma CrawlParts(web: Url -> Answer, resolve: Url -> Url, source: Url, asked: seq<Url>, queue: seq<Url>)
    requires Crawling(web, resolve, source, asked, queue)
    ensures Distinct(asked) && AllLoad(web, asked) && AllReachable(web, resolve, resolve(source), asked)
    ensures asked != [] ==> asked[0] == resolve(source)
  {
    hide Reachable, Targets, Covered, Distinct, FrontierCovers;
  }

  /** The crawl's own books agree with the addresses fetched. */
  ghost predicate Tracks(web: Url -> Answer, asked: seq<Url>, seen: set<Url>, names: set<string>, saw: bool) {
    seen == Elements(asked) && names == NamesOn(web, asked) && (saw <==> MarkupOn(web, asked))
  }

  lemma TracksNothing(web: Url -> Answer)
    ensures Tracks(web, [], {}, {}, false)
  {
  }

  lemma TracksSeen(web: Url -> Answer, asked: seq<Url>, seen: set<Url>, names: set<string>, saw: bool, u: Url)
    requires Tracks(web, asked, seen, names, saw)
    ensures u in seen <==> u in asked
    ensures seen + {u} == Elements(asked + [u])
    ensures names == NamesOn(web, asked) && (saw <==> MarkupOn(web, asked))
  {
    hide NamesOn, MarkupOn;
  }

  /** A page adds its names; an answer that is no page adds none. */
  lemma TracksFetch(web: Url -> Answer, asked: seq<Url>, seen: set<Url>, names: set<string>, saw: bool, u: Url)
    requires Tracks(web, asked, seen, names, saw)
    ensures names + NamesOf(web(u)) == NamesOn(web, asked + [u])
    ensures web(u).Page? ==> Tracks(web, asked + [u], seen + {u}, names + web(u).names, saw || web(u).markup)
  {
    assert forall x :: x in asked + [u] <==> x in asked || x == u;
  }

  /**
   * fetchCatalog: `asked` lists the addresses fetched, in order; `pages` counts
   * the pages that loaded.
   */
  method Crawl(web: Url -> Answer, resolve: Url -> Url, source: Url)
    returns (names: set<string>, pages: nat, verdict: Verdict, asked: seq<Url>)
    requires Settles(resolve)
    ensures Distinct(asked) && 1 <= |asked| <= 40 && asked[0] == resolve(source)
    ensures AllReachable(web, resolve, resolve(source), asked) && InLinkOrder(web, resolve, asked)
    ensures names == NamesOn(web, asked)
    ensures !Failed(verdict) <==> Crawlable(web, resolve, resolve(source))
    ensures !Failed(verdict) ==> Covers(web, resolve, resolve(source), asked) && pages == |asked|
    ensures !Failed(verdict) ==> AllLoad(web, asked) && (verdict.Complete? <==> MarkupOn(web, asked))
    ensures verdict.Capped? ==> pages == |asked| == 40 && AllLoad(web, asked)
    ensures verdict.Capped? ==> exists u :: u !in asked && Reachable(web, resolve, resolve(source), u)
    ensures verdict.CouldNotReach? ==>
      pages == |asked| - 1 && asked[pages] == verdict.url && web(verdict.url).Unreachable?
    ensures verdict.Answered? ==>
      pages == |asked| - 1 && asked[pages] == verdict.url && web(verdict.url) == Refused(verdict.status)
    ensures verdict.NoModelLinks? ==> pages == |asked| == 1 && names == {}
  {
    hide Reachable, Targets, Covered, NamesOn, MarkupOn, Crawling, Crawlable, Covers, Distinct, AllLoad, AllReachable;
    hide Settles, Elements, Tracks, Pushed, InLinkOrder, ListInOrder, Unseen, FreshPlaces;
    var queue, seen, saw := [source], {}, false;
    names, pages, asked := {}, 0, [];
    ghost var first: seq<Place>, from: seq<Place> := [], [];
    CrawlStarts(web, resolve, source);
    TracksNothing(web);
    while queue != []
      invariant Crawling(web, resolve, source, asked, queue)
      invariant Tracks(web, asked, seen, names, saw) && |asked| == pages <= MAX_PAGES
      invariant if asked == [] then queue == [source] else ListInOrder(web, resolve, asked, queue, first, from)
      decreases MAX_PAGES - pages, |queue|
    {
      var url := resolve(queue[0]);
      ghost var before, taken := asked, queue;
      CrawlFails(web, resolve, source, asked, taken);
      CrawlParts(web, resolve, source, asked, taken);
      TracksSeen(web, asked, seen, names, saw, url);
      TracksFetch(web, asked, seen, names, saw, url);
      queue := queue[1..];
      if url in seen {
        CrawlSkips(web, resolve, source, asked, taken);
        OrderSkips(web, resolve, asked, taken, first, from);
        from := from[1..];
        continue;
      }
      seen := seen + {url};
      if pages >= MAX_PAGES {
        OrderKnown(web, resolve, asked, taken, first, from);
        return names, pages, Capped, asked;
      }
      asked := asked + [url];
      OrderGoesOn(web, resolve, before, taken, first, from);
      match web(url) {
        case Unreachable =>
          return names, pages, CouldNotReach(url), asked;
        case Refused(status) =>
          return names, pages, Answered(status, url), asked;
        case Page(found, markup, links) =>
          pages := pages + 1;
          names := names + found;
          if pages == 1 && names == {} {
            NamelessIsNotCrawlable(web, resolve, url);
            return names, pages, NoModelLinks, asked;
          }
          saw := saw || markup;
          queue := PushLinks(resolve, links, seen, queue);
          CrawlAdvances(web, resolve, source, before, taken, queue);
          if before != [] { first, from := first + [from[0]], from[1..] + FreshPlaces(web, resolve, before, url); }
          else { first, from := [], FreshPlaces(web, resolve, before, url); }
      }
    }
    CrawlEnds(web, resolve, source, asked);
    OrderKnown(web, resolve, asked, queue, first, from);
    CrawlParts(web, resolve, source, asked, queue);
    TracksSeen(web, asked, seen, names, saw, source);
    verdict := if saw then Complete else Unverified;
  }

  lemma NamelessIsNotCrawlable(web: Url -> Answer, resolve: Url -> Url, root: Url)
    requires NamesOf(web(root)) == {}
    ensures !Crawlable(web, resolve, root)
  {
  }
}
