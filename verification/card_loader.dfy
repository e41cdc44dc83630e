/** The standalone app's card grid (impossible-trinity/static/js/main.js):
    card construction for `/api/its` items and the `loadMore` infinite-scroll
    controller over `(page, hasMore, isLoading)`.

    `loadMore` is asynchronous; it is split here into the synchronous part that
    runs when the sentinel intersects (`Trigger`, which either returns without
    effect or marks the grid loading and issues one request) and the
    continuation that runs when that request settles (`Settle`, covering the
    `try` body, the `catch` and the `finally`). */
module CardLoader {
  import opened Wrappers
  import opened Paging
  import opened JsText
  import FlaskModels
  import FlaskApp

  /** One element of the `items` array of an `/api/its` response; a JSON null
      text field is `None`. */
  type ApiItem = FlaskApp.ApiItem

  /** The hover box of an element badge: a bold heading and the explanation. */
  datatype Tooltip = Tooltip(heading: string, text: string)

  datatype Badge = Badge(caption: string, tooltip: Option<Tooltip>)

  /** The fields of a card anchor that the page fills in from an item; the
      anchor links to `/detail/<detailId>`. */
  datatype Card = Card(
    detailId: int,
    title: string,
    field: string,
    badges: seq<Badge>,
    preview: JsString,
    agreeCount: int,
    commentsCount: int)

  /** Code units of the description kept in a card preview (the page tests
      and cuts the description by its JavaScript `length`). */
  const PreviewBudget: nat := 100
  /** "...", as code units. */
  const Ellipsis: JsString := [0x2E, 0x2E, 0x2E]
  /** Suffix of a tooltip heading ("when <caption> cannot be met:"). */
  const UnmetSuffix: string := "无法满足时："

  /** The card preview: a description longer than the budget is cut to its
      first 100 code units followed by "..."; a shorter one is kept verbatim;
      a missing one becomes "". A cut may fall between the two halves of a
      surrogate pair, as `slice` does. */
  function Preview(description: Option<JsString>): (r: JsString)
    ensures !Truthy(description) ==> r == []
    ensures Truthy(description) && |description.value| <= PreviewBudget ==> r == description.value
    ensures Truthy(description) && |description.value| > PreviewBudget ==>
              r == description.value[..PreviewBudget] + Ellipsis
  {
    if Truthy(description) && |description.value| > PreviewBudget then
      description.value[..PreviewBudget] + Ellipsis
    else
      description.GetOr([])
  }

  /** A preview never exceeds the budget plus the ellipsis, and it always starts
      with the description's first code units. */
  lemma PreviewBounded(description: Option<JsString>)
    ensures |Preview(description)| <= PreviewBudget + |Ellipsis|
    ensures description.Some? ==>
              Preview(description)[..Min(PreviewBudget, |Preview(description)|)]
              == description.value[..Min(PreviewBudget, |Preview(description)|)]
  {
  }

  /** Previewing a preview changes nothing: the 103-unit result of a cut
      starts with the same 100 units, so it is cut to itself. */
  lemma PreviewIdempotent(description: Option<JsString>)
    ensures Preview(Some(Preview(description))) == Preview(description)
  {
    var p := Preview(description);
    if Truthy(description) && |description.value| > PreviewBudget {
      assert p[..PreviewBudget] == description.value[..PreviewBudget];
    }
  }

  /** The budget is counted in code units, not characters: a description of
      51 to 100 characters, all outside the Basic Multilingual Plane, is cut
      after its 50th character although it is not longer than 100
      characters. */
  lemma {:induction false} PreviewCountsCodeUnits(d: string)
    requires 50 < |d| && AllAstral(d)
    ensures Preview(EncodeOpt(Some(d))) == Encode(d[..50]) + Ellipsis
  {
    EncodeAstralLength(d);
    assert d == d[..50] + d[50..];
    EncodeAppend(d[..50], d[50..]);
    assert AllAstral(d[..50]) by {
      forall i | 0 <= i < 50 ensures d[..50][i] as int >= SurrogateBase {
        assert d[..50][i] == d[i];
      }
    }
    EncodeAstralLength(d[..50]);
    assert Encode(d)[..PreviewBudget] == Encode(d[..50]);
  }

  /** An element badge; it carries a tooltip exactly when the explanation is
      truthy, headed by the caption and the unmet suffix. */
  function CreateBadge(caption: string, explanation: Option<string>): (b: Badge)
    ensures b.caption == caption
    ensures b.tooltip.Some? <==> Truthy(explanation)
    ensures b.tooltip.Some? ==>
              b.tooltip.value.heading == caption + UnmetSuffix && b.tooltip.value.text == explanation.value
  {
    if Truthy(explanation) then Badge(caption, Some(Tooltip(caption + UnmetSuffix, explanation.value)))
    else Badge(caption, None)
  }

  /** The card for one item: its counts and texts as served, one badge per
      element in order, and the preview of the description's JavaScript
      string. */
  function CreateCard(item: ApiItem): (c: Card)
    ensures c.detailId == item.id && c.title == item.name && c.field == item.field
    ensures c.badges == [CreateBadge(item.element1, item.explanation1),
                         CreateBadge(item.element2, item.explanation2),
                         CreateBadge(item.element3, item.explanation3)]
    ensures c.badges[0].caption == item.element1 && (c.badges[0].tooltip.Some? <==> Truthy(item.explanation1))
    ensures c.badges[1].caption == item.element2 && (c.badges[1].tooltip.Some? <==> Truthy(item.explanation2))
    ensures c.badges[2].caption == item.element3 && (c.badges[2].tooltip.Some? <==> Truthy(item.explanation3))
    ensures c.preview == Preview(EncodeOpt(item.description))
    ensures |c.preview| <= PreviewBudget + |Ellipsis|
    ensures c.agreeCount == item.agreeCount && c.commentsCount == item.commentsCount
  {
    PreviewBounded(EncodeOpt(item.description));
    Card(item.id, item.name, item.field,
         [CreateBadge(item.element1, item.explanation1),
          CreateBadge(item.element2, item.explanation2),
          CreateBadge(item.element3, item.explanation3)],
         Preview(EncodeOpt(item.description)), item.agreeCount, item.commentsCount)
  }

  /** What a card shows of its item's description: the whole text, read back
      intact, exactly when it fits the budget; otherwise 103 units, the first
      100 of the text and the ellipsis. */
  lemma CardShowsDescription(item: ApiItem)
    requires Truthy(item.description)
    ensures var c := CreateCard(item);
            var u := Encode(item.description.value);
            && (|c.preview| == PreviewBudget + |Ellipsis| <==> |u| > PreviewBudget)
            && (|u| <= PreviewBudget ==> Decode(c.preview) == item.description)
            && (|u| > PreviewBudget ==> c.preview[..PreviewBudget] == u[..PreviewBudget])
  {
    DecodeEncode(item.description.value);
  }

  /** The cards for a response's items, in response order. */
  function CreateCards(items: seq<ApiItem>): (cs: seq<Card>)
    ensures |cs| == |items|
    ensures forall i :: 0 <= i < |items| ==> cs[i] == CreateCard(items[i])
  {
    seq(|items|, i requires 0 <= i < |items| => CreateCard(items[i]))
  }

  /** The sentinel element below the grid: absent from the page, displayed, or
      hidden with `display: none`. */
  datatype Sentinel = Absent | Shown | Hidden

  /** The controller's closure state plus what it does to the page.
      `hasLoader` says whether the page has the loader element, and
      `loaderActive` whether that element carries the `active` class. */
  datatype Loader = Loader(
    page: int,
    hasMore: bool,
    perPage: int,
    isLoading: bool,
    hasLoader: bool,
    loaderActive: bool,
    sentinel: Sentinel,
    observing: bool,
    cards: seq<Card>)

  /** A `GET /api/its?page=..&per_page=..` request. */
  datatype Request = Request(page: int, perPage: int)

  /** How a request settles: a parsed OK response, a non-OK status, or any
      other failure (network error, unparsable body). */
  datatype Response = Loaded(items: seq<ApiItem>, hasMore: bool) | NotOk | Failed

  /** The state right after the grid mounts, from its data attributes (an
      absent or empty attribute is `None`), whether the sentinel and the
      loader element exist, and the server-rendered cards. The
      intersection observer is registered only when the sentinel exists and
      the initial `hasMore` is true. */
  function Mount(dataPage: Option<int>, dataHasMore: Option<string>, dataPerPage: Option<int>,
                 hasSentinel: bool, hasLoader: bool, rendered: seq<Card>): (s: Loader)
    ensures s.page == dataPage.GetOr(1) && s.perPage == dataPerPage.GetOr(12)
    ensures s.hasMore <==> dataHasMore == Some("true")
    ensures s.observing <==> hasSentinel && s.hasMore
    ensures !s.isLoading && !s.loaderActive && s.cards == rendered
    ensures s.hasLoader == hasLoader
    ensures s.sentinel == Absent <==> !hasSentinel
  {
    var hasMore := dataHasMore == Some("true");
    Loader(dataPage.GetOr(1), hasMore, dataPerPage.GetOr(12), false, hasLoader, false,
           if hasSentinel then Shown else Absent, hasSentinel && hasMore, rendered)
  }

  /** The outcome of calling `loadMore`: the state after its synchronous part
      and the request it sent, if any. */
  datatype Issued = Issued(state: Loader, request: Option<Request>)

  /** The synchronous part of `loadMore`. It returns at once, sending nothing
      and changing nothing, while a load is in flight or when no pages remain;
      otherwise it raises the in-flight flag, activates the loader when the
      page has one, and asks for the next page. */
  function Trigger(s: Loader): (r: Issued)
    ensures s.isLoading || !s.hasMore ==> r.state == s && r.request.None?
    ensures !s.isLoading && s.hasMore ==>
              && r.request == Some(Request(s.page + 1, s.perPage))
              && r.state == s.(isLoading := true, loaderActive := s.hasLoader)
    ensures r.state.hasLoader == s.hasLoader
    ensures !s.hasLoader && !s.loaderActive ==> !r.state.loaderActive
  {
    if s.isLoading || !s.hasMore then Issued(s, None)
    else Issued(s.(isLoading := true, loaderActive := s.hasLoader), Some(Request(s.page + 1, s.perPage)))
  }

  /** The continuation of `loadMore` once its request settles. On an OK
      response the new cards are appended, the page advances to the requested
      one and `hasMore` takes the response's flag (hiding the sentinel when it
      is false). A non-OK status throws before any of that, so a failure leaves
      page, `hasMore` and cards alone. The `finally` clears the flag and the
      loader on every path. While the request is in flight `page` cannot
      change, so the requested page is `page + 1`. */
  function Settle(s: Loader, response: Response): (t: Loader)
    requires s.isLoading
    ensures !t.isLoading && !t.loaderActive
    ensures t.perPage == s.perPage && t.observing == s.observing
    ensures response.Loaded? ==>
              && t.page == s.page + 1
              && t.hasMore == response.hasMore
              && t.cards == s.cards + CreateCards(response.items)
              && ((t.sentinel == Hidden) <==> (s.sentinel == Hidden || (s.sentinel == Shown && !response.hasMore)))
    ensures !response.Loaded? ==>
              t.page == s.page && t.hasMore == s.hasMore && t.cards == s.cards && t.sentinel == s.sentinel
  {
    var settled := s.(isLoading := false, loaderActive := false);
    match response
    case Loaded(items, more) =>
      settled.(page := s.page + 1,
               hasMore := more,
               cards := s.cards + CreateCards(items),
               sentinel := if !more && !s.sentinel.Absent? then Hidden else s.sentinel)
    case _ => settled
  }

  /** What can happen to the grid: the sentinel comes into view, or the
      outstanding request settles. */
  datatype Event = Intersect | Arrive(response: Response)

  /** One event. An intersection calls `loadMore` only if the observer was
      registered; a response can only arrive while a request is outstanding,
      so one arriving in any other state is ignored. */
  function Step(s: Loader, e: Event): (r: Issued)
    ensures e.Intersect? && s.observing ==> r == Trigger(s)
    ensures e.Intersect? && !s.observing ==> r == Issued(s, None)
    ensures e.Arrive? ==> r.request.None?
    ensures e.Arrive? && s.isLoading ==> r.state == Settle(s, e.response)
  {
    match e
    case Intersect => if s.observing then Trigger(s) else Issued(s, None)
    case Arrive(response) => if s.isLoading then Issued(Settle(s, response), None) else Issued(s, None)
  }

  /** The result of a run of events: the final state, the requests sent in
      order, how many requests settled, and how many of those loaded a page. */
  datatype Trace = Trace(final: Loader, requests: seq<Request>, settled: nat, loaded: nat)

  function Run(s: Loader, events: seq<Event>): Trace
    decreases |events|
  {
    if |events| == 0 then Trace(s, [], 0, 0)
    else
      var r := Step(s, events[0]);
      var rest := Run(r.state, events[1..]);
      var settles := events[0].Arrive? && s.isLoading;
      var loads := settles && events[0].response.Loaded?;
      Trace(rest.final, (if r.request.Some? then [r.request.value] else []) + rest.requests,
            rest.settled + (if settles then 1 else 0), rest.loaded + (if loads then 1 else 0))
  }

  /** At most one request is ever in flight: over any run, every request but
      the one still outstanding at the end has settled before the next was
      sent, so requests sent equal requests settled, corrected by the flag at
      the two ends. */
  lemma {:induction false} OneRequestInFlight(s: Loader, events: seq<Event>)
    ensures var t := Run(s, events);
            |t.requests| + (if s.isLoading then 1 else 0) == t.settled + (if t.final.isLoading then 1 else 0)
    decreases |events|
  {
    if |events| > 0 {
      OneRequestInFlight(Step(s, events[0]).state, events[1..]);
    }
  }

  /** Over any run the page advances by exactly the number of loaded
      responses, page size and observer registration never change, and the
      cards already rendered stay in place (append-only). */
  lemma {:induction false} RunAppendOnly(s: Loader, events: seq<Event>)
    ensures var t := Run(s, events);
            && t.final.page == s.page + t.loaded
            && t.final.perPage == s.perPage
            && t.final.observing == s.observing
            && |s.cards| <= |t.final.cards|
            && t.final.cards[..|s.cards|] == s.cards
    decreases |events|
  {
    if |events| > 0 {
      var mid := Step(s, events[0]).state;
      RunAppendOnly(mid, events[1..]);
      assert mid.cards[..|s.cards|] == s.cards;
    }
  }

  /** Every request of a run asks for a page after the one shown when the
      run began and at most one past the one shown at its end, with the
      grid's fixed page size, and the requested pages never go back. */
  lemma {:induction false} RequestsAskForNextPage(s: Loader, events: seq<Event>)
    ensures var t := Run(s, events);
            && (forall i :: 0 <= i < |t.requests| ==>
                  && t.requests[i].perPage == s.perPage
                  && s.page + 1 <= t.requests[i].page <= t.final.page + 1)
            && (forall i, j :: 0 <= i < j < |t.requests| ==> t.requests[i].page <= t.requests[j].page)
    decreases |events|
  {
    if |events| > 0 {
      var r := Step(s, events[0]);
      var mid := r.state;
      assert mid.page >= s.page && mid.perPage == s.perPage;
      assert r.request.Some? ==> r.request.value == Request(s.page + 1, s.perPage) && mid.page == s.page;
      RequestsAskForNextPage(mid, events[1..]);
      RunAppendOnly(mid, events[1..]);
      var t := Run(s, events);
      var rest := Run(mid, events[1..]);
      assert t.final == rest.final;
      if r.request.Some? {
        assert t.requests == [r.request.value] + rest.requests;
        forall i | 0 <= i < |t.requests|
          ensures t.requests[i].perPage == s.perPage && s.page + 1 <= t.requests[i].page <= t.final.page + 1
        {
          if i > 0 {
            assert t.requests[i] == rest.requests[i - 1];
          }
        }
        forall i, j | 0 <= i < j < |t.requests| ensures t.requests[i].page <= t.requests[j].page {
          assert t.requests[j] == rest.requests[j - 1];
          if i > 0 {
            assert t.requests[i] == rest.requests[i - 1];
          }
        }
      } else {
        assert t.requests == rest.requests;
      }
    }
  }

  /** Once no pages remain and nothing is in flight, the grid is finished:
      whatever happens, no request is sent and the state stays as it is. */
  lemma {:induction false} ExhaustedIsFinal(s: Loader, events: seq<Event>)
    requires !s.hasMore && !s.isLoading
    ensures Run(s, events) == Trace(s, [], 0, 0)
    decreases |events|
  {
    if |events| > 0 {
      assert Step(s, events[0]).state == s;
      ExhaustedIsFinal(s, events[1..]);
    }
  }

  /** A failed load is retried on the next intersection with the same page. */
  lemma FailureIsRetryable(s: Loader, response: Response)
    requires s.observing && !s.isLoading && s.hasMore
    requires !response.Loaded?
    ensures var inFlight := Trigger(s).state;
            Trigger(Settle(inFlight, response)) == Trigger(s)
  {
  }

  // ------------------------------------------------- against the app's API

  /** The response the app serves for a request, as the page parses it. */
  function Served(store: FlaskModels.Store, req: Request): Response
  {
    var a := FlaskApp.ApiIts(store, Some(req.page), Some(req.perPage));
    Loaded(a.items, a.hasMore)
  }

  /** The cards for pages 1..k of the app's listing. */
  function Rendered(store: FlaskModels.Store, k: nat, perPage: nat): seq<Card>
    requires perPage > 0
  {
    var ids := Pages(FlaskModels.Listing(store), k, perPage);
    PagesWithinRows(FlaskModels.Listing(store), k, perPage);
    CreateCards(FlaskApp.SerializeAll(store, ids))
  }

  lemma PagesWithinRows<T>(rows: seq<T>, k: nat, perPage: nat)
    requires perPage > 0
    ensures forall i :: 0 <= i < |Pages(rows, k, perPage)| ==> Pages(rows, k, perPage)[i] in rows
  {
    PagesArePrefix(rows, k, perPage);
  }

  /** The grid shows exactly pages 1..page of the listing and knows whether
      more rows exist, with nothing in flight. */
  predicate InSync(s: Loader, store: FlaskModels.Store)
  {
    && s.page >= 1 && s.perPage >= 1 && !s.isLoading
    && s.cards == Rendered(store, s.page, s.perPage)
    && (s.hasMore <==> s.page * s.perPage < |FlaskModels.Listing(store)|)
  }

  /** The grid as the index page mounts it. The card template is not part of
      this model; the lemma takes it to render `data-page` 1, `data-has-more`
      as the lower-case word "true" or "false", `data-per-page` 12, the
      sentinel, and one card per item of `its` that is the card the script
      itself would build; whether it renders the loader element does not
      matter. */
  lemma MountedInSync(store: FlaskModels.Store, hasLoader: bool)
    ensures var ix := FlaskApp.Index(store, None);
            && ix.perPage == 12
            && InSync(Mount(Some(1), Some(if ix.hasMore then "true" else "false"), Some(ix.perPage), true, hasLoader,
                            CreateCards(FlaskApp.SerializeAll(store, ix.its))),
                      store)
  {
    assert Pages(FlaskModels.Listing(store), 1, 12) == Page(FlaskModels.Listing(store), 1, 12);
  }

  predicate AllIn(ids: seq<int>, store: FlaskModels.Store)
  {
    forall i :: 0 <= i < |ids| ==> ids[i] in store.items
  }

  /** The app answers a request for page p + 1 with that page of the listing. */
  lemma ServedIsPage(store: FlaskModels.Store, p: nat, n: nat)
    requires p >= 1 && n >= 1
    ensures var rows := FlaskModels.Listing(store);
            && AllIn(Page(rows, p, n), store)
            && Served(store, Request(p, n))
               == Loaded(FlaskApp.SerializeAll(store, Page(rows, p, n)), p * n < |rows|)
  {
    var rows := FlaskModels.Listing(store);
    var a := FlaskApp.ApiIts(store, Some(p), Some(n));
    var pg := Page(rows, p, n);
    assert |a.items| == |pg|;
    assert a.items == FlaskApp.SerializeAll(store, pg);
  }

  /** Rendering one more page appends that page's cards. */
  lemma RenderedStep(store: FlaskModels.Store, k: nat, n: nat)
    requires n >= 1
    ensures var rows := FlaskModels.Listing(store);
            && AllIn(Page(rows, k + 1, n), store)
            && Rendered(store, k + 1, n)
               == Rendered(store, k, n) + CreateCards(FlaskApp.SerializeAll(store, Page(rows, k + 1, n)))
  {
    var rows := FlaskModels.Listing(store);
    var before := Pages(rows, k, n);
    var pg := Page(rows, k + 1, n);
    PagesWithinRows(rows, k, n);
    assert Pages(rows, k + 1, n) == before + pg;
    assert AllIn(before, store);
    FlaskApp.ListingPage(store, k + 1, n);
    assert AllIn(pg, store);
    SerializeAllAppend(store, before, pg);
    var x, y := FlaskApp.SerializeAll(store, before), FlaskApp.SerializeAll(store, pg);
    CreateCardsAppend(x, y);
    assert Rendered(store, k, n) == CreateCards(x);
    assert Rendered(store, k + 1, n) == CreateCards(FlaskApp.SerializeAll(store, before + pg));
  }

  lemma SerializeAllAppend(store: FlaskModels.Store, a: seq<int>, b: seq<int>)
    requires AllIn(a, store) && AllIn(b, store)
    ensures AllIn(a + b, store)
    ensures FlaskApp.SerializeAll(store, a + b) == FlaskApp.SerializeAll(store, a) + FlaskApp.SerializeAll(store, b)
  {
  }

  lemma CreateCardsAppend(x: seq<ApiItem>, y: seq<ApiItem>)
    ensures CreateCards(x + y) == CreateCards(x) + CreateCards(y)
  {
  }

  /** A successful load against an unchanged store shows one more page and
      keeps the grid in step with the listing. */
  lemma LoadStaysInSync(s: Loader, store: FlaskModels.Store)
    requires InSync(s, store) && s.hasMore
    ensures var issued := Trigger(s);
            && issued.request == Some(Request(s.page + 1, s.perPage))
            && var t := Settle(issued.state, Served(store, issued.request.value));
            && InSync(t, store)
            && t.page == s.page + 1
  {
    var rows := FlaskModels.Listing(store);
    var pg := Page(rows, s.page + 1, s.perPage);
    var issued := Trigger(s);
    var req := Request(s.page + 1, s.perPage);
    assert issued.request == Some(req);
    ServedIsPage(store, s.page + 1, s.perPage);
    var items := FlaskApp.SerializeAll(store, pg);
    var more := (s.page + 1) * s.perPage < |rows|;
    var t := Settle(issued.state, Served(store, req));
    assert t == Settle(issued.state, Loaded(items, more));
    assert t.cards == s.cards + CreateCards(items);
    RenderedStep(store, s.page, s.perPage);
    assert t.cards == Rendered(store, s.page + 1, s.perPage);
    assert t.page == s.page + 1 && t.perPage == s.perPage && !t.isLoading;
    assert t.hasMore == more;
    assert InSync(t, store);
  }

  /** Once the grid reports no more pages it shows every item of the
      listing exactly once, newest first. */
  lemma ExhaustedShowsAll(s: Loader, store: FlaskModels.Store)
    requires InSync(s, store) && !s.hasMore
    ensures s.cards == CreateCards(FlaskApp.SerializeAll(store, FlaskModels.Listing(store)))
  {
    var rows := FlaskModels.Listing(store);
    PagesArePrefix(rows, s.page, s.perPage);
    assert Pages(rows, s.page, s.perPage) == rows;
  }
}
