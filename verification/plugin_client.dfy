/** The plugin's page script (wp-impossible-trinity/assets/js/main.js):
    view switching through the URL, the load-more controller, the agree
    button and the in-place field filter, with the standalone app's view
    switch (impossible-trinity/static/js/main.js) for contrast.

    Each AJAX call is split into the part that runs when it is sent and the
    callback that runs when it completes. Unlike the standalone grid, the
    plugin's load-more has no in-flight flag: a second intersection before the
    first response sends a second request. */
module PluginClient {
  import opened Wrappers
  import opened Paging
  import PluginAjax
  import Php

  type Fragment = PluginAjax.Fragment

  // ---------------------------------------------------------- URL parameters

  /** One `name=value` pair of a URL's query, which is an ordered list. */
  datatype Param = Param(name: string, value: string)

  /** `URLSearchParams.delete(name)`: every pair with that name goes, the rest
      keep their order. */
  function Drop(ps: seq<Param>, name: string): (r: seq<Param>)
    ensures forall i :: 0 <= i < |r| ==> r[i].name != name
    ensures forall p :: p in r <==> p in ps && p.name != name
    ensures |r| <= |ps|
  {
    if |ps| == 0 then []
    else if ps[0].name == name then Drop(ps[1..], name)
    else [ps[0]] + Drop(ps[1..], name)
  }

  /** Number of pairs with a name. */
  function Count(ps: seq<Param>, name: string): nat
  {
    if |ps| == 0 then 0 else (if ps[0].name == name then 1 else 0) + Count(ps[1..], name)
  }

  /** `URLSearchParams.get(name)`: the value of the first pair with that name. */
  function Lookup(ps: seq<Param>, name: string): Option<string>
  {
    if |ps| == 0 then None else if ps[0].name == name then Some(ps[0].value) else Lookup(ps[1..], name)
  }

  predicate Has(ps: seq<Param>, name: string)
  {
    exists i :: 0 <= i < |ps| && ps[i].name == name
  }

  /** `URLSearchParams.set(name, value)`: the first pair with the name takes the
      value and later pairs with the name are removed; with no such pair, one
      is appended. */
  function SetParam(ps: seq<Param>, name: string, value: string): seq<Param>
  {
    if |ps| == 0 then [Param(name, value)]
    else if ps[0].name == name then [Param(name, value)] + Drop(ps[1..], name)
    else [ps[0]] + SetParam(ps[1..], name, value)
  }

  lemma {:induction false} DropCount(ps: seq<Param>, name: string)
    ensures Count(Drop(ps, name), name) == 0
    ensures Lookup(Drop(ps, name), name) == None
  {
    if |ps| > 0 {
      DropCount(ps[1..], name);
    }
  }

  lemma {:induction false} DropKeepsLookup(ps: seq<Param>, name: string, other: string)
    requires name != other
    ensures Lookup(Drop(ps, name), other) == Lookup(ps, other)
  {
    if |ps| > 0 {
      DropKeepsLookup(ps[1..], name, other);
    }
  }

  lemma {:induction false} DropCommutes(ps: seq<Param>, a: string, b: string)
    ensures Drop(Drop(ps, a), b) == Drop(Drop(ps, b), a)
  {
    if |ps| > 0 {
      DropCommutes(ps[1..], a, b);
    }
  }

  lemma {:induction false} DropIdempotent(ps: seq<Param>, a: string)
    ensures Drop(Drop(ps, a), a) == Drop(ps, a)
  {
    if |ps| > 0 {
      DropIdempotent(ps[1..], a);
    }
  }

  /** After `set`, the name occurs exactly once, with the new value, and the
      pairs with other names are exactly as before, in order. */
  lemma {:induction false} SetParamSpec(ps: seq<Param>, name: string, value: string)
    ensures Count(SetParam(ps, name, value), name) == 1
    ensures Lookup(SetParam(ps, name, value), name) == Some(value)
    ensures Drop(SetParam(ps, name, value), name) == Drop(ps, name)
  {
    if |ps| > 0 {
      if ps[0].name == name {
        DropCount(ps[1..], name);
        DropIdempotent(ps[1..], name);
      } else {
        SetParamSpec(ps[1..], name, value);
      }
    }
  }

  lemma {:induction false} SetParamKeepsLookup(ps: seq<Param>, name: string, value: string, other: string)
    requires name != other
    ensures Lookup(SetParam(ps, name, value), other) == Lookup(ps, other)
  {
    if |ps| > 0 {
      if ps[0].name == name {
        DropKeepsLookup(ps[1..], name, other);
      } else {
        SetParamKeepsLookup(ps[1..], name, value, other);
      }
    }
  }

  /** The plugin's `switchView`: the query gets `view=<view>` and loses `paged`. */
  function SwitchView(ps: seq<Param>, view: string): seq<Param>
  {
    Drop(SetParam(ps, "view", view), "paged")
  }

  /** The new URL names the view once, carries no page cursor, and every
      other parameter (the field filter among them) is kept in order. */
  lemma SwitchViewSpec(ps: seq<Param>, view: string)
    ensures var r := SwitchView(ps, view);
            && Lookup(r, "view") == Some(view)
            && Count(r, "view") == 1
            && Count(r, "paged") == 0
            && Drop(Drop(r, "view"), "paged") == Drop(Drop(ps, "view"), "paged")
  {
    var set_ := SetParam(ps, "view", view);
    var r := Drop(set_, "paged");
    assert "paged" != "view";
    SetParamSpec(ps, "view", view);
    DropKeepsLookup(set_, "paged", "view");
    assert Lookup(r, "view") == Some(view);
    DropCount(set_, "paged");
    DropKeepsCount(set_, "paged", "view");
    assert Count(r, "view") == 1;
    calc {
      Drop(Drop(r, "view"), "paged");
      { DropCommutes(set_, "paged", "view"); }
      Drop(Drop(Drop(set_, "view"), "paged"), "paged");
      { DropIdempotent(Drop(set_, "view"), "paged"); }
      Drop(Drop(set_, "view"), "paged");
      Drop(Drop(ps, "view"), "paged");
    }
  }

  lemma {:induction false} DropKeepsCount(ps: seq<Param>, name: string, other: string)
    requires name != other
    ensures Count(Drop(ps, name), other) == Count(ps, other)
  {
    if |ps| > 0 {
      DropKeepsCount(ps[1..], name, other);
    }
  }

  /** The standalone app's `switchView` only sets `view`: a `paged` value
      survives the switch. */
  function SwitchViewStandalone(ps: seq<Param>, view: string): seq<Param>
  {
    SetParam(ps, "view", view)
  }

  lemma StandaloneSwitchKeepsPage(ps: seq<Param>, view: string)
    ensures Lookup(SwitchViewStandalone(ps, view), "view") == Some(view)
    ensures Lookup(SwitchViewStandalone(ps, view), "paged") == Lookup(ps, "paged")
  {
    SetParamSpec(ps, "view", view);
    SetParamKeepsLookup(ps, "view", view, "paged");
  }

  // ---------------------------------------------------------- listing state

  /** The listing container's jQuery data: view, page, field and search. */
  datatype Container = Container(view: Option<string>, page: Option<int>, field: Option<string>,
                                 search: Option<string>)

  /** A field chip: its `data-field` and whether it carries `active`. */
  datatype Chip = Chip(field: string, active: bool)

  /** What the script controls on the page: the container's data, the
      listing body (card grid or table body), whether the sentinel is
      observed, the loader's visibility, and the field chips. */
  datatype Surface = Surface(container: Container, body: seq<Fragment>, observing: bool,
                             loaderShown: bool, chips: seq<Chip>)

  /** How a call ends: the server's answer, or a transport error. */
  datatype Reply<T> = Answered(response: T) | TransportError

  /** `container.data('page') || 1`: absent or 0 reads as 1. */
  function StoredPage(c: Container): (p: int)
    ensures c.page.Some? && c.page.value != 0 ==> p == c.page.value
    ensures c.page.None? || c.page.value == 0 ==> p == 1
  {
    if c.page.None? || c.page.value == 0 then 1 else c.page.value
  }

  /** `container.data('view') || 'card'`. */
  function StoredView(c: Container): string
  {
    if c.view.None? || c.view.value == "" then "card" else c.view.value
  }

  // ---------------------------------------------------------- load more

  /** What the success callback captured when the request was sent. */
  datatype Pending = Pending(page: int, view: string)

  datatype LoadIssue = LoadIssue(state: Surface, request: PluginAjax.ListRequest, pending: Pending)

  /** Sending `wpit_load_more`: the loader is shown and the page after the
      stored one is requested with the stored view, field and search. Nothing
      prevents this while an earlier request is still out. */
  function IssueLoad(s: Surface): (r: LoadIssue)
    ensures r.request.page == Some(StoredPage(s.container) + 1)
    ensures r.request.view == Some(StoredView(s.container))
    ensures r.request.field == Some(s.container.field.GetOr(""))
    ensures r.request.search == Some(s.container.search.GetOr(""))
    ensures r.pending == Pending(StoredPage(s.container), StoredView(s.container))
    ensures r.state == s.(loaderShown := true)
  {
    var page := StoredPage(s.container);
    var view := StoredView(s.container);
    LoadIssue(s.(loaderShown := true),
              PluginAjax.ListRequest(Some(page + 1), Some(view), Some(s.container.field.GetOr("")),
                                     Some(s.container.search.GetOr(""))),
              Pending(page, view))
  }

  /** A load response is applied only when it reports success and carries
      non-empty markup. */
  predicate Applies(reply: Reply<PluginAjax.ListResponse>)
  {
    reply.Answered? && reply.response.success && |reply.response.html| > 0
  }

  /** The load-more callbacks. An applied response appends its markup, stores
      the captured page plus one and, when no more pages exist, stops
      observing the sentinel. Every path hides the loader. */
  function ApplyLoad(s: Surface, pending: Pending, reply: Reply<PluginAjax.ListResponse>): (t: Surface)
    ensures !t.loaderShown
    ensures t.chips == s.chips
    ensures Applies(reply) ==>
              && t.body == s.body + reply.response.html
              && t.container == s.container.(page := Some(pending.page + 1))
              && (t.observing <==> s.observing && reply.response.hasMore)
    ensures !Applies(reply) ==> t == s.(loaderShown := false)
  {
    if Applies(reply) then
      s.(body := s.body + reply.response.html,
         container := s.container.(page := Some(pending.page + 1)),
         observing := s.observing && reply.response.hasMore,
         loaderShown := false)
    else s.(loaderShown := false)
  }

  /** No mutual exclusion: two intersections before any response send the
      same request twice, and when both answers arrive both are appended
      while the stored page moves on only once, so a deterministic server's
      page is shown twice. */
  lemma NoInFlightGuard(s: Surface, catalog: (Option<string>, Option<string>) -> seq<int>)
    ensures var first := IssueLoad(s);
            var second := IssueLoad(first.state);
            && second.request == first.request
            && second.pending == first.pending
            && var answer := Answered(PluginAjax.LoadMore(first.request, catalog));
            && var t := ApplyLoad(ApplyLoad(second.state, first.pending, answer), second.pending, answer);
            && (Applies(answer) ==>
                  && t.body == s.body + answer.response.html + answer.response.html
                  && t.container.page == Some(StoredPage(s.container) + 1))
  {
  }

  /** One load answered by the server, with nothing else in flight: when the
      stored page is p >= 0 and the next page has posts, the body grows by
      exactly that page rendered for the view, the stored page becomes p + 1,
      and observing stops exactly when no posts lie beyond it. */
  lemma SequentialLoadAppendsNextPage(s: Surface, catalog: (Option<string>, Option<string>) -> seq<int>)
    requires StoredPage(s.container) >= 0
    ensures var issue := IssueLoad(s);
            var req := issue.request;
            var rows := catalog(PluginAjax.FieldFilter(req), PluginAjax.SearchFilter(req));
            var n := PluginAjax.PerPage(StoredView(s.container));
            var p := StoredPage(s.container);
            var t := ApplyLoad(issue.state, issue.pending, Answered(PluginAjax.LoadMore(req, catalog)));
            && (|Page(rows, p + 1, n)| > 0 ==>
                  && t.body == s.body + PluginAjax.Render(StoredView(s.container), Page(rows, p + 1, n))
                  && t.container.page == Some(p + 1)
                  && (t.observing <==> s.observing && (p + 1) * n < |rows|))
            && (|Page(rows, p + 1, n)| == 0 ==> t.body == s.body && t.container == s.container)
  {
    var p := StoredPage(s.container);
    assert Php.QueryPage(p + 1) == p + 1;
  }

  // ---------------------------------------------------------- agree button

  /** An agree button: the post it is for, whether it is disabled, the count
      it displays, and how many check marks it shows. */
  datatype Button = Button(id: int, disabled: bool, shown: int, marks: nat)

  /** The agree response as the script reads it. */
  datatype AgreeResponse = AgreeSuccess(count: int, message: Option<string>)
                         | AgreeFailure(message: Option<string>)

  /** The server's reply in the JSON shape `wp_send_json_success/error` gives it. */
  function Wire(r: PluginAjax.AgreeReply): AgreeResponse
  {
    match r
    case Agreed(count) => AgreeSuccess(count, Some("Thanks for your agreement!"))
    case Rejected(e) => AgreeFailure(Some(PluginAjax.Message(e)))
  }

  datatype Clicked = Clicked(button: Button, request: Option<int>)

  /** A click. A disabled button receives no click; otherwise `beforeSend`
      disables it and the post id is sent. */
  function Click(b: Button): (r: Clicked)
    ensures b.disabled ==> r == Clicked(b, None)
    ensures !b.disabled ==> r == Clicked(b.(disabled := true), Some(b.id))
  {
    if b.disabled then Clicked(b, None) else Clicked(b.(disabled := true), Some(b.id))
  }

  datatype Settled = Settled(button: Button, alert: Option<string>)

  /** The agree callbacks. Every path re-enables the button. On success the
      displayed count becomes the server's count (a check mark is added when
      a message came with it); on a business failure or a transport error an
      alert is raised and the count is left as displayed. */
  function SettleAgree(b: Button, reply: Reply<AgreeResponse>): (r: Settled)
    ensures !r.button.disabled && r.button.id == b.id
    ensures reply.Answered? && reply.response.AgreeSuccess? ==>
              r.button.shown == reply.response.count && r.alert.None?
    ensures !(reply.Answered? && reply.response.AgreeSuccess?) ==>
              r.button.shown == b.shown && r.button.marks == b.marks && r.alert.Some?
    ensures reply.Answered? && reply.response.AgreeFailure? ==>
              r.alert == Some(if Truthy(reply.response.message) then reply.response.message.value
                              else "An error occurred.")
    ensures reply.TransportError? ==> r.alert == Some("An error occurred. Please try again.")
  {
    match reply
    case TransportError =>
      Settled(b.(disabled := false), Some("An error occurred. Please try again."))
    case Answered(AgreeSuccess(count, message)) =>
      Settled(b.(disabled := false, shown := count, marks := b.marks + if Truthy(message) then 1 else 0), None)
    case Answered(AgreeFailure(message)) =>
      Settled(b.(disabled := false), Some(if Truthy(message) then message.value else "An error occurred."))
  }

  /** The reply the page receives for a dispatched agree request: the
      endpoint's JSON, or, for the bare HTTP 400 answer, jQuery's `error`
      callback. */
  function Delivered(d: PluginAjax.Dispatched): (r: Reply<AgreeResponse>)
    ensures r.TransportError? <==> d.reply.None?
    ensures d.reply.Some? && d.reply.value.Agreed? ==>
              r.Answered? && r.response.AgreeSuccess? && r.response.count == d.reply.value.count
    ensures d.reply.Some? && d.reply.value.Rejected? ==>
              r == Answered(AgreeFailure(Some(PluginAjax.Message(d.reply.value.error))))
  {
    match d.reply
    case None => TransportError
    case Some(reply) => Answered(Wire(reply))
  }

  /** Against the server: after a click, the button is enabled again. A
      logged-out click reaches no handler, so the page alerts the transport
      error and nothing is stored. For a logged-in user the displayed count
      is the stored count on success, and is untouched with the server's
      message alerted on a rejection (including "already agreed"). */
  lemma AgreeRoundTrip(b: Button, site: PluginAjax.Site, user: Option<int>)
    requires !b.disabled
    ensures var c := Click(b);
            && c.request == Some(b.id)
            && var d := PluginAjax.DispatchAgree(site, user, c.request);
            && var r := SettleAgree(c.button, Delivered(d));
            && !r.button.disabled
            && (user.None? ==>
                  && d.site == site
                  && r.button.shown == b.shown
                  && r.alert == Some("An error occurred. Please try again."))
            && (user.Some? ==>
                  && var out := PluginAjax.Agree(site, user, c.request);
                  && d.site == out.site
                  && (out.reply.Agreed? ==> r.button.shown == out.site.posts[b.id].agreeCount)
                  && (out.reply.Rejected? ==>
                        && out.reply.error != PluginAjax.NotLoggedIn
                        && r.button.shown == b.shown
                        && r.alert == Some(PluginAjax.Message(out.reply.error))))
  {
  }

  /** Button events: a click, or the outstanding request completing. */
  datatype ButtonEvent = Press | Complete(reply: Reply<AgreeResponse>)

  datatype ButtonTrace = ButtonTrace(final: Button, requests: nat, completed: nat)

  /** A run of button events. A completion can only happen while a request
      is out, that is while the button is disabled; any other is ignored. */
  function RunButton(b: Button, events: seq<ButtonEvent>): ButtonTrace
    decreases |events|
  {
    if |events| == 0 then ButtonTrace(b, 0, 0)
    else match events[0]
      case Press =>
        var c := Click(b);
        var rest := RunButton(c.button, events[1..]);
        rest.(requests := rest.requests + if c.request.Some? then 1 else 0)
      case Complete(reply) =>
        if b.disabled then
          var rest := RunButton(SettleAgree(b, reply).button, events[1..]);
          rest.(completed := rest.completed + 1)
        else RunButton(b, events[1..])
  }

  /** However fast the clicks come, a button has at most one request out:
      requests sent equal requests completed, corrected by the disabled flag
      at the two ends. */
  lemma {:induction false} OneAgreeInFlight(b: Button, events: seq<ButtonEvent>)
    ensures var t := RunButton(b, events);
            t.requests + (if b.disabled then 1 else 0) == t.completed + (if t.final.disabled then 1 else 0)
    decreases |events|
  {
    if |events| > 0 {
      match events[0]
      case Press => OneAgreeInFlight(Click(b).button, events[1..]);
      case Complete(reply) =>
        if b.disabled {
          OneAgreeInFlight(SettleAgree(b, reply).button, events[1..]);
        } else {
          OneAgreeInFlight(b, events[1..]);
        }
    }
  }

  // ---------------------------------------------------------- field filter

  /** Sending `wpit_filter`: the field and the stored view (no page, no search). */
  function IssueFilter(s: Surface, field: string): (r: PluginAjax.ListRequest)
    ensures r.field == Some(field) && r.view == Some(StoredView(s.container))
    ensures r.page.None? && r.search.None?
  {
    PluginAjax.ListRequest(None, Some(StoredView(s.container)), Some(field), None)
  }

  /** Marks active exactly the chips whose `data-field` is the field (the
      `""` chip for the empty field). */
  function Activate(chips: seq<Chip>, field: string): (r: seq<Chip>)
    ensures |r| == |chips|
    ensures forall i :: 0 <= i < |chips| ==> r[i].field == chips[i].field
    ensures forall i :: 0 <= i < |chips| ==> (r[i].active <==> chips[i].field == field)
  {
    seq(|chips|, i requires 0 <= i < |chips| => chips[i].(active := chips[i].field == field))
  }

  /** The filter's success callback: the markup replaces the body, the stored
      page returns to 1, the field is recorded, the sentinel is observed again
      when more pages exist (an existing observation is never dropped here),
      and the chips are re-marked. A failure or transport error changes nothing. */
  function ApplyFilter(s: Surface, field: string, reply: Reply<PluginAjax.ListResponse>): (t: Surface)
    ensures reply.Answered? && reply.response.success ==>
              && t.body == reply.response.html
              && t.container == s.container.(page := Some(1), field := Some(field))
              && (t.observing <==> s.observing || reply.response.hasMore)
              && t.chips == Activate(s.chips, field)
              && t.loaderShown == s.loaderShown
    ensures !(reply.Answered? && reply.response.success) ==> t == s
  {
    if reply.Answered? && reply.response.success then
      s.(body := reply.response.html,
         container := s.container.(page := Some(1), field := Some(field)),
         observing := s.observing || reply.response.hasMore,
         chips := Activate(s.chips, field))
    else s
  }

  predicate DistinctFields(chips: seq<Chip>)
  {
    forall i, j :: 0 <= i < j < |chips| ==> chips[i].field != chips[j].field
  }

  /** With one chip per field, after a filter exactly one chip is active:
      the one for the field, or the "all" chip for the empty field. */
  lemma ExactlyOneChipActive(s: Surface, field: string, reply: Reply<PluginAjax.ListResponse>, k: nat)
    requires reply.Answered? && reply.response.success
    requires DistinctFields(s.chips)
    requires k < |s.chips| && s.chips[k].field == field
    ensures var t := ApplyFilter(s, field, reply);
            && t.chips[k].active
            && (forall i :: 0 <= i < |t.chips| && t.chips[i].active ==> i == k)
  {
  }

  /** Against the server: a filter leaves the body holding exactly the first
      page of the new field's posts (or the empty-state block), with the
      stored page back at 1, whatever was loaded before. */
  lemma FilterShowsFirstPage(s: Surface, field: string, catalog: (Option<string>, Option<string>) -> seq<int>)
    ensures var req := IssueFilter(s, field);
            var rows := catalog(PluginAjax.FieldFilter(req), None);
            var t := ApplyFilter(s, field, Answered(PluginAjax.Filter(req, catalog)));
            && t.container.page == Some(1)
            && t.container.field == Some(field)
            && (|rows| == 0 ==> t.body == [PluginAjax.EmptyState])
            && (|rows| > 0 ==>
                  t.body == PluginAjax.Render(StoredView(s.container), Page(rows, 1, PluginAjax.PerPage(StoredView(s.container)))))
  {
    var req := IssueFilter(s, field);
    assert PluginAjax.SearchFilter(req) == None;
  }
}
