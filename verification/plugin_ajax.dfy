/** The plugin's AJAX endpoints (wp-impossible-trinity/includes/class-it-ajax.php):
    `wpit_load_more`, `wpit_filter` and `wpit_agree`.

    The post query is WordPress's; it is a parameter here: `catalog(field,
    search)` is the ordered list (newest first) of published item ids in the
    field's taxonomy term (every field when `None`) that match the search (every
    item when `None`). Request values arrive already passed through
    `sanitize_text_field`. The nonce check is not modelled. */
module PluginAjax {
  import opened Wrappers
  import opened Paging
  import Php

  const PostType: string := "impossible_trinity"

  /** The markup a response carries, one fragment per post: a card, a table
      row, or the "nothing found" block. The empty sequence is the empty
      string. */
  datatype Fragment = CardFragment(id: int) | RowFragment(id: int) | EmptyState

  /** A listing request's POST fields; an absent field is `None`. */
  datatype ListRequest = ListRequest(page: Option<int>, view: Option<string>, field: Option<string>,
                                     search: Option<string>)

  datatype ListResponse = ListResponse(success: bool, html: seq<Fragment>, hasMore: bool)

  /** Posts a page: 20 for the table view, 12 for every other view. */
  function PerPage(view: string): (n: nat)
    ensures n == 20 || n == 12
    ensures n == 20 <==> view == "table"
  {
    if view == "table" then 20 else 12
  }

  /** The view a request asks for, "card" when absent. */
  function ViewOf(req: ListRequest): string { req.view.GetOr("card") }

  /** The taxonomy filter and search a request applies: none for an empty value. */
  function FieldFilter(req: ListRequest): Option<string>
  {
    if Php.Empty(req.field) then None else req.field
  }

  function SearchFilter(req: ListRequest): Option<string>
  {
    if Php.Empty(req.search) then None else req.search
  }

  /** Table rows for the table view, cards otherwise, in query order. */
  function Render(view: string, ids: seq<int>): (html: seq<Fragment>)
    ensures |html| == |ids|
    ensures forall i :: 0 <= i < |ids| ==>
              html[i] == (if view == "table" then RowFragment(ids[i]) else CardFragment(ids[i]))
  {
    if view == "table" then seq(|ids|, i requires 0 <= i < |ids| => RowFragment(ids[i]))
    else seq(|ids|, i requires 0 <= i < |ids| => CardFragment(ids[i]))
  }

  /** `wpit_load_more`. The page defaults to 1; `has_more` compares the query's
      page count with the requested page, so it holds exactly when rows remain
      after that page (and for any negative page). The markup is the queried
      page rendered for the view, empty when the page has no posts. */
  function LoadMore(req: ListRequest, catalog: (Option<string>, Option<string>) -> seq<int>): (r: ListResponse)
    ensures var page := req.page.GetOr(1);
            var rows := catalog(FieldFilter(req), SearchFilter(req));
            var n := PerPage(ViewOf(req));
            && r.success
            && (page >= 0 ==> (r.hasMore <==> page * n < |rows|))
            && (page < 0 ==> r.hasMore)
            && r.html == Render(ViewOf(req), Page(rows, Php.QueryPage(page), n))
  {
    var page := req.page.GetOr(1);
    var view := ViewOf(req);
    var n := PerPage(view);
    var rows := catalog(FieldFilter(req), SearchFilter(req));
    HasMoreForAnyPage(|rows|, page, n);
    ListResponse(true, Render(view, Page(rows, Php.QueryPage(page), n)), PageCount(|rows|, n) > page)
  }

  lemma HasMoreForAnyPage(total: nat, page: int, n: nat)
    requires n > 0
    ensures page >= 0 ==> (PageCount(total, n) > page <==> page * n < total)
    ensures page < 0 ==> PageCount(total, n) > page
  {
    if page >= 0 {
      MorePagesIffRowsRemain(total, page, n);
    }
  }

  /** `wpit_filter`: always the first page of the new filter. With no matching
      post the markup is the empty-state block and `has_more` is false;
      otherwise `has_more` holds exactly when the posts do not fit one page. */
  function Filter(req: ListRequest, catalog: (Option<string>, Option<string>) -> seq<int>): (r: ListResponse)
    ensures var rows := catalog(FieldFilter(req), SearchFilter(req));
            var n := PerPage(ViewOf(req));
            && r.success
            && (|rows| == 0 ==> r.html == [EmptyState] && !r.hasMore)
            && (|rows| > 0 ==> r.html == Render(ViewOf(req), Page(rows, 1, n)) && |r.html| > 0)
            && (|rows| > 0 ==> (r.hasMore <==> n < |rows|))
  {
    var view := ViewOf(req);
    var n := PerPage(view);
    var rows := catalog(FieldFilter(req), SearchFilter(req));
    MorePagesIffRowsRemain(|rows|, 1, n);
    if |rows| == 0 then ListResponse(true, [EmptyState], false)
    else ListResponse(true, Render(view, Page(rows, 1, n)), PageCount(|rows|, n) > 1)
  }

  // ---------------------------------------------------------------- agree

  /** The stored `_wpit_agreed_posts` user meta: a list of post ids or some
      other value, which the endpoint reads as the empty list. */
  datatype AgreedMeta = AgreedList(ids: seq<int>) | NotAList

  /** A post's type and its `_agree_count` meta read as an integer (0 when unset). */
  datatype Post = Post(postType: string, agreeCount: int)

  /** The slice of the site the agree endpoint reads and writes. A user
      without the meta has nothing stored for it. */
  datatype Site = Site(posts: map<int, Post>, agreed: map<int, AgreedMeta>)

  datatype AgreeError = NotLoggedIn | InvalidId | NotFound | AlreadyAgreed

  datatype AgreeReply = Agreed(count: int) | Rejected(error: AgreeError)

  datatype AgreeOutcome = AgreeOutcome(site: Site, reply: AgreeReply)

  /** The message the endpoint sends with each rejection. */
  function Message(e: AgreeError): string
  {
    match e
    case NotLoggedIn => "You must be logged in to agree."
    case InvalidId => "Invalid post ID."
    case NotFound => "Post not found."
    case AlreadyAgreed => "You have already agreed to this."
  }

  /** The posts a user has agreed with, as the endpoint reads them. */
  function AgreedBy(site: Site, user: int): seq<int>
  {
    if user in site.agreed && site.agreed[user].AgreedList? then site.agreed[user].ids else []
  }

  predicate IsItem(site: Site, id: int)
  {
    id in site.posts && site.posts[id].postType == PostType
  }

  /** `wpit_agree` for the current user (`None` when logged out) and the
      submitted id after `intval` (`None` when absent). The checks run in
      order and each rejection ends the request with nothing written. On
      success the count goes up by one, the post joins the user's list, and
      the reply carries the new stored count. */
  function Agree(site: Site, user: Option<int>, id: Option<int>): (r: AgreeOutcome)
    ensures r.reply.Rejected? ==> r.site == site
    ensures user.None? ==> r.reply == Rejected(NotLoggedIn)
    ensures user.Some? && id.GetOr(0) == 0 ==> r.reply == Rejected(InvalidId)
    ensures user.Some? && id.GetOr(0) != 0 && !IsItem(site, id.value) ==> r.reply == Rejected(NotFound)
    ensures user.Some? && id.GetOr(0) != 0 && IsItem(site, id.value) && id.value in AgreedBy(site, user.value) ==>
              r.reply == Rejected(AlreadyAgreed)
    ensures r.reply.Agreed? <==>
              user.Some? && id.GetOr(0) != 0 && IsItem(site, id.value) && id.value !in AgreedBy(site, user.value)
    ensures r.reply.Agreed? ==>
              && var p := id.value;
              && r.site.posts == site.posts[p := site.posts[p].(agreeCount := site.posts[p].agreeCount + 1)]
              && r.reply.count == r.site.posts[p].agreeCount
              && AgreedBy(r.site, user.value) == AgreedBy(site, user.value) + [p]
              && (forall v :: v != user.value ==> AgreedBy(r.site, v) == AgreedBy(site, v))
  {
    if user.None? then AgreeOutcome(site, Rejected(NotLoggedIn))
    else if id.GetOr(0) == 0 then AgreeOutcome(site, Rejected(InvalidId))
    else if !IsItem(site, id.value) then AgreeOutcome(site, Rejected(NotFound))
    else
      var u := user.value;
      var p := id.value;
      var list := AgreedBy(site, u);
      if p in list then AgreeOutcome(site, Rejected(AlreadyAgreed))
      else
        var count := site.posts[p].agreeCount + 1;
        var site' := Site(site.posts[p := site.posts[p].(agreeCount := count)],
                          site.agreed[u := AgreedList(list + [p])]);
        AgreeOutcome(site', Agreed(count))
  }

  /** What `admin-ajax.php` makes of a `wpit_agree` request: the site after it
      and the JSON reply, or `None` for the bare `0` with HTTP status 400. */
  datatype Dispatched = Dispatched(site: Site, reply: Option<AgreeReply>)

  /** The plugin hooks `agree` only to `wp_ajax_wpit_agree`, the hook for
      logged-in users; unlike load-more and filter it has no
      `wp_ajax_nopriv_` hook. A logged-out request therefore finds no
      handler and `admin-ajax.php` ends it with `wp_die('0', 400)`, so the
      handler's own login check is never reached. */
  function DispatchAgree(site: Site, user: Option<int>, id: Option<int>): (r: Dispatched)
    ensures r.reply.None? <==> user.None?
    ensures r.reply.None? ==> r.site == site
    ensures r.reply.Some? ==> r.reply.value != Rejected(NotLoggedIn)
    ensures r.site == Agree(site, user, id).site
  {
    if user.None? then Dispatched(site, None)
    else
      var out := Agree(site, user, id);
      Dispatched(out.site, Some(out.reply))
  }

  /** One agree request: who sent it and the id it carried. */
  datatype AgreeCall = AgreeCall(user: Option<int>, id: Option<int>)

  /** A granted vote. */
  datatype Vote = Vote(user: int, post: int)

  datatype AgreeLog = AgreeLog(site: Site, granted: seq<Vote>)

  /** A sequence of agree requests handled one after another. A logged-out
      request writes nothing whether it is refused by the handler or, as
      `DispatchAgree` shows, never dispatched, so the run's sites are those
      of the requests as admin-ajax serves them. */
  function RunAgree(site: Site, calls: seq<AgreeCall>): AgreeLog
    decreases |calls|
  {
    if |calls| == 0 then AgreeLog(site, [])
    else
      var r := Agree(site, calls[0].user, calls[0].id);
      var rest := RunAgree(r.site, calls[1..]);
      if r.reply.Agreed? then AgreeLog(rest.site, [Vote(calls[0].user.value, calls[0].id.value)] + rest.granted)
      else rest
  }

  /** Agreement lists only grow, the post table keeps its keys and types, and
      every vote granted along the way ends up recorded. */
  lemma {:induction false} RunAgreeRecords(site: Site, calls: seq<AgreeCall>)
    ensures var log := RunAgree(site, calls);
            && (forall u, p :: p in AgreedBy(site, u) ==> p in AgreedBy(log.site, u))
            && (forall k :: 0 <= k < |log.granted| ==> log.granted[k].post in AgreedBy(log.site, log.granted[k].user))
            && (forall k :: 0 <= k < |log.granted| ==> log.granted[k].post !in AgreedBy(site, log.granted[k].user))
    decreases |calls|
  {
    if |calls| > 0 {
      var r := Agree(site, calls[0].user, calls[0].id);
      RunAgreeRecords(r.site, calls[1..]);
      var rest := RunAgree(r.site, calls[1..]);
      assert forall u, p :: p in AgreedBy(site, u) ==> p in AgreedBy(r.site, u);
      if r.reply.Agreed? {
        var first := Vote(calls[0].user.value, calls[0].id.value);
        var granted := [first] + rest.granted;
        assert RunAgree(site, calls) == AgreeLog(rest.site, granted);
        assert first.post in AgreedBy(r.site, first.user);
        forall k | 0 <= k < |granted|
          ensures granted[k].post in AgreedBy(rest.site, granted[k].user)
          ensures granted[k].post !in AgreedBy(site, granted[k].user)
        {
          if k > 0 {
            assert granted[k] == rest.granted[k - 1];
          }
        }
      } else {
        assert r.site == site;
      }
    }
  }

  predicate DistinctVotes(votes: seq<Vote>)
  {
    forall i, j :: 0 <= i < j < |votes| ==> votes[i] != votes[j]
  }

  lemma ConsDistinct(first: Vote, rest: seq<Vote>)
    requires DistinctVotes(rest)
    requires forall k :: 0 <= k < |rest| ==> rest[k] != first
    ensures DistinctVotes([first] + rest)
  {
    var all := [first] + rest;
    forall i, j | 0 <= i < j < |all| ensures all[i] != all[j] {
      assert all[j] == rest[j - 1];
      if i > 0 {
        assert all[i] == rest[i - 1];
      }
    }
  }

  /** At most one increment per (user, post) over any sequence of requests:
      no vote is granted twice, and none is granted for a post already on the
      user's list at the start. */
  lemma {:induction false} OneVotePerUserAndPost(site: Site, calls: seq<AgreeCall>)
    ensures var log := RunAgree(site, calls);
            && DistinctVotes(log.granted)
            && (forall k :: 0 <= k < |log.granted| ==> log.granted[k].post !in AgreedBy(site, log.granted[k].user))
    decreases |calls|
  {
    RunAgreeRecords(site, calls);
    if |calls| > 0 {
      var r := Agree(site, calls[0].user, calls[0].id);
      OneVotePerUserAndPost(r.site, calls[1..]);
      var rest := RunAgree(r.site, calls[1..]);
      assert DistinctVotes(rest.granted);
      assert forall k :: 0 <= k < |rest.granted| ==> rest.granted[k].post !in AgreedBy(r.site, rest.granted[k].user);
      if r.reply.Agreed? {
        var first := Vote(calls[0].user.value, calls[0].id.value);
        assert first.post in AgreedBy(r.site, first.user);
        forall k | 0 <= k < |rest.granted| ensures rest.granted[k] != first {
          assert rest.granted[k].post !in AgreedBy(r.site, rest.granted[k].user);
        }
        ConsDistinct(first, rest.granted);
        assert RunAgree(site, calls).granted == [first] + rest.granted;
      }
    }
  }

  /** Number of granted votes for a post. */
  function VotesFor(granted: seq<Vote>, post: int): nat
  {
    if |granted| == 0 then 0
    else (if granted[0].post == post then 1 else 0) + VotesFor(granted[1..], post)
  }

  /** The stored count of every item grows by exactly the votes granted for
      it, and no item appears or disappears. */
  lemma {:induction false} CountsTallyVotes(site: Site, calls: seq<AgreeCall>)
    ensures var log := RunAgree(site, calls);
            && log.site.posts.Keys == site.posts.Keys
            && (forall p :: p in site.posts ==>
                  log.site.posts[p].agreeCount == site.posts[p].agreeCount + VotesFor(log.granted, p))
    decreases |calls|
  {
    if |calls| > 0 {
      var r := Agree(site, calls[0].user, calls[0].id);
      CountsTallyVotes(r.site, calls[1..]);
    }
  }
}
