/** The standalone app's routes (impossible-trinity/app.py) as transitions of
    the record store. A route either commits a new store or refuses (a flash
    message and redirect, a 404, or a failed commit) and leaves the store as it
    was. The session's user id is a parameter: `@login_required` admits only a
    session that names an existing user. */
module FlaskApp {
  import opened Wrappers
  import opened FlaskModels
  import opened Paging

  datatype Refusal = LoginRequired | NotFound | Forbidden | EmptyContent | UsernameTaken | ServerError

  predicate LoggedIn(s: Store, session: Option<int>)
  {
    session.Some? && session.value in s.users
  }

  predicate IsAdmin(s: Store, session: Option<int>)
  {
    LoggedIn(s, session) && s.users[session.value].isAdmin
  }

  /** The edit/delete authorisation: the item's creator or an administrator. */
  predicate MayModify(s: Store, session: Option<int>, id: int)
    requires id in s.items
  {
    LoggedIn(s, session) && (s.items[id].creatorId == session.value || IsAdmin(s, session))
  }

  // ---------------------------------------------------------------- register

  /** `POST /register`. A taken username is refused before anything else; a
      missing password fails while hashing and a missing username fails the
      NOT NULL constraint at commit. Otherwise a non-admin user is added. The
      hash function stands for bcrypt. */
  function Register(s: Store, username: Option<string>, password: Option<string>,
                    hash: string -> string): (r: Result<Store, Refusal>)
    ensures username.Some? && HasUsername(s.users, username.value) ==> r == Err(UsernameTaken)
    ensures r.Ok? <==> username.Some? && password.Some? && !HasUsername(s.users, username.value)
    ensures r.Ok? ==>
              && r.value.users == s.users[s.nextUser := User(username.value, hash(password.value), false)]
              && r.value.items == s.items && r.value.comments == s.comments
  {
    if username.Some? && HasUsername(s.users, username.value) then Err(UsernameTaken)
    else if password.None? || username.None? then Err(ServerError)
    else Ok(s.(users := s.users[s.nextUser := User(username.value, hash(password.value), false)],
               nextUser := s.nextUser + 1))
  }

  /** Registration keeps usernames unique, so no username is ever registered twice. */
  lemma RegisterPreservesValid(s: Store, username: Option<string>, password: Option<string>,
                               hash: string -> string)
    requires Valid(s)
    ensures var r := Register(s, username, password, hash);
            r.Ok? ==> Valid(r.value) && HasUsername(r.value.users, username.value)
  {
    var r := Register(s, username, password, hash);
    if r.Ok? {
      var users := r.value.users;
      assert users[s.nextUser].username == username.value;
      forall a, b | a in users && b in users && a != b
        ensures users[a].username != users[b].username
      {
        if a == s.nextUser {
          assert b in s.users;
        } else if b == s.nextUser {
          assert a in s.users;
        }
      }
    }
  }

  // ---------------------------------------------------------------- comments

  /** `POST /comment/<id>`: a logged-in user comments on an existing item; an
      empty or missing content adds nothing. */
  function AddComment(s: Store, session: Option<int>, item: int, content: Option<string>,
                      now: int): (r: Result<Store, Refusal>)
    ensures !LoggedIn(s, session) ==> r == Err(LoginRequired)
    ensures LoggedIn(s, session) && item !in s.items ==> r == Err(NotFound)
    ensures r.Ok? <==> LoggedIn(s, session) && item in s.items && content.Some? && content.value != ""
    ensures r.Ok? ==>
              && r.value.comments == s.comments[s.nextComment := Comment(content.value, now, item, session.value)]
              && r.value.items == s.items && r.value.users == s.users
  {
    if !LoggedIn(s, session) then Err(LoginRequired)
    else if item !in s.items then Err(NotFound)
    else if content.None? || content.value == "" then Err(EmptyContent)
    else Ok(s.(comments := s.comments[s.nextComment := Comment(content.value, now, item, session.value)],
               nextComment := s.nextComment + 1))
  }

  lemma AddCommentPreservesValid(s: Store, session: Option<int>, item: int, content: Option<string>, now: int)
    requires Valid(s)
    ensures var r := AddComment(s, session, item, content, now);
            r.Ok? ==> Valid(r.value) && |CommentsOf(r.value, item)| == |CommentsOf(s, item)| + 1
  {
    var r := AddComment(s, session, item, content, now);
    if r.Ok? {
      var t := r.value;
      var c := s.nextComment;
      assert c !in s.comments;
      assert t.comments[c].itemId in t.items && t.comments[c].userId in t.users;
      forall k | k in t.comments ensures 0 <= k < t.nextComment {
      }
      assert CommentsOf(t, item) == CommentsOf(s, item) + {c};
    }
  }

  /** `POST /comment/delete/<id>`: only an administrator removes a comment. */
  function DeleteComment(s: Store, session: Option<int>, comment: int): (r: Result<Store, Refusal>)
    ensures r.Ok? <==> IsAdmin(s, session) && comment in s.comments
    ensures LoggedIn(s, session) && comment in s.comments && !IsAdmin(s, session) ==> r == Err(Forbidden)
    ensures r.Ok? ==>
              && r.value.comments.Keys == s.comments.Keys - {comment}
              && (forall c :: c in r.value.comments ==> r.value.comments[c] == s.comments[c])
              && r.value.items == s.items && r.value.users == s.users
  {
    if !LoggedIn(s, session) then Err(LoginRequired)
    else if comment !in s.comments then Err(NotFound)
    else if !IsAdmin(s, session) then Err(Forbidden)
    else Ok(s.(comments := s.comments - {comment}))
  }

  /** Removing a comment breaks no reference, so the store stays valid, and
      the item loses exactly that comment. */
  lemma DeleteCommentPreservesValid(s: Store, session: Option<int>, comment: int)
    requires Valid(s)
    ensures var r := DeleteComment(s, session, comment);
            r.Ok? ==> && Valid(r.value)
                      && CommentsOf(r.value, s.comments[comment].itemId)
                         == CommentsOf(s, s.comments[comment].itemId) - {comment}
  {
  }

  // ---------------------------------------------------------------- items

  /** The submitted item form; an absent field is `None`. */
  datatype ItemForm = ItemForm(
    name: Option<string>,
    nameEn: Option<string>,
    field: Option<string>,
    element1: Option<string>,
    element2: Option<string>,
    element3: Option<string>,
    description: Option<string>,
    explanation1: Option<string>,
    explanation2: Option<string>,
    explanation3: Option<string>,
    hyperlink: Option<string>,
    featureImageUrl: Option<string>,
    image1: Option<string>,
    image2: Option<string>,
    image3: Option<string>)

  /** The NOT NULL columns are all present in the form. */
  predicate Complete(f: ItemForm)
  {
    f.name.Some? && f.field.Some? && f.element1.Some? && f.element2.Some? && f.element3.Some? && f.description.Some?
  }

  /** The row a complete form describes for a given creator and timestamps:
      every submitted column is taken as submitted, and an absent English
      name is "Impossible Trinity". */
  function FormRow(f: ItemForm, creator: int, createdAt: int, updatedAt: int, agreeCount: int): (it: Item)
    requires Complete(f)
    ensures it.name == f.name.value && it.field == f.field.value && it.description == f.description.value
    ensures it.element1 == f.element1.value && it.element2 == f.element2.value && it.element3 == f.element3.value
    ensures f.nameEn.Some? ==> it.nameEn == f.nameEn.value
    ensures f.nameEn.None? ==> it.nameEn == DefaultNameEn
    ensures it.explanation1 == f.explanation1 && it.explanation2 == f.explanation2 && it.explanation3 == f.explanation3
    ensures it.hyperlink == f.hyperlink && it.featureImageUrl == f.featureImageUrl
    ensures it.image1 == f.image1 && it.image2 == f.image2 && it.image3 == f.image3
    ensures it.creatorId == creator && it.agreeCount == agreeCount
    ensures it.createdAt == createdAt && it.updatedAt == updatedAt
  {
    Item(f.name.value, f.nameEn.GetOr(DefaultNameEn), f.field.value, f.element1.value, f.element2.value,
         f.element3.value, f.description.value, createdAt, updatedAt, agreeCount, f.hyperlink,
         f.featureImageUrl, f.image1, f.image2, f.image3, f.explanation1, f.explanation2, f.explanation3,
         creator)
  }

  /** The form that a row's columns fill in (the edit page's fields). */
  function FormOf(it: Item): (f: ItemForm)
    ensures Complete(f)
  {
    ItemForm(Some(it.name), Some(it.nameEn), Some(it.field), Some(it.element1), Some(it.element2),
             Some(it.element3), Some(it.description), it.explanation1, it.explanation2, it.explanation3,
             it.hyperlink, it.featureImageUrl, it.image1, it.image2, it.image3)
  }

  /** A stored row keeps the whole submission: reading its form back gives
      the submitted form, with the English name filled in by its default. */
  lemma FormRoundTrip(f: ItemForm, creator: int, createdAt: int, updatedAt: int, agreeCount: int)
    requires Complete(f)
    ensures FormOf(FormRow(f, creator, createdAt, updatedAt, agreeCount))
            == f.(nameEn := Some(f.nameEn.GetOr(DefaultNameEn)))
  {
  }

  /** `POST /add`: a new item by the logged-in user with no agreements yet. A
      form without a NOT NULL column fails at commit. */
  function AddItem(s: Store, session: Option<int>, f: ItemForm, now: int): (r: Result<Store, Refusal>)
    ensures r.Ok? <==> LoggedIn(s, session) && Complete(f)
    ensures r.Ok? ==>
              && s.nextItem in r.value.items
              && r.value.items == s.items[s.nextItem := r.value.items[s.nextItem]]
              && r.value.items[s.nextItem].creatorId == session.value
              && r.value.items[s.nextItem].agreeCount == 0
              && r.value.items[s.nextItem] == FormRow(f, session.value, now, now, 0)
              && r.value.users == s.users && r.value.comments == s.comments
  {
    if !LoggedIn(s, session) then Err(LoginRequired)
    else if !Complete(f) then Err(ServerError)
    else Ok(s.(items := s.items[s.nextItem := FormRow(f, session.value, now, now, 0)],
               nextItem := s.nextItem + 1))
  }

  lemma AddItemPreservesValid(s: Store, session: Option<int>, f: ItemForm, now: int)
    requires Valid(s)
    ensures var r := AddItem(s, session, f, now);
            r.Ok? ==> Valid(r.value)
  {
  }

  /** `POST /edit/<id>`: only the creator or an administrator may edit; every
      form column is overwritten and `updated_at` is set to now, while
      creation time, agreement count and creator are kept. */
  function EditItem(s: Store, session: Option<int>, id: int, f: ItemForm, now: int): (r: Result<Store, Refusal>)
    ensures LoggedIn(s, session) && id in s.items && !MayModify(s, session, id) ==> r == Err(Forbidden)
    ensures r.Ok? <==> id in s.items && MayModify(s, session, id) && Complete(f)
    ensures r.Ok? ==>
              && r.value.items.Keys == s.items.Keys
              && (forall k :: k in s.items && k != id ==> r.value.items[k] == s.items[k])
              && r.value.items[id] == FormRow(f, s.items[id].creatorId, s.items[id].createdAt, now, s.items[id].agreeCount)
              && r.value.items[id].name == f.name.value
              && r.value.items[id].updatedAt == now
              && r.value.items[id].createdAt == s.items[id].createdAt
              && r.value.items[id].agreeCount == s.items[id].agreeCount
              && r.value.items[id].creatorId == s.items[id].creatorId
              && r.value.users == s.users && r.value.comments == s.comments
  {
    if !LoggedIn(s, session) then Err(LoginRequired)
    else if id !in s.items then Err(NotFound)
    else if !MayModify(s, session, id) then Err(Forbidden)
    else if !Complete(f) then Err(ServerError)
    else
      var old_ := s.items[id];
      Ok(s.(items := s.items[id := FormRow(f, old_.creatorId, old_.createdAt, now, old_.agreeCount)]))
  }

  /** An edit keeps the creator, so the store stays valid, and the row then
      holds exactly the submitted form. */
  lemma EditItemPreservesValid(s: Store, session: Option<int>, id: int, f: ItemForm, now: int)
    requires Valid(s)
    ensures var r := EditItem(s, session, id, f, now);
            r.Ok? ==> Valid(r.value) && FormOf(r.value.items[id]) == f.(nameEn := Some(f.nameEn.GetOr(DefaultNameEn)))
  {
    var r := EditItem(s, session, id, f, now);
    if r.Ok? {
      FormRoundTrip(f, s.items[id].creatorId, s.items[id].createdAt, now, s.items[id].agreeCount);
      var t := r.value;
      forall i | i in t.items ensures 0 <= i < t.nextItem && t.items[i].creatorId in t.users {
        if i != id {
          assert t.items[i] == s.items[i];
        }
      }
    }
  }

  /** `POST /delete/<id>`: only the creator or an administrator may delete;
      the item's comments go with it. */
  function DeleteItem(s: Store, session: Option<int>, id: int): (r: Result<Store, Refusal>)
    ensures LoggedIn(s, session) && id in s.items && !MayModify(s, session, id) ==> r == Err(Forbidden)
    ensures r.Ok? <==> id in s.items && MayModify(s, session, id)
    ensures r.Ok? ==>
              && r.value.items.Keys == s.items.Keys - {id}
              && r.value.comments.Keys == s.comments.Keys - CommentsOf(s, id)
              && (forall k :: k in r.value.items ==> r.value.items[k] == s.items[k])
              && (forall c :: c in r.value.comments ==> r.value.comments[c] == s.comments[c])
              && r.value.users == s.users
  {
    if !LoggedIn(s, session) then Err(LoginRequired)
    else if id !in s.items then Err(NotFound)
    else if !MayModify(s, session, id) then Err(Forbidden)
    else Ok(s.(items := s.items - {id}, comments := s.comments - CommentsOf(s, id)))
  }

  /** The cascade: after a delete no comment refers to the item, and every
      remaining comment still refers to an existing item and user. */
  lemma DeleteItemPreservesValid(s: Store, session: Option<int>, id: int)
    requires Valid(s)
    ensures var r := DeleteItem(s, session, id);
            r.Ok? ==> Valid(r.value) && CommentsOf(r.value, id) == {}
  {
    var r := DeleteItem(s, session, id);
    if r.Ok? {
      var t := r.value;
      forall c | c in t.comments
        ensures t.comments[c].itemId in t.items && t.comments[c].userId in t.users
      {
        assert c !in CommentsOf(s, id);
        assert t.comments[c] == s.comments[c];
      }
    }
  }

  // ---------------------------------------------------------------- agree

  /** `POST /agree/<id>`: adds one to the item's count on every call, with no
      record of who agreed, and answers with the new count. The commit
      updates the row, so the column's `onupdate` stamps `updated_at` with
      the commit time `now`. */
  function AgreeIt(s: Store, session: Option<int>, id: int, now: int): (r: Result<(Store, int), Refusal>)
    ensures r.Ok? <==> LoggedIn(s, session) && id in s.items
    ensures r.Ok? ==>
              && r.value.0.items.Keys == s.items.Keys
              && r.value.0.items[id].agreeCount == s.items[id].agreeCount + 1
              && r.value.0.items[id].updatedAt == now
              && r.value.0.items[id] == s.items[id].(agreeCount := s.items[id].agreeCount + 1, updatedAt := now)
              && r.value.1 == r.value.0.items[id].agreeCount
              && (forall k :: k in s.items && k != id ==> r.value.0.items[k] == s.items[k])
              && r.value.0.users == s.users && r.value.0.comments == s.comments
  {
    if !LoggedIn(s, session) then Err(LoginRequired)
    else if id !in s.items then Err(NotFound)
    else
      var it := s.items[id];
      var t := s.(items := s.items[id := it.(agreeCount := it.agreeCount + 1, updatedAt := now)]);
      Ok((t, it.agreeCount + 1))
  }

  /** The same user agreeing `n` times in a row, at time `now`. */
  function AgreeRepeatedly(s: Store, session: Option<int>, id: int, n: nat, now: int): Store
    decreases n
  {
    if n == 0 then s
    else
      match AgreeIt(s, session, id, now)
      case Ok((t, _)) => AgreeRepeatedly(t, session, id, n - 1, now)
      case Err(_) => s
  }

  /** Unlike the plugin's endpoint, nothing stops one user from agreeing
      again: `n` calls by the same user add exactly `n`. */
  lemma {:induction false} AgreeItCountsEveryCall(s: Store, session: Option<int>, id: int, n: nat, now: int)
    requires LoggedIn(s, session) && id in s.items
    ensures var t := AgreeRepeatedly(s, session, id, n, now);
            id in t.items && t.items[id].agreeCount == s.items[id].agreeCount + n
    decreases n
  {
    if n > 0 {
      var t := AgreeIt(s, session, id, now).value.0;
      AgreeItCountsEveryCall(t, session, id, n - 1, now);
    }
  }

  // ---------------------------------------------------------------- /api/its

  /** One element of the `items` array of `GET /api/its`. */
  datatype ApiItem = ApiItem(
    id: int,
    name: string,
    field: string,
    element1: string,
    element2: string,
    element3: string,
    description: Option<string>,
    agreeCount: int,
    commentsCount: int,
    explanation1: Option<string>,
    explanation2: Option<string>,
    explanation3: Option<string>)

  datatype ApiResponse = ApiResponse(items: seq<ApiItem>, hasMore: bool, nextPage: Option<int>)

  /** The JSON object for one item; `comments_count` is the size of its
      comment relationship. */
  function Serialize(s: Store, id: int): (a: ApiItem)
    requires id in s.items
    ensures a.id == id && a.commentsCount == |CommentsOf(s, id)|
    ensures a.agreeCount == s.items[id].agreeCount && a.description == Some(s.items[id].description)
    ensures a.name == s.items[id].name && a.field == s.items[id].field
    ensures a.element1 == s.items[id].element1 && a.element2 == s.items[id].element2
    ensures a.element3 == s.items[id].element3
    ensures a.explanation1 == s.items[id].explanation1 && a.explanation2 == s.items[id].explanation2
    ensures a.explanation3 == s.items[id].explanation3
  {
    var it := s.items[id];
    ApiItem(id, it.name, it.field, it.element1, it.element2, it.element3, Some(it.description),
            it.agreeCount, |CommentsOf(s, id)|, it.explanation1, it.explanation2, it.explanation3)
  }

  /** The page and page size `paginate(error_out=False)` works with: a query
      argument that is absent or not an integer takes the route's default (1
      and 12), and the library then raises a page below 1 to 1 and replaces a
      page size below 1 by 20. This is the rule of Flask-SQLAlchemy 3.x; the
      2.x series replaced only a negative page size. */
  function EffectivePage(page: Option<int>): (p: nat)
    ensures p >= 1
    ensures page.Some? && page.value >= 1 ==> p == page.value
    ensures page.None? || page.value < 1 ==> p == 1
  {
    var p := page.GetOr(1);
    if p < 1 then 1 else p
  }

  function EffectivePerPage(perPage: Option<int>): (n: nat)
    ensures n >= 1
    ensures perPage.Some? && perPage.value >= 1 ==> n == perPage.value
    ensures perPage.None? ==> n == 12
    ensures perPage.Some? && perPage.value < 1 ==> n == 20
  {
    var n := perPage.GetOr(12);
    if n < 1 then 20 else n
  }

  /** What `GET /` hands the card template: the first 12 items, newest
      first, and whether more exist. Any other view lists every item. */
  datatype IndexPage = IndexPage(its: seq<int>, hasMore: bool, perPage: nat)

  function Index(s: Store, view: Option<string>): (r: IndexPage)
    ensures view.GetOr("card") == "card" ==>
              r.perPage == 12 && r.its == Page(Listing(s), 1, 12) && (r.hasMore <==> 12 < |Listing(s)|)
    ensures view.GetOr("card") != "card" ==> r.its == Listing(s)
  {
    var rows := Listing(s);
    if view.GetOr("card") == "card" then
      MorePagesIffRowsRemain(|rows|, 1, 12);
      IndexPage(Page(rows, 1, 12), PageCount(|rows|, 12) > 1, 12)
    else
      IndexPage(rows, false, 12)
  }

  /** `GET /api/its`: the requested page of the items, newest first, whether a
      further page exists, and the number of that page exactly when it does. */
  function ApiIts(s: Store, page: Option<int>, perPage: Option<int>): (r: ApiResponse)
    ensures var p := EffectivePage(page);
            var n := EffectivePerPage(perPage);
            && (r.hasMore <==> p * n < |Listing(s)|)
            && (r.nextPage.None? <==> !r.hasMore)
            && (r.nextPage.Some? ==> r.nextPage.value == p + 1)
            && |r.items| <= n
            && ServesPage(s, r.items, p, n)
  {
    var p := EffectivePage(page);
    var n := EffectivePerPage(perPage);
    var rows := Listing(s);
    var ids := Page(rows, p, n);
    var hasNext := PageCount(|rows|, n) > p;
    MorePagesIffRowsRemain(|rows|, p, n);
    ListingPage(s, p, n);
    SerializedPage(s, p, n);
    ApiResponse(SerializeAll(s, ids), hasNext, if hasNext then Some(p + 1) else None)
  }

  /** Serialising page `p` of the listing serves that page. */
  lemma SerializedPage(s: Store, p: nat, n: nat)
    requires p >= 1 && n >= 1
    ensures forall k :: 0 <= k < |Page(Listing(s), p, n)| ==> Page(Listing(s), p, n)[k] in s.items
    ensures ServesPage(s, SerializeAll(s, Page(Listing(s), p, n)), p, n)
  {
    ListingPage(s, p, n);
    var ids := Page(Listing(s), p, n);
    var items := SerializeAll(s, ids);
    assert forall i :: 0 <= i < |items| ==> items[i].id == ids[i];
  }

  /** `items` is page `p` of the listing, serialised: as many items as the
      page has, each the serialisation of the item at its listing position,
      newest first. */
  predicate ServesPage(s: Store, items: seq<ApiItem>, p: nat, n: nat)
    requires p >= 1 && n >= 1
  {
    && |items| == |Page(Listing(s), p, n)|
    && (forall i :: 0 <= i < |items| ==>
          && Offset(p, n) + i < |Listing(s)|
          && items[i].id == Listing(s)[Offset(p, n) + i]
          && items[i].id in s.items
          && items[i] == Serialize(s, items[i].id))
    && (forall i, j :: 0 <= i < j < |items| ==>
          && items[i].id in s.items && items[j].id in s.items
          && s.items[items[i].id].createdAt >= s.items[items[j].id].createdAt)
  }

  /** A page of the listing holds existing items, at their listing
      positions, newest first. */
  lemma ListingPage(s: Store, p: nat, n: nat)
    requires p >= 1 && n >= 1
    ensures var ids := Page(Listing(s), p, n);
            && (forall k :: 0 <= k < |ids| ==>
                  && ids[k] in s.items
                  && Offset(p, n) + k < |Listing(s)|
                  && ids[k] == Listing(s)[Offset(p, n) + k])
            && (forall i, j :: 0 <= i < j < |ids| ==> s.items[ids[i]].createdAt >= s.items[ids[j]].createdAt)
  {
    var rows := Listing(s);
    var ids := Page(rows, p, n);
    forall i, j | 0 <= i < j < |ids| ensures s.items[ids[i]].createdAt >= s.items[ids[j]].createdAt {
      assert ids[i] == rows[Offset(p, n) + i] && ids[j] == rows[Offset(p, n) + j];
    }
  }

  function SerializeAll(s: Store, ids: seq<int>): (r: seq<ApiItem>)
    requires forall k :: 0 <= k < |ids| ==> ids[k] in s.items
    ensures |r| == |ids|
    ensures forall i :: 0 <= i < |ids| ==> r[i] == Serialize(s, ids[i])
  {
    seq(|ids|, i requires 0 <= i < |ids| => Serialize(s, ids[i]))
  }
}
