/** The standalone app's tables (impossible-trinity/models.py): users, items
    ("impossible trinities") and comments, held as maps from primary key to
    row, plus the integrity the schema enforces. */
module FlaskModels {
  import opened Wrappers

  datatype User = User(username: string, passwordHash: string, isAdmin: bool)

  /** One row of `impossible_trinity`. NOT NULL columns are plain strings;
      nullable ones are options. */
  datatype Item = Item(
    name: string,
    nameEn: string,
    field: string,
    element1: string,
    element2: string,
    element3: string,
    description: string,
    createdAt: int,
    updatedAt: int,
    agreeCount: int,
    hyperlink: Option<string>,
    featureImageUrl: Option<string>,
    image1: Option<string>,
    image2: Option<string>,
    image3: Option<string>,
    explanation1: Option<string>,
    explanation2: Option<string>,
    explanation3: Option<string>,
    creatorId: int)

  datatype Comment = Comment(content: string, createdAt: int, itemId: int, userId: int)

  /** The database: one map per table and the next free primary key of each. */
  datatype Store = Store(
    users: map<int, User>,
    items: map<int, Item>,
    comments: map<int, Comment>,
    nextUser: nat,
    nextItem: nat,
    nextComment: nat)

  const DefaultNameEn: string := "Impossible Trinity"

  predicate UniqueUsernames(users: map<int, User>)
  {
    forall a, b :: a in users && b in users && a != b ==> users[a].username != users[b].username
  }

  /** The integrity the schema guarantees: unique usernames, every item has an
      existing creator, every comment references an existing item and user,
      and keys lie below the next free key. */
  predicate Valid(s: Store)
  {
    && (forall u :: u in s.users ==> 0 <= u < s.nextUser)
    && (forall i :: i in s.items ==> 0 <= i < s.nextItem)
    && (forall c :: c in s.comments ==> 0 <= c < s.nextComment)
    && UniqueUsernames(s.users)
    && (forall i :: i in s.items ==> s.items[i].creatorId in s.users)
    && (forall c :: c in s.comments ==> s.comments[c].itemId in s.items && s.comments[c].userId in s.users)
  }

  function EmptyStore(): (s: Store)
    ensures Valid(s) && s.items == map[] && s.users == map[]
  {
    Store(map[], map[], map[], 0, 0, 0)
  }

  /** The comments of an item (its `comments` relationship). */
  function CommentsOf(s: Store, item: int): (cs: set<int>)
    ensures forall c :: c in cs <==> c in s.comments && s.comments[c].itemId == item
  {
    set c | c in s.comments && s.comments[c].itemId == item
  }

  predicate HasUsername(users: map<int, User>, username: string)
  {
    exists u :: u in users && users[u].username == username
  }

  /** Item ids ordered newest first by `created_at`. */
  predicate NewestFirst(order: seq<int>, items: map<int, Item>)
  {
    && (forall k :: 0 <= k < |order| ==> order[k] in items)
    && (forall i, j :: 0 <= i < j < |order| ==> items[order[i]].createdAt >= items[order[j]].createdAt)
  }

  predicate Distinct(order: seq<int>)
  {
    forall i, j :: 0 <= i < j < |order| ==> order[i] != order[j]
  }

  /** Places `id` in a newest-first order, ahead of every item not newer than it. */
  function InsertNewest(order: seq<int>, id: int, items: map<int, Item>): (r: seq<int>)
    requires id in items && NewestFirst(order, items)
    ensures NewestFirst(r, items)
    ensures |r| == |order| + 1
    ensures forall k :: k in r <==> k in order || k == id
    decreases |order|
  {
    if |order| == 0 || items[id].createdAt >= items[order[0]].createdAt then
      [id] + order
    else
      var rest := InsertNewest(order[1..], id, items);
      assert forall k :: 0 <= k < |rest| ==> rest[k] in order[1..] || rest[k] == id;
      assert forall k :: 0 <= k < |rest| ==> items[rest[k]].createdAt <= items[order[0]].createdAt;
      [order[0]] + rest
  }

  /** Inserting an id that is not yet present keeps the ids distinct. */
  lemma {:induction false} InsertNewestDistinct(order: seq<int>, id: int, items: map<int, Item>)
    requires id in items && NewestFirst(order, items)
    requires Distinct(order) && id !in order
    ensures Distinct(InsertNewest(order, id, items))
    decreases |order|
  {
    if |order| > 0 && items[id].createdAt < items[order[0]].createdAt {
      assert NewestFirst(order[1..], items);
      InsertNewestDistinct(order[1..], id, items);
      HeadNotInTail(order);
    }
  }

  lemma HeadNotInTail(order: seq<int>)
    requires |order| > 0
    ensures Distinct(order) ==> order[0] !in order[1..]
  {
    if Distinct(order) {
      forall k | 0 <= k < |order| - 1 ensures order[1..][k] != order[0] {
        assert order[1..][k] == order[k + 1];
      }
    }
  }

  /** The ids of all items with id below `n`, newest first (the
      `ORDER BY created_at DESC` of the item queries). */
  function Newest(items: map<int, Item>, n: nat): (r: seq<int>)
    ensures NewestFirst(r, items) && Distinct(r)
    ensures forall k :: k in r <==> k in items && 0 <= k < n
  {
    if n == 0 then []
    else
      var rest := Newest(items, n - 1);
      if n - 1 in items then
        InsertNewestDistinct(rest, n - 1, items);
        InsertNewest(rest, n - 1, items)
      else rest
  }

  /** The item table newest first, as every listing query reads it. */
  function Listing(s: Store): (r: seq<int>)
    ensures NewestFirst(r, s.items) && Distinct(r)
  {
    Newest(s.items, s.nextItem)
  }

  /** In a valid store the listing holds every item exactly once. */
  lemma ListingIsAllItems(s: Store)
    requires Valid(s)
    ensures forall k :: k in Listing(s) <==> k in s.items
    ensures |Listing(s)| == |s.items|
  {
    var l := Listing(s);
    assert forall k :: k in l <==> k in s.items;
    DistinctCard(l);
    assert (set k | k in l) == s.items.Keys;
  }

  lemma {:induction false} DistinctCard(l: seq<int>)
    requires Distinct(l)
    ensures |set k | k in l| == |l|
  {
    if |l| > 0 {
      var tail := l[..|l| - 1];
      assert Distinct(tail);
      DistinctCard(tail);
      assert (set k | k in l) == (set k | k in tail) + {l[|l| - 1]};
      assert l[|l| - 1] !in tail;
    }
  }
}
