/** The Prisma post service (src/service/post-service.js) over in-memory
    tables: a post table keyed by id and a like table of (user, post) rows.
    Posts and replies share the table; a reply carries its parent's id in
    `post_id` (here `parent`). */
module PrismaPosts {
  import opened Wrappers
  import opened Requests
  import PostValidation
  import opened Seqs
  import Feed
  import JsParseInt

  /** A row of the post table. `createdAt` comes from the abstract clock. */
  datatype Post = Post(id: int, text: string, userId: int, parent: Option<int>,
                       replyCount: int, likeCount: int, createdAt: int)

  /** A row of the like table. */
  datatype LikeRow = LikeRow(userId: int, postId: int)

  /** A post with its parent (`post`) and its newest replies (`replies`). */
  datatype PostDetail = PostDetail(post: Post, parent: Option<Post>, replies: seq<Post>)

  /** `take: 10` on the nested `replies` selection. */
  const ReplyPreview := 10

  const PostNotFound := Rejected(404, "Post is not found")

  function CreatedAt(p: Post): int
  {
    p.createdAt
  }

  /** Every row is stored under its own id. */
  ghost predicate KeysMatch(posts: map<int, Post>)
  {
    forall id :: id in posts ==> posts[id].id == id
  }

  function PostId(p: Post): int
  {
    p.id
  }

  /** The rows a `where` clause matches, ordered by `created_at` descending. */
  function Matching(posts: map<int, Post>, n: int, where: Post -> bool): (r: seq<Post>)
    requires KeysMatch(posts)
  {
    Feed.SortNewestFirst(Feed.Filter(Feed.Rows(posts, n, PostId), where), CreatedAt)
  }

  /** The nested `replies` of post `id`: newest first, at most 10. */
  function RepliesOf(posts: map<int, Post>, n: int, id: int): seq<Post>
    requires KeysMatch(posts)
  {
    Feed.Take(Matching(posts, n, (q: Post) => q.parent == Some(id)), ReplyPreview)
  }

  /** The nested `post` selection: the parent row, null when there is none. */
  function ParentOf(posts: map<int, Post>, p: Post): (r: Option<Post>)
    ensures r.Some? <==> p.parent.Some? && p.parent.value in posts
    ensures r.Some? ==> r.value == posts[p.parent.value]
  {
    if p.parent.Some? && p.parent.value in posts then Some(posts[p.parent.value]) else None
  }

  function Detail(posts: map<int, Post>, n: int, p: Post): PostDetail
    requires KeysMatch(posts)
  {
    PostDetail(p, ParentOf(posts, p), RepliesOf(posts, n, p.id))
  }

  /** `rs` is what the `replies` selection of post `id` promises: replies of
      `id` from the table, each once, newest first, at most 10, and no reply
      left out is newer than one shown. */
  ghost predicate IsReplyPreview(rs: seq<Post>, posts: map<int, Post>, id: int)
  {
    && |rs| <= ReplyPreview
    && Feed.NewestFirst(rs, CreatedAt)
    && NoDup(rs)
    && (forall i :: 0 <= i < |rs| ==> rs[i].id in posts && posts[rs[i].id] == rs[i] && rs[i].parent == Some(id))
    && (forall q :: q in posts && posts[q].parent == Some(id) && posts[q] !in rs ==>
          |rs| == ReplyPreview && forall i :: 0 <= i < |rs| ==> posts[q].createdAt <= rs[i].createdAt)
  }

  /** What a `findMany` with a `where` and `orderBy: created_at desc` returns:
      matching stored rows, each once, newest first, and all of them. */
  lemma MatchingFacts(posts: map<int, Post>, n: int, where: Post -> bool)
    requires KeysMatch(posts)
    ensures var m := Matching(posts, n, where);
      && Feed.NewestFirst(m, CreatedAt)
      && NoDup(m)
      && (forall p :: p in m ==> p.id in posts && posts[p.id] == p && where(p))
      && (forall id :: id in posts && 0 <= id < n && where(posts[id]) ==> posts[id] in m)
  {
    var f := Feed.Filter(Feed.Rows(posts, n, PostId), where);
    var m := Matching(posts, n, where);
    Feed.FilterKeepsNoDup(Feed.Rows(posts, n, PostId), where);
    Feed.SortKeepsNoDup(f, CreatedAt);
    forall p | p in m ensures p in f {
      assert p in multiset(m);
    }
    forall id | id in posts && 0 <= id < n && where(posts[id]) ensures posts[id] in m {
      assert posts[id] in multiset(f);
    }
  }

  /** A matching stored row that a first page of `k` leaves out is no newer
      than anything on it, and the page is full. */
  lemma FirstPageOfMatching(posts: map<int, Post>, n: int, where: Post -> bool, k: nat, id: int)
    requires KeysMatch(posts)
    requires id in posts && 0 <= id < n && where(posts[id])
    requires posts[id] !in Feed.Take(Matching(posts, n, where), k)
    ensures var page := Feed.Take(Matching(posts, n, where), k);
      |page| == k && forall i :: 0 <= i < |page| ==> posts[id].createdAt <= page[i].createdAt
  {
    var f := Feed.Filter(Feed.Rows(posts, n, PostId), where);
    assert posts[id] in f;
    Feed.FirstPageKeepsNewest(f, CreatedAt, k, posts[id]);
  }

  /** The nested replies of any post are a reply preview. */
  lemma RepliesOfIsPreview(posts: map<int, Post>, n: int, id: int)
    requires KeysMatch(posts)
    requires forall q :: q in posts ==> 0 <= q < n
    ensures IsReplyPreview(RepliesOf(posts, n, id), posts, id)
  {
    var where := (q: Post) => q.parent == Some(id);
    var m := Matching(posts, n, where);
    var rs := RepliesOf(posts, n, id);
    assert rs == Feed.Take(m, ReplyPreview);
    MatchingFacts(posts, n, where);
    Feed.TakeKeepsOrder(m, ReplyPreview, CreatedAt);
    Feed.TakeKeepsNoDup(m, ReplyPreview);
    forall i | 0 <= i < |rs| ensures rs[i].id in posts && posts[rs[i].id] == rs[i] && rs[i].parent == Some(id) {
      assert rs[i] == m[i];
      assert rs[i] in m;
    }
    forall q | q in posts && posts[q].parent == Some(id) && posts[q] !in rs
      ensures |rs| == ReplyPreview && forall i :: 0 <= i < |rs| ==> posts[q].createdAt <= rs[i].createdAt
    {
      FirstPageOfMatching(posts, n, where, ReplyPreview, q);
    }
  }

  // ---- Pagination of the user listings ------------------------------------

  /** `skip` and `take` of a listing after `parseInt`. */
  datatype Page = Page(skip: nat, take: Option<int>)

  /** `take: limit ? parseInt(limit, 10) : undefined` and the same for `skip`.
      Prisma refuses NaN (not an integer) and a negative skip. */
  function PageOf(req: Request): (r: Result<Page, Failure>)
    requires PostValidation.GetAllPost(req)
    ensures r.Ok? && "limit" !in req ==> r.value.take == None
    ensures r.Ok? && "limit" in req ==> r.value.take == JsParseInt.ParseInt(req["limit"].s)
    ensures r.Ok? && "offset" !in req ==> r.value.skip == 0
    ensures r.Ok? && "offset" in req ==> JsParseInt.ParseInt(req["offset"].s) == Some(r.value.skip as int)
    ensures r.Err? <==>
      || ("offset" in req && (JsParseInt.ParseInt(req["offset"].s).None? || JsParseInt.ParseInt(req["offset"].s).value < 0))
      || ("limit" in req && JsParseInt.ParseInt(req["limit"].s).None?)
    ensures r.Err? ==> r.error.StoreRejected?
    ensures "offset" !in req && "limit" !in req ==> r == Ok(Page(0, None))
  {
    var skip := if "offset" in req then JsParseInt.ParseInt(req["offset"].s) else Some(0);
    var take := if "limit" in req then Some(JsParseInt.ParseInt(req["limit"].s)) else None;
    if skip.None? || (take.Some? && take.value.None?) then Err(StoreRejected("NaN is not an integer"))
    else if skip.value < 0 then Err(StoreRejected("skip must not be negative"))
    else Ok(Page(skip.value, if take.Some? then Some(take.value.value) else None))
  }

  /** Decimal `offset` and `limit` strings give that skip and that take. */
  lemma PageOfNumerals(userId: int, k: nat, t: nat)
    ensures PageOf(map["user_id" := Integer(userId), "offset" := Text(JsParseInt.Decimal(k)),
                       "limit" := Text(JsParseInt.Decimal(t))]) == Ok(Page(k, Some(t)))
  {
    var req := map["user_id" := Integer(userId), "offset" := Text(JsParseInt.Decimal(k)),
                   "limit" := Text(JsParseInt.Decimal(t))];
    JsParseInt.ParseNumeral(k, "");
    JsParseInt.ParseNumeral(t, "");
    assert req["offset"].s == JsParseInt.Decimal(k) + "";
    assert req["limit"].s == JsParseInt.Decimal(t) + "";
  }

  /** A negative limit is a negative take, which Prisma reads from the end. */
  lemma PageOfNegativeLimit(userId: int, t: nat)
    ensures PageOf(map["user_id" := Integer(userId), "limit" := Text("-" + JsParseInt.Decimal(t))]) == Ok(Page(0, Some(-(t as int))))
  {
    var req := map["user_id" := Integer(userId), "limit" := Text("-" + JsParseInt.Decimal(t))];
    JsParseInt.ParseNumeral(t, "");
    assert req["limit"].s == "-" + JsParseInt.Decimal(t) + "";
  }

  /** A negative offset, or one that is not a number, is refused by Prisma. */
  lemma PageOfRefusesOffset(userId: int, k: nat)
    ensures k > 0 ==> PageOf(map["user_id" := Integer(userId), "offset" := Text("-" + JsParseInt.Decimal(k))]).Err?
    ensures PageOf(map["user_id" := Integer(userId), "offset" := Text("ten")]).Err?
  {
    var neg := map["user_id" := Integer(userId), "offset" := Text("-" + JsParseInt.Decimal(k))];
    JsParseInt.ParseNumeral(k, "");
    assert neg["offset"].s == "-" + JsParseInt.Decimal(k) + "";
    var word := map["user_id" := Integer(userId), "offset" := Text("ten")];
    JsParseInt.NoDigitIsNaN("ten");
    assert word["offset"].s == "ten";
  }

  function Abs(x: int): nat
  {
    if x < 0 then -x else x
  }

  /** The slice `[lo, hi)` of a listing of `len` rows that a page selects. A
      non-negative take counts from the front after skipping `skip`; a
      negative take counts from the back, the skip too. */
  function Window(len: nat, page: Page): (w: (nat, nat))
    ensures w.0 <= w.1 <= len
    ensures page.take.None? ==> w == (if page.skip <= len then page.skip else len, len)
    ensures page.take.Some? ==> w.1 - w.0 <= Abs(page.take.value)
    ensures page.take.Some? && page.take.value >= 0 ==> w.0 == (if page.skip <= len then page.skip else len)
    ensures page.take.Some? && page.take.value < 0 ==> w.1 == len - (if page.skip <= len then page.skip else len)
  {
    var skipped := if page.skip <= len then page.skip else len;
    match page.take
    case None => (skipped, len)
    case Some(t) =>
      if t >= 0 then (skipped, if skipped + t <= len then skipped + t else len)
      else
        var hi := len - skipped;
        (if -t <= hi then hi + t else 0, hi)
  }

  function Paginate(s: seq<Post>, page: Page): seq<Post>
  {
    var w := Window(|s|, page);
    s[w.0..w.1]
  }

  /** A page is a slice: it keeps the order and the distinctness of the
      listing, holds only its rows, and no more than a take asks for. */
  lemma PaginateFacts(s: seq<Post>, page: Page)
    requires NoDup(s) && Feed.NewestFirst(s, CreatedAt)
    ensures var r := Paginate(s, page);
      && NoDup(r) && Feed.NewestFirst(r, CreatedAt)
      && (forall p :: p in r ==> p in s)
      && (page.take.Some? ==> |r| <= Abs(page.take.value))
      && (page.skip == 0 && page.take.Some? && page.take.value >= 0 ==> r == Feed.Take(s, page.take.value))
  {
    var w := Window(|s|, page);
    var r := Paginate(s, page);
    forall i, j | 0 <= i < j < |r| ensures r[i] != r[j] && r[i].createdAt >= r[j].createdAt {
      assert r[i] == s[w.0 + i] && r[j] == s[w.0 + j];
    }
  }

  /** The `where` of a user listing: the user's posts, or the user's replies. */
  function ByAuthor(userId: int, replies: bool): Post -> bool
  {
    (p: Post) => p.userId == userId && p.parent.Some? == replies
  }

  /** The rows of one page of a user listing, newest first. */
  function ListingRows(posts: map<int, Post>, n: int, userId: int, replies: bool, page: Page): seq<Post>
    requires KeysMatch(posts)
  {
    Paginate(Matching(posts, n, ByAuthor(userId, replies)), page)
  }

  /** The `findMany` of a user listing: one page of rows, each with its
      parent and its reply preview. */
  function UserListing(posts: map<int, Post>, n: int, userId: int, replies: bool, page: Page): seq<PostDetail>
    requires KeysMatch(posts)
  {
    var rows := ListingRows(posts, n, userId, replies, page);
    seq(|rows|, i requires 0 <= i < |rows| => Detail(posts, n, rows[i]))
  }

  /** The rows of a listing page are stored rows of the user of the requested
      kind, each once, newest first; a page with a take holds at most that
      many; a first page holds the newest of them. */
  lemma ListingRowsFacts(posts: map<int, Post>, n: int, userId: int, replies: bool, page: Page)
    requires KeysMatch(posts)
    requires forall q :: q in posts ==> 0 <= q < n
    ensures var rows := ListingRows(posts, n, userId, replies, page);
      && (forall i :: 0 <= i < |rows| ==>
            rows[i].id in posts && posts[rows[i].id] == rows[i]
            && rows[i].userId == userId && rows[i].parent.Some? == replies)
      && NoDup(rows)
      && Feed.NewestFirst(rows, CreatedAt)
      && (page.take.Some? ==> |rows| <= Abs(page.take.value))
      && (page.skip == 0 && page.take.Some? && page.take.value >= 0 ==>
            forall q :: (q in posts && posts[q].userId == userId && posts[q].parent.Some? == replies
              && posts[q] !in rows) ==>
              forall i :: 0 <= i < |rows| ==> posts[q].createdAt <= rows[i].createdAt)
  {
    var where := ByAuthor(userId, replies);
    var m := Matching(posts, n, where);
    var rows := ListingRows(posts, n, userId, replies, page);
    MatchingFacts(posts, n, where);
    PaginateFacts(m, page);
    if page.skip == 0 && page.take.Some? && page.take.value >= 0 {
      forall q | q in posts && posts[q].userId == userId && posts[q].parent.Some? == replies && posts[q] !in rows
        ensures forall i :: 0 <= i < |rows| ==> posts[q].createdAt <= rows[i].createdAt
      {
        FirstPageOfMatching(posts, n, where, page.take.value, q);
      }
    }
  }

  /** Every entry of a listing shows its row with the row's parent and a
      reply preview, on top of the row facts above. */
  lemma UserListingFacts(posts: map<int, Post>, n: int, userId: int, replies: bool, page: Page)
    requires KeysMatch(posts)
    requires forall q :: q in posts ==> 0 <= q < n
    ensures var r := UserListing(posts, n, userId, replies, page);
      && |r| == |ListingRows(posts, n, userId, replies, page)|
      && (forall i :: 0 <= i < |r| ==>
            && r[i].post == ListingRows(posts, n, userId, replies, page)[i]
            && r[i].parent == ParentOf(posts, r[i].post)
            && IsReplyPreview(r[i].replies, posts, r[i].post.id))
  {
    var r := UserListing(posts, n, userId, replies, page);
    forall i | 0 <= i < |r| ensures IsReplyPreview(r[i].replies, posts, r[i].post.id) {
      RepliesOfIsPreview(posts, n, r[i].post.id);
    }
  }

  // ---- Like rows -----------------------------------------------------------

  /** `like.count({ where: { post_id } })`. */
  function LikesOf(likes: seq<LikeRow>, postId: int): nat
  {
    if likes == [] then 0
    else LikesOf(likes[..|likes| - 1], postId) + (if likes[|likes| - 1].postId == postId then 1 else 0)
  }

  /** `like.deleteMany({ where: { post_id } })`. */
  function DropPost(likes: seq<LikeRow>, postId: int): seq<LikeRow>
  {
    if likes == [] then []
    else DropPost(likes[..|likes| - 1], postId)
         + (if likes[|likes| - 1].postId == postId then [] else [likes[|likes| - 1]])
  }

  lemma LikesOfAppend(likes: seq<LikeRow>, row: LikeRow, postId: int)
    ensures LikesOf(likes + [row], postId) == LikesOf(likes, postId) + (if row.postId == postId then 1 else 0)
  {
    assert (likes + [row])[..|likes|] == likes;
  }

  lemma {:induction false} LikesOfNone(likes: seq<LikeRow>, postId: int)
    requires forall row :: row in likes ==> row.postId != postId
    ensures LikesOf(likes, postId) == 0
  {
    if likes != [] {
      assert likes[|likes| - 1] in likes;
      LikesOfNone(likes[..|likes| - 1], postId);
    }
  }

  /** Deleting every copy of one row lowers that post's count by the copies. */
  lemma {:induction false} LikesOfRemoveAll(likes: seq<LikeRow>, row: LikeRow, postId: int)
    ensures LikesOf(RemoveAll(likes, row), postId)
         == LikesOf(likes, postId) - (if row.postId == postId then Count(likes, row) else 0)
  {
    if likes != [] {
      var init := likes[..|likes| - 1];
      var last := likes[|likes| - 1];
      LikesOfRemoveAll(init, row, postId);
      assert RemoveAll(likes, row) == RemoveAll(init, row) + (if last == row then [] else [last]);
      assert Count(likes, row) == Count(init, row) + (if last == row then 1 else 0);
      assert LikesOf(likes, postId) == LikesOf(init, postId) + (if last.postId == postId then 1 else 0);
      if last != row {
        LikesOfAppend(RemoveAll(init, row), last, postId);
      } else {
        assert RemoveAll(likes, row) == RemoveAll(init, row);
      }
    }
  }

  /** What `deleteMany` leaves: the other posts' rows, and only those. */
  lemma {:induction false} DropPostMembers(likes: seq<LikeRow>, postId: int)
    ensures forall row :: row in DropPost(likes, postId) <==> row in likes && row.postId != postId
  {
    if likes != [] {
      var init := likes[..|likes| - 1];
      var last := likes[|likes| - 1];
      DropPostMembers(init, postId);
      assert likes == init + [last];
    }
  }

  lemma {:induction false} DropPostCounts(likes: seq<LikeRow>, postId: int, other: int)
    ensures LikesOf(DropPost(likes, postId), other) == if other == postId then 0 else LikesOf(likes, other)
  {
    if likes != [] {
      var init := likes[..|likes| - 1];
      var last := likes[|likes| - 1];
      DropPostCounts(init, postId, other);
      assert DropPost(likes, postId) == DropPost(init, postId) + (if last.postId == postId then [] else [last]);
      assert LikesOf(likes, other) == LikesOf(init, other) + (if last.postId == other then 1 else 0);
      if last.postId != postId {
        LikesOfAppend(DropPost(init, postId), last, other);
      } else {
        assert DropPost(likes, postId) == DropPost(init, postId);
      }
    }
  }

  lemma {:induction false} DropPostKeepsNoDup(likes: seq<LikeRow>, postId: int)
    requires NoDup(likes)
    ensures NoDup(DropPost(likes, postId))
  {
    if likes != [] {
      var init := likes[..|likes| - 1];
      var last := likes[|likes| - 1];
      assert NoDup(init);
      DropPostKeepsNoDup(init, postId);
      DropPostMembers(init, postId);
      assert last !in init;
      assert last !in DropPost(init, postId);
      assert DropPost(likes, postId) == DropPost(init, postId) + (if last.postId == postId then [] else [last]);
    }
  }

  // ---- Reply counts --------------------------------------------------------

  /** The ids of the stored replies to post `id`. */
  ghost function RepliesTo(posts: map<int, Post>, id: int): set<int>
  {
    set q | q in posts && posts[q].parent == Some(id)
  }

  /** How far a post's `reply_count` exceeds the number of its stored replies. */
  ghost function Surplus(posts: map<int, Post>, id: int): int
    requires id in posts
  {
    posts[id].replyCount - |RepliesTo(posts, id)|
  }

  /** Every stored post's `reply_count` is the number of its stored replies. */
  ghost predicate ReplyCountsExact(posts: map<int, Post>)
  {
    forall id :: id in posts ==> Surplus(posts, id) == 0
  }

  /** No stored post's `reply_count` is below the number of its stored replies. */
  ghost predicate ReplyCountsCover(posts: map<int, Post>)
  {
    forall id :: id in posts ==> Surplus(posts, id) >= 0
  }

  /** `b` keeps every surplus of `a`, and its new rows have none. */
  ghost predicate SurplusKept(a: map<int, Post>, b: map<int, Post>)
  {
    forall id :: id in b ==> if id in a then Surplus(b, id) == Surplus(a, id) else Surplus(b, id) == 0
  }

  lemma SurplusKeptKeeps(a: map<int, Post>, b: map<int, Post>)
    requires SurplusKept(a, b)
    ensures ReplyCountsExact(a) ==> ReplyCountsExact(b)
    ensures ReplyCountsCover(a) ==> ReplyCountsCover(b)
  {
  }

  /** Changing counters, never parents, changes nobody's replies. */
  lemma RepliesToSameParents(a: map<int, Post>, b: map<int, Post>, id: int)
    requires a.Keys == b.Keys
    requires forall q :: q in a ==> a[q].parent == b[q].parent
    ensures RepliesTo(a, id) == RepliesTo(b, id)
  {
    forall q ensures q in RepliesTo(a, id) <==> q in RepliesTo(b, id) {
      if q in a {
        assert a[q].parent == b[q].parent;
      }
    }
  }

  lemma RepliesToInsert(posts: map<int, Post>, k: int, p: Post, id: int)
    requires k !in posts
    ensures RepliesTo(posts[k := p], id) == RepliesTo(posts, id) + (if p.parent == Some(id) then {k} else {})
  {
  }

  lemma RepliesToDelete(posts: map<int, Post>, k: int, id: int)
    ensures RepliesTo(posts - {k}, id) == RepliesTo(posts, id) - {k}
  {
  }

  lemma NoRepliesTo(posts: map<int, Post>, k: int)
    requires forall q :: q in posts ==> posts[q].parent != Some(k)
    ensures RepliesTo(posts, k) == {}
  {
    forall q ensures q !in RepliesTo(posts, k) {
      if q in posts {
        assert posts[q].parent != Some(k);
      }
    }
  }

  /** Rewriting a row's like counter changes no reply surplus. */
  lemma CountersKeepSurplus(posts: map<int, Post>, id: int, p: Post)
    requires id in posts
    requires p.parent == posts[id].parent && p.replyCount == posts[id].replyCount
    ensures SurplusKept(posts, posts[id := p])
  {
    var r := posts[id := p];
    forall x | x in r ensures Surplus(r, x) == Surplus(posts, x) {
      RepliesToSameParents(posts, r, x);
    }
  }

  /** A new top-level row with no replies, under an id no row points to,
      changes no surplus and has none. */
  lemma CreateKeepsSurplus(posts: map<int, Post>, k: int, p: Post)
    requires k !in posts
    requires forall q :: q in posts ==> posts[q].parent != Some(k)
    requires p.parent == None && p.replyCount == 0
    ensures SurplusKept(posts, posts[k := p])
  {
    var r := posts[k := p];
    forall x | x in r ensures if x in posts then Surplus(r, x) == Surplus(posts, x) else Surplus(r, x) == 0 {
      RepliesToInsert(posts, k, p, x);
      if x == k {
        NoRepliesTo(posts, k);
      }
    }
  }

  /** A new reply that its parent counts changes no surplus and has none. */
  lemma ReplyKeepsSurplus(posts: map<int, Post>, k: int, p: Post, parentId: int)
    requires k !in posts && parentId in posts
    requires forall q :: q in posts ==> posts[q].parent != Some(k)
    requires p.parent == Some(parentId) && p.replyCount == 0
    ensures var parent := posts[parentId];
      SurplusKept(posts, posts[k := p][parentId := parent.(replyCount := parent.replyCount + 1)])
  {
    var parent := posts[parentId];
    var mid := posts[k := p];
    var r := mid[parentId := parent.(replyCount := parent.replyCount + 1)];
    forall x | x in r ensures if x in posts then Surplus(r, x) == Surplus(posts, x) else Surplus(r, x) == 0 {
      RepliesToInsert(posts, k, p, x);
      RepliesToSameParents(mid, r, x);
      if x == k {
        NoRepliesTo(posts, k);
      }
    }
  }

  /** `post.update({ data: { reply_count: { decrement: 1 } }, where: { id } })`;
      a row that is already gone is not updated. */
  function DecrementReplies(posts: map<int, Post>, id: int): (r: map<int, Post>)
    ensures r.Keys == posts.Keys
    ensures id in posts ==> r[id] == posts[id].(replyCount := posts[id].replyCount - 1)
    ensures forall q :: q in posts && q != id ==> r[q] == posts[q]
  {
    if id in posts then posts[id := posts[id].(replyCount := posts[id].replyCount - 1)] else posts
  }

  /** The post table after `remove` as written: the row goes, and the
      decrement is addressed to the removed row's own id. */
  function RemoveAsWritten(posts: map<int, Post>, id: int): map<int, Post>
  {
    DecrementReplies(posts - {id}, id)
  }

  /** As written, removing a row changes no other row: a reply's parent keeps
      its `reply_count`, which now counts one reply too many. */
  lemma RemoveAsWrittenKeepsParent(posts: map<int, Post>, id: int)
    requires id in posts
    ensures RemoveAsWritten(posts, id) == posts - {id}
    ensures forall x :: x in RemoveAsWritten(posts, id) ==>
      Surplus(RemoveAsWritten(posts, id), x) == Surplus(posts, x) + (if posts[id].parent == Some(x) then 1 else 0)
  {
    var r := RemoveAsWritten(posts, id);
    forall x | x in r ensures Surplus(r, x) == Surplus(posts, x) + (if posts[id].parent == Some(x) then 1 else 0) {
      RepliesToDelete(posts, id, x);
      if posts[id].parent == Some(x) {
        assert id in RepliesTo(posts, x);
      } else {
        assert id !in RepliesTo(posts, x);
      }
    }
  }

  /** Removing a reply as written leaves its parent's count one too high:
      post 1 with its one reply 2, remove 2, and post 1 still counts a reply. */
  lemma RemoveAsWrittenLeavesStaleCount()
    ensures var before := map[1 := Post(1, "hello", 7, None, 1, 0, 0),
                              2 := Post(2, "hi", 7, Some(1), 0, 0, 1)];
      && ReplyCountsExact(before)
      && RemoveAsWritten(before, 2)[1].replyCount == 1
      && RepliesTo(RemoveAsWritten(before, 2), 1) == {}
      && !ReplyCountsExact(RemoveAsWritten(before, 2))
  {
    var before := map[1 := Post(1, "hello", 7, None, 1, 0, 0),
                      2 := Post(2, "hi", 7, Some(1), 0, 0, 1)];
    assert RepliesTo(before, 1) == {2} by {
      forall q | q in RepliesTo(before, 1) ensures q == 2 {
        assert q in before;
      }
    }
    assert RepliesTo(before, 2) == {};
    var after := RemoveAsWritten(before, 2);
    assert after == map[1 := Post(1, "hello", 7, None, 1, 0, 0)];
    assert RepliesTo(after, 1) == {};
  }

  /** The post table after `remove` as intended: the row goes, and a reply's
      parent (`post.post`) loses one from its `reply_count`. */
  function RemoveFromTable(posts: map<int, Post>, id: int): (r: map<int, Post>)
    requires id in posts
    ensures r.Keys == posts.Keys - {id}
  {
    var rest := posts - {id};
    match posts[id].parent
    case None => rest
    case Some(parentId) => DecrementReplies(rest, parentId)
  }

  /** The intended removal keeps every remaining post's surplus, so it keeps
      every `reply_count` exact. */
  lemma RemoveKeepsReplyCounts(posts: map<int, Post>, id: int)
    requires id in posts
    ensures SurplusKept(posts, RemoveFromTable(posts, id))
    ensures ReplyCountsExact(posts) ==> ReplyCountsExact(RemoveFromTable(posts, id))
  {
    var rest := posts - {id};
    var r := RemoveFromTable(posts, id);
    forall x | x in r ensures Surplus(r, x) == Surplus(posts, x) {
      RepliesToDelete(posts, id, x);
      RepliesToSameParents(r, rest, x);
      if posts[id].parent == Some(x) {
        assert id in RepliesTo(posts, x);
        assert r[x] == posts[x].(replyCount := posts[x].replyCount - 1);
      } else {
        assert id !in RepliesTo(posts, x);
        assert r[x] == posts[x];
      }
    }
    SurplusKeptKeeps(posts, r);
  }

  // ---- The like invariant ---------------------------------------------------

  /** Every like row names a stored post, no (user, post) row occurs twice,
      and each post's `like_count` is the number of its like rows. */
  ghost predicate LikesConsistent(posts: map<int, Post>, likes: seq<LikeRow>)
  {
    && (forall row :: row in likes ==> row.postId in posts)
    && NoDup(likes)
    && (forall id :: id in posts ==> posts[id].likeCount == LikesOf(likes, id))
  }

  /** A new row with `like_count` 0 under a fresh id keeps the like invariant. */
  lemma NewRowKeepsLikes(posts: map<int, Post>, likes: seq<LikeRow>, k: int, p: Post)
    requires LikesConsistent(posts, likes) && k !in posts && p.likeCount == 0
    ensures LikesConsistent(posts[k := p], likes)
  {
    LikesOfNone(likes, k);
  }

  /** Rewriting a row without touching its `like_count` keeps the like invariant. */
  lemma SameLikeCountKeepsLikes(posts: map<int, Post>, likes: seq<LikeRow>, id: int, p: Post)
    requires LikesConsistent(posts, likes) && id in posts && p.likeCount == posts[id].likeCount
    ensures LikesConsistent(posts[id := p], likes)
  {
  }

  /** `like`: one new row and one more like on its post keep the invariant. */
  lemma LikeKeepsLikes(posts: map<int, Post>, likes: seq<LikeRow>, row: LikeRow)
    requires LikesConsistent(posts, likes) && row.postId in posts && row !in likes
    ensures var id := row.postId;
      LikesConsistent(posts[id := posts[id].(likeCount := posts[id].likeCount + 1)], likes + [row])
  {
    forall other | other in posts
      ensures LikesOf(likes + [row], other) == LikesOf(likes, other) + (if other == row.postId then 1 else 0)
    {
      LikesOfAppend(likes, row, other);
    }
  }

  /** `unlike`: deleting the row and one like off its post keep the invariant,
      and exactly one row goes. */
  lemma UnlikeKeepsLikes(posts: map<int, Post>, likes: seq<LikeRow>, row: LikeRow)
    requires LikesConsistent(posts, likes) && row in likes
    ensures |RemoveAll(likes, row)| == |likes| - 1
    ensures var id := row.postId;
      LikesConsistent(posts[id := posts[id].(likeCount := posts[id].likeCount - 1)], RemoveAll(likes, row))
  {
    NoDupCountAtMostOne(likes, row);
    forall other | other in posts
      ensures LikesOf(RemoveAll(likes, row), other) == LikesOf(likes, other) - (if other == row.postId then 1 else 0)
    {
      LikesOfRemoveAll(likes, row, other);
    }
    RemoveAllShape(likes, row);
    RemoveAllKeepsNoDup(likes, row);
  }

  /** `remove`: the post goes with all its like rows, and the invariant holds. */
  lemma DropPostKeepsLikes(posts: map<int, Post>, likes: seq<LikeRow>, id: int, rest: map<int, Post>)
    requires LikesConsistent(posts, likes) && id in posts
    requires rest.Keys == posts.Keys - {id}
    requires forall q :: q in rest ==> rest[q].likeCount == posts[q].likeCount
    ensures LikesConsistent(rest, DropPost(likes, id))
  {
    forall other | other in rest ensures LikesOf(DropPost(likes, id), other) == LikesOf(likes, other) {
      DropPostCounts(likes, id, other);
    }
    DropPostKeepsNoDup(likes, id);
    DropPostMembers(likes, id);
  }

  /** The state invariant of the post service over its two tables and its
      id counter: ids are below the counter and rows sit under their own id;
      every like row names a stored post; no (user, post) row occurs twice;
      each post's `like_count` is the number of its like rows; and no
      `reply_count` is below the number of replies (`remove` can leave it
      above, see `RemoveAsWritten`). */
  ghost predicate ServiceTables(posts: map<int, Post>, likes: seq<LikeRow>, n: int)
  {
    PostTable(posts, n) && LikesConsistent(posts, likes)
  }

  /** The part of the invariant about the post table alone. */
  ghost predicate PostTable(posts: map<int, Post>, n: int)
  {
    && n >= 1
    && KeysMatch(posts)
    && (forall id :: id in posts ==> 1 <= id < n)
    && (forall id :: id in posts && posts[id].parent.Some? ==> posts[id].parent.value < n)
    && ReplyCountsCover(posts)
  }

  /** Rewriting one row's `like_count` keeps the post-table invariant, and
      exact reply counts stay exact. */
  lemma LikeCounterKeepsTable(posts: map<int, Post>, n: int, id: int, p: Post)
    requires PostTable(posts, n) && id in posts && p == posts[id].(likeCount := p.likeCount)
    ensures PostTable(posts[id := p], n)
    ensures ReplyCountsExact(posts) ==> ReplyCountsExact(posts[id := p])
  {
    CountersKeepSurplus(posts, id, p);
    SurplusKeptKeeps(posts, posts[id := p]);
  }

  /** `like`: the new row and the incremented counter keep the invariant,
      and exact reply counts stay exact. */
  lemma LikeKeepsTables(posts: map<int, Post>, likes: seq<LikeRow>, n: int, row: LikeRow)
    requires ServiceTables(posts, likes, n) && row.postId in posts && row !in likes
    ensures var id := row.postId;
      var after := posts[id := posts[id].(likeCount := posts[id].likeCount + 1)];
      && ServiceTables(after, likes + [row], n)
      && (ReplyCountsExact(posts) ==> ReplyCountsExact(after))
  {
    var id := row.postId;
    LikeKeepsLikes(posts, likes, row);
    LikeCounterKeepsTable(posts, n, id, posts[id].(likeCount := posts[id].likeCount + 1));
  }

  /** `unlike`: the deleted row and the decremented counter keep the
      invariant, and exact reply counts stay exact. */
  lemma UnlikeKeepsTables(posts: map<int, Post>, likes: seq<LikeRow>, n: int, row: LikeRow)
    requires ServiceTables(posts, likes, n) && row.postId in posts && row in likes
    ensures var id := row.postId;
      var after := posts[id := posts[id].(likeCount := posts[id].likeCount - 1)];
      && ServiceTables(after, RemoveAll(likes, row), n)
      && (ReplyCountsExact(posts) ==> ReplyCountsExact(after))
      && |RemoveAll(likes, row)| == |likes| - 1
  {
    var id := row.postId;
    UnlikeKeepsLikes(posts, likes, row);
    LikeCounterKeepsTable(posts, n, id, posts[id].(likeCount := posts[id].likeCount - 1));
  }

  /** `reply`: the new row under the next id and the parent's incremented
      `reply_count` keep the invariant, and exact reply counts stay exact. */
  lemma ReplyKeepsTables(posts: map<int, Post>, likes: seq<LikeRow>, n: int, p: Post, parentId: int)
    requires ServiceTables(posts, likes, n) && parentId in posts
    requires p.id == n && p.parent == Some(parentId) && p.replyCount == 0 && p.likeCount == 0
    ensures var parent := posts[parentId];
      var after := posts[n := p][parentId := parent.(replyCount := parent.replyCount + 1)];
      && n !in posts && parentId != n
      && ServiceTables(after, likes, n + 1)
      && (ReplyCountsExact(posts) ==> ReplyCountsExact(after))
  {
    var parent := posts[parentId];
    var after := posts[n := p][parentId := parent.(replyCount := parent.replyCount + 1)];
    assert n !in posts;
    NewRowKeepsLikes(posts, likes, n, p);
    ReplyKeepsSurplus(posts, n, p, parentId);
    SameLikeCountKeepsLikes(posts[n := p], likes, parentId, parent.(replyCount := parent.replyCount + 1));
    SurplusKeptKeeps(posts, after);
  }

  class PostService {
    var posts: map<int, Post>
    var likes: seq<LikeRow>
    /** The next autoincrement id. */
    var nextId: int

    /** The table invariant: ids are below the counter and rows sit under
        their own id; every like row names a stored post; no (user, post)
        row occurs twice; each post's `like_count` is the number of its
        like rows; and no `reply_count` is below the number of replies
        (`remove` can leave it above, see `RemoveAsWritten`). */
    ghost predicate Valid()
      reads this
    {
      ServiceTables(posts, likes, nextId)
    }

    constructor ()
      ensures Valid() && posts == map[] && likes == [] && nextId == 1
    {
      posts := map[];
      likes := [];
      nextId := 1;
    }

    /** `create`: a new top-level post with no replies and no likes. */
    method Create(req: Request, now: int) returns (r: Result<Post, Failure>)
      requires Valid()
      modifies this
      ensures Valid()
      ensures !PostValidation.CreatePost(req) ==> r == Err(Invalid) && unchanged(this)
      ensures PostValidation.CreatePost(req) ==>
        && r == Ok(Post(old(nextId), req["text"].s, req["user_id"].n, None, 0, 0, now))
        && old(nextId) !in old(posts)
        && posts == old(posts)[old(nextId) := r.value]
        && likes == old(likes) && nextId == old(nextId) + 1
      ensures ReplyCountsExact(old(posts)) ==> ReplyCountsExact(posts)
    {
      if !PostValidation.CreatePost(req) {
        return Err(Invalid);
      }
      var post := Post(nextId, req["text"].s, req["user_id"].n, None, 0, 0, now);
      NewRowKeepsLikes(posts, likes, nextId, post);
      CreateKeepsSurplus(posts, nextId, post);
      SurplusKeptKeeps(posts, posts[nextId := post]);
      posts := posts[nextId := post];
      nextId := nextId + 1;
      r := Ok(post);
    }

    /** `get`: a post with its parent and its ten newest replies. */
    method Get(v: Value) returns (r: Result<PostDetail, Failure>)
      requires Valid()
      ensures !PostValidation.GetPost(v) ==> r == Err(Invalid)
      ensures PostValidation.GetPost(v) && v.n !in posts ==> r == Err(PostNotFound)
      ensures PostValidation.GetPost(v) && v.n in posts ==>
        && r.Ok? && r.value.post == posts[v.n]
        && r.value.parent == ParentOf(posts, posts[v.n])
        && IsReplyPreview(r.value.replies, posts, v.n)
    {
      if !PostValidation.GetPost(v) {
        return Err(Invalid);
      }
      if v.n !in posts {
        return Err(PostNotFound);
      }
      RepliesOfIsPreview(posts, nextId, v.n);
      r := Ok(Detail(posts, nextId, posts[v.n]));
    }

    /** `reply`: a new post under an existing one; the parent's
        `reply_count` rises by one and nothing else changes. */
    method Reply(req: Request, now: int) returns (r: Result<Post, Failure>)
      requires Valid()
      modifies this
      ensures Valid()
      ensures !PostValidation.ReplyPost(req) ==> r == Err(Invalid) && unchanged(this)
      ensures PostValidation.ReplyPost(req) && req["post_id"].n !in old(posts) ==>
        r == Err(PostNotFound) && unchanged(this)
      ensures PostValidation.ReplyPost(req) && req["post_id"].n in old(posts) ==>
        var parentId := req["post_id"].n;
        var parent := old(posts)[parentId];
        && r == Ok(Post(old(nextId), req["text"].s, req["user_id"].n, Some(parentId), 0, 0, now))
        && old(nextId) !in old(posts) && parentId != old(nextId)
        && posts == old(posts)[old(nextId) := r.value][parentId := parent.(replyCount := parent.replyCount + 1)]
        && likes == old(likes) && nextId == old(nextId) + 1
      ensures ReplyCountsExact(old(posts)) ==> ReplyCountsExact(posts)
    {
      if !PostValidation.ReplyPost(req) {
        return Err(Invalid);
      }
      var parentId := req["post_id"].n;
      if parentId !in posts {
        return Err(PostNotFound);
      }
      var reply := Post(nextId, req["text"].s, req["user_id"].n, Some(parentId), 0, 0, now);
      ReplyKeepsTables(posts, likes, nextId, reply, parentId);
      posts := posts[nextId := reply];
      nextId := nextId + 1;
      var parent := posts[parentId];
      posts := posts[parentId := parent.(replyCount := parent.replyCount + 1)];
      r := Ok(reply);
    }

    /** `remove`: the owner deletes a post and all its like rows. For a reply
        the decrement is addressed to the removed row itself, so no other row
        changes and the parent's `reply_count` stays as it was. */
    method Remove(req: Request) returns (r: Result<Post, Failure>)
      requires Valid()
      modifies this
      ensures Valid()
      ensures !PostValidation.LikePost(req) ==> r == Err(Invalid) && unchanged(this)
      ensures PostValidation.LikePost(req) && req["post_id"].n !in old(posts) ==>
        r == Err(PostNotFound) && unchanged(this)
      ensures PostValidation.LikePost(req) && req["post_id"].n in old(posts)
              && req["user_id"].n != old(posts)[req["post_id"].n].userId ==>
        r == Err(Rejected(401, "Cannot delete post that are not yours")) && unchanged(this)
      ensures PostValidation.LikePost(req) && req["post_id"].n in old(posts)
              && req["user_id"].n == old(posts)[req["post_id"].n].userId ==>
        && r == Ok(old(posts)[req["post_id"].n])
        && posts == RemoveAsWritten(old(posts), req["post_id"].n)
        && posts == old(posts) - {req["post_id"].n}
        && likes == DropPost(old(likes), req["post_id"].n)
        && nextId == old(nextId)
    {
      if !PostValidation.LikePost(req) {
        return Err(Invalid);
      }
      var id := req["post_id"].n;
      if id !in posts {
        return Err(PostNotFound);
      }
      var post := posts[id];
      if req["user_id"].n != post.userId {
        return Err(Rejected(401, "Cannot delete post that are not yours"));
      }
      RemoveAsWrittenKeepsParent(posts, id);
      DropPostKeepsLikes(posts, likes, id, RemoveAsWritten(posts, id));
      likes := DropPost(likes, id);
      if ParentOf(posts, post).None? {
        posts := posts - {id};
      } else {
        // both calls of the `Promise.all`; the second targets the removed row's own id
        posts := posts - {id};
        posts := DecrementReplies(posts, id);
      }
      r := Ok(post);
    }

    /** `like`: one new (user, post) row and `like_count` up by one, unless
        the post is missing or the user already liked it. */
    method Like(req: Request) returns (r: Result<Post, Failure>)
      requires Valid()
      modifies this
      ensures Valid()
      ensures !PostValidation.LikePost(req) ==> r == Err(Invalid) && unchanged(this)
      ensures PostValidation.LikePost(req) && req["post_id"].n !in old(posts) ==>
        r == Err(PostNotFound) && unchanged(this)
      ensures PostValidation.LikePost(req) && req["post_id"].n in old(posts)
              && LikeRow(req["user_id"].n, req["post_id"].n) in old(likes) ==>
        r == Err(Rejected(400, "Already liked the post")) && unchanged(this)
      ensures PostValidation.LikePost(req) && req["post_id"].n in old(posts)
              && LikeRow(req["user_id"].n, req["post_id"].n) !in old(likes) ==>
        var id := req["post_id"].n;
        && likes == old(likes) + [LikeRow(req["user_id"].n, id)]
        && posts == old(posts)[id := old(posts)[id].(likeCount := old(posts)[id].likeCount + 1)]
        && r == Ok(posts[id])
        && nextId == old(nextId)
      ensures ReplyCountsExact(old(posts)) ==> ReplyCountsExact(posts)
    {
      if !PostValidation.LikePost(req) {
        return Err(Invalid);
      }
      var id := req["post_id"].n;
      if id !in posts {
        return Err(PostNotFound);
      }
      var row := LikeRow(req["user_id"].n, id);
      NoDupCountAtMostOne(likes, row);
      if Count(likes, row) == 1 {
        return Err(Rejected(400, "Already liked the post"));
      }
      CountPositiveIffIn(likes, row);
      LikeKeepsTables(posts, likes, nextId, row);
      likes := likes + [row];
      posts := posts[id := posts[id].(likeCount := posts[id].likeCount + 1)];
      r := Ok(posts[id]);
    }

    /** `unlike`: the (user, post) row goes and `like_count` drops by one,
        unless the post is missing or the user has not liked it. */
    method Unlike(req: Request) returns (r: Result<Post, Failure>)
      requires Valid()
      modifies this
      ensures Valid()
      ensures !PostValidation.LikePost(req) ==> r == Err(Invalid) && unchanged(this)
      ensures PostValidation.LikePost(req) && req["post_id"].n !in old(posts) ==>
        r == Err(PostNotFound) && unchanged(this)
      ensures PostValidation.LikePost(req) && req["post_id"].n in old(posts)
              && LikeRow(req["user_id"].n, req["post_id"].n) !in old(likes) ==>
        r == Err(Rejected(400, "Like is not found")) && unchanged(this)
      ensures PostValidation.LikePost(req) && req["post_id"].n in old(posts)
              && LikeRow(req["user_id"].n, req["post_id"].n) in old(likes) ==>
        var id := req["post_id"].n;
        && likes == RemoveAll(old(likes), LikeRow(req["user_id"].n, id))
        && |likes| == |old(likes)| - 1
        && posts == old(posts)[id := old(posts)[id].(likeCount := old(posts)[id].likeCount - 1)]
        && r == Ok(posts[id])
        && nextId == old(nextId)
      ensures ReplyCountsExact(old(posts)) ==> ReplyCountsExact(posts)
    {
      if !PostValidation.LikePost(req) {
        return Err(Invalid);
      }
      var id := req["post_id"].n;
      if id !in posts {
        return Err(PostNotFound);
      }
      var row := LikeRow(req["user_id"].n, id);
      CountPositiveIffIn(likes, row);
      if Count(likes, row) < 1 {
        return Err(Rejected(400, "Like is not found"));
      }
      UnlikeKeepsTables(posts, likes, nextId, row);
      likes := RemoveAll(likes, row);
      posts := posts[id := posts[id].(likeCount := posts[id].likeCount - 1)];
      r := Ok(posts[id]);
    }

    /** `getAllByUserId`: a page of the user's top-level posts. */
    method GetAllByUserId(req: Request) returns (r: Result<seq<PostDetail>, Failure>)
      requires Valid()
      ensures !PostValidation.GetAllPost(req) ==> r == Err(Invalid)
      ensures PostValidation.GetAllPost(req) && PageOf(req).Err? ==> r == Err(PageOf(req).error)
      ensures PostValidation.GetAllPost(req) && PageOf(req).Ok? ==>
        r == Ok(UserListing(posts, nextId, req["user_id"].n, false, PageOf(req).value))
    {
      if !PostValidation.GetAllPost(req) {
        return Err(Invalid);
      }
      var page := PageOf(req);
      if page.Err? {
        return Err(page.error);
      }
      r := Ok(UserListing(posts, nextId, req["user_id"].n, false, page.value));
    }

    /** `getAllReplyByUserId`: a page of the user's replies. */
    method GetAllReplyByUserId(req: Request) returns (r: Result<seq<PostDetail>, Failure>)
      requires Valid()
      ensures !PostValidation.GetAllPost(req) ==> r == Err(Invalid)
      ensures PostValidation.GetAllPost(req) && PageOf(req).Err? ==> r == Err(PageOf(req).error)
      ensures PostValidation.GetAllPost(req) && PageOf(req).Ok? ==>
        r == Ok(UserListing(posts, nextId, req["user_id"].n, true, PageOf(req).value))
    {
      if !PostValidation.GetAllPost(req) {
        return Err(Invalid);
      }
      var page := PageOf(req);
      if page.Err? {
        return Err(page.error);
      }
      r := Ok(UserListing(posts, nextId, req["user_id"].n, true, page.value));
    }
  }
}
