/** The collections of the Mongoose half as in-memory tables (models/post.js,
    models/comment.js, models/like.js, models/commentLike.js), with one id
    counter standing for ObjectId generation and `createdAt` from an
    abstract clock. Comments and replies share the comment collection: a
    comment has a `postId`, a reply a `commentId`. A post's `Like` ledger and
    a comment's `CommentLike` ledger are looked up by the owner's id. */
module MongoStore {
  import opened Wrappers
  import opened Seqs
  import opened Ledgers
  import Feed

  /** The kind of object a service throws: one with an `error` key, one with
      a `message` key, or a JavaScript runtime error such as a `TypeError`.
      The services catch it and hand it back as their result. */
  datatype Key = ErrorKey | MessageKey | RuntimeError

  datatype Outcome<+T> = Done(value: T) | Thrown(key: Key, text: string)

  /** The routers answer with an error only when the result has an `error`
      key (api/v1/post.js:57); everything else goes out as a success. */
  predicate ReportedAsError<T>(o: Outcome<T>)
  {
    o.Thrown? && o.key == ErrorKey
  }

  /** A post: `file` is the linked upload's URL, `comments` the ordered ids
      of its comments. */
  datatype MPost = MPost(id: int, userId: int, file: Option<string>, description: string,
                         comments: seq<int>, isDeleted: bool, createdAt: int)

  /** A comment (with `postId`) or a reply (with `commentId`); `replies` are
      the ordered ids of its replies. */
  datatype MComment = MComment(id: int, userId: int, postId: Option<int>, commentId: Option<int>,
                               description: string, replies: seq<int>, isDeleted: bool, createdAt: int)

  /** The `limit: 5` of the nested `comments` and `replies` populations. */
  const PreviewSize := 5

  /** The child ids a populated record shows: the first five, in array order. */
  function Preview(ids: seq<int>): (r: seq<int>)
    ensures |r| <= PreviewSize && |r| <= |ids|
    ensures r == ids[..|r|]
    ensures |ids| <= PreviewSize ==> r == ids
  {
    Feed.Take(ids, PreviewSize)
  }

  /** `.limit(n)`: no limit for 0; a negative `n` is read as `|n|`. */
  function MongoLimit(n: int): (r: Option<nat>)
    ensures r.None? <==> n == 0
    ensures r.Some? ==> r.value == (if n < 0 then -n else n)
  {
    if n == 0 then None else Some(if n < 0 then -n else n)
  }

  /** The comment records a populated id list resolves to, in list order;
      an id with no record is dropped. */
  function Populate(ids: seq<int>, comments: map<int, MComment>): (r: seq<MComment>)
    ensures |r| <= |ids|
    ensures forall c :: c in r ==> c.id in ids && c.id in comments && comments[c.id] == c
    ensures forall k :: k in ids && k in comments && comments[k].id == k ==> comments[k] in r
  {
    if ids == [] then []
    else
      var last := ids[|ids| - 1];
      var init := Populate(ids[..|ids| - 1], comments);
      if last in comments && comments[last].id == last then init + [comments[last]] else init
  }

  /** `Populate` keeps the list order: the records of a concatenation are
      the records of its first part followed by those of its second, and a
      single id gives its record, or nothing when none is stored under it. */
  lemma {:induction false} PopulateConcat(a: seq<int>, b: seq<int>, comments: map<int, MComment>)
    ensures Populate(a + b, comments) == Populate(a, comments) + Populate(b, comments)
    ensures |b| == 1 ==>
      Populate(b, comments) == if b[0] in comments && comments[b[0]].id == b[0] then [comments[b[0]]] else []
  {
    if b != [] {
      var last := b[|b| - 1];
      assert (a + b)[..|a + b| - 1] == a + b[..|b| - 1];
      assert (a + b)[|a + b| - 1] == last;
      PopulateConcat(a, b[..|b| - 1], comments);
      if |b| == 1 {
        assert b[..0] == [];
      }
    } else {
      assert a + b == a;
    }
  }

  function PostKey(p: MPost): int
  {
    p.id
  }

  function CommentKey(c: MComment): int
  {
    c.id
  }

  function PostCreatedAt(p: MPost): int
  {
    p.createdAt
  }

  function CommentCreatedAt(c: MComment): int
  {
    c.createdAt
  }

  /** `findOne({ _id: id, isDeleted: false })` on posts finds a record. */
  predicate LivePost(posts: map<int, MPost>, id: int)
  {
    id in posts && !posts[id].isDeleted
  }

  /** `findOne({ _id: id, isDeleted: false })` on comments finds a record. */
  predicate LiveComment(comments: map<int, MComment>, id: int)
  {
    id in comments && !comments[id].isDeleted
  }

  // ---- The child-list updates ------------------------------------------------

  /** `$push: { comments: x }` on post `p`, when it exists. */
  function WithComment(posts: map<int, MPost>, p: int, x: int): (r: map<int, MPost>)
    ensures r.Keys == posts.Keys
    ensures forall q :: q in posts && q != p ==> r[q] == posts[q]
    ensures p in posts ==> r[p] == posts[p].(comments := posts[p].comments + [x])
  {
    if p in posts then posts[p := posts[p].(comments := posts[p].comments + [x])] else posts
  }

  /** `$pull: { comments: x }` on post `p`, when it exists. */
  function WithoutComment(posts: map<int, MPost>, p: int, x: int): (r: map<int, MPost>)
    ensures r.Keys == posts.Keys
    ensures forall q :: q in posts && q != p ==> r[q] == posts[q]
    ensures p in posts ==> r[p] == posts[p].(comments := RemoveAll(posts[p].comments, x))
  {
    if p in posts then posts[p := posts[p].(comments := RemoveAll(posts[p].comments, x))] else posts
  }

  /** `$push: { replies: x }` on comment `c`, when it exists. */
  function WithReply(comments: map<int, MComment>, c: int, x: int): (r: map<int, MComment>)
    ensures r.Keys == comments.Keys
    ensures forall q :: q in comments && q != c ==> r[q] == comments[q]
    ensures c in comments ==> r[c] == comments[c].(replies := comments[c].replies + [x])
  {
    if c in comments then comments[c := comments[c].(replies := comments[c].replies + [x])] else comments
  }

  /** `$pull: { replies: x }` on comment `c`, when it exists. */
  function WithoutReply(comments: map<int, MComment>, c: int, x: int): (r: map<int, MComment>)
    ensures r.Keys == comments.Keys
    ensures forall q :: q in comments && q != c ==> r[q] == comments[q]
    ensures c in comments ==> r[c] == comments[c].(replies := RemoveAll(comments[c].replies, x))
  {
    if c in comments then comments[c := comments[c].(replies := RemoveAll(comments[c].replies, x))] else comments
  }

  // ---- The store invariant, part by part -------------------------------------

  /** Records sit under their own ids, below the counter; posts and comments
      never share an id; a comment's post exists, and so does a reply's
      comment, which is older; nothing is both a comment and a reply. */
  ghost predicate TablesWellFormed(posts: map<int, MPost>, comments: map<int, MComment>, n: int)
  {
    && (forall id :: id in posts ==> posts[id].id == id && 1 <= id < n)
    && (forall id :: id in comments ==> comments[id].id == id && 1 <= id < n)
    && (forall id :: id in posts ==> id !in comments)
    && (forall id :: id in comments && comments[id].postId.Some? ==>
          comments[id].postId.value in posts && comments[id].commentId.None?)
    && (forall id :: id in comments && comments[id].commentId.Some? ==>
          comments[id].commentId.value in comments && comments[id].commentId.value < id)
  }

  /** A post's `comments` lists, once each, exactly its live comments. */
  ghost predicate PostChildren(posts: map<int, MPost>, comments: map<int, MComment>)
  {
    && (forall p :: p in posts ==> NoDup(posts[p].comments))
    && (forall p, x :: p in posts && x in posts[p].comments ==>
          x in comments && comments[x].postId == Some(p) && !comments[x].isDeleted)
    && (forall p, x :: p in posts && x in comments && comments[x].postId == Some(p) && !comments[x].isDeleted ==>
          x in posts[p].comments)
  }

  /** A comment's `replies` lists, once each, replies of that comment, and
      every live one of them. A reply deleted through the comment route stays
      listed: that route pulls from a post only. */
  ghost predicate CommentChildren(comments: map<int, MComment>)
  {
    && (forall c :: c in comments ==> NoDup(comments[c].replies))
    && (forall c, x :: c in comments && x in comments[c].replies ==>
          x in comments && comments[x].commentId == Some(c))
    && (forall c, x :: c in comments && x in comments && comments[x].commentId == Some(c) && !comments[x].isDeleted ==>
          x in comments[c].replies)
  }

  /** Ledgers belong to stored records, every comment has one, and each is
      consistent. */
  ghost predicate LedgersOk(likes: map<int, Ledger>, commentLikes: map<int, Ledger>,
                            posts: map<int, MPost>, comments: map<int, MComment>)
  {
    && likes.Keys <= posts.Keys
    && commentLikes.Keys == comments.Keys
    && (forall k :: k in likes ==> Consistent(likes[k]))
    && (forall k :: k in commentLikes ==> Consistent(commentLikes[k]))
  }

  /** All links of the two content tables. */
  ghost predicate Linked(posts: map<int, MPost>, comments: map<int, MComment>, n: int)
  {
    TablesWellFormed(posts, comments, n) && PostChildren(posts, comments) && CommentChildren(comments)
  }

  // ---- What each kind of write does to the links -----------------------------

  /** A new post, with no comments, under the next id. */
  lemma NewPostKeepsLinks(posts: map<int, MPost>, comments: map<int, MComment>, n: int, p: MPost)
    requires Linked(posts, comments, n) && n >= 1
    requires p.id == n && p.comments == []
    ensures Linked(posts[n := p], comments, n + 1)
  {
    forall x | x in comments && comments[x].postId.Some?
      ensures comments[x].postId.value != n
    {
    }
  }

  /** Rewriting a post without touching its id or its `comments`. */
  lemma PostRewriteKeepsLinks(posts: map<int, MPost>, comments: map<int, MComment>, n: int, id: int, p: MPost)
    requires Linked(posts, comments, n)
    requires id in posts && p.id == id && p.comments == posts[id].comments
    ensures Linked(posts[id := p], comments, n)
  {
  }

  /** Rewriting a comment's description. */
  lemma CommentRewriteKeepsLinks(posts: map<int, MPost>, comments: map<int, MComment>, n: int, id: int, c: MComment)
    requires Linked(posts, comments, n)
    requires id in comments && c == comments[id].(description := c.description)
    ensures Linked(posts, comments[id := c], n)
  {
    var cs := comments[id := c];
    SameParentsKeepTables(posts, comments, cs, n);
    SameLiveCommentsKeepPosts(posts, comments, cs);
    SameRepliesKeepChildren(comments, cs);
  }

  /** Rewriting comments without changing parents, flags or reply lists. */
  lemma SameRepliesKeepChildren(comments: map<int, MComment>, cs: map<int, MComment>)
    requires CommentChildren(comments) && cs.Keys == comments.Keys
    requires forall x :: x in cs ==>
      cs[x].commentId == comments[x].commentId && cs[x].isDeleted == comments[x].isDeleted && cs[x].replies == comments[x].replies
    ensures CommentChildren(cs)
  {
    forall q, x | q in cs && x in cs && cs[x].commentId == Some(q) && !cs[x].isDeleted
      ensures x in cs[q].replies
    {
      assert comments[x].commentId == Some(q) && !comments[x].isDeleted;
    }
  }

  /** A new comment of post `p` under the next id, pushed onto `p`'s list. */
  lemma NewCommentKeepsLinks(posts: map<int, MPost>, comments: map<int, MComment>, n: int, p: int, c: MComment)
    requires Linked(posts, comments, n) && n >= 1 && p in posts
    requires c == MComment(n, c.userId, Some(p), None, c.description, [], false, c.createdAt)
    ensures Linked(WithComment(posts, p, n), comments[n := c], n + 1)
  {
    assert n !in comments;
    NewCommentKeepsTables(posts, comments, n, p, c);
    NewCommentKeepsPosts(posts, comments, n, p, c);
    NewCommentKeepsReplies(comments, n, c);
  }

  /** The table shape after a new comment of `p`. */
  lemma NewCommentKeepsTables(posts: map<int, MPost>, comments: map<int, MComment>, n: int, p: int, c: MComment)
    requires TablesWellFormed(posts, comments, n) && n >= 1 && p in posts && n !in comments
    requires c == MComment(n, c.userId, Some(p), None, c.description, [], false, c.createdAt)
    ensures TablesWellFormed(WithComment(posts, p, n), comments[n := c], n + 1)
  {
  }

  /** Every comment's reply list after a new comment, which is no reply. */
  lemma NewCommentKeepsReplies(comments: map<int, MComment>, n: int, c: MComment)
    requires CommentChildren(comments) && n !in comments
    requires forall x :: x in comments ==> x < n && (comments[x].commentId.Some? ==> comments[x].commentId.value in comments)
    requires c.id == n && c.commentId.None? && c.replies == []
    ensures CommentChildren(comments[n := c])
  {
    var cs := comments[n := c];
    forall q, x | q in cs && x in cs && cs[x].commentId == Some(q) && !cs[x].isDeleted
      ensures x in cs[q].replies
    {
      assert x != n;
      assert q != n;
    }
  }

  /** Every post's comment list after a new comment of `p`. */
  lemma NewCommentKeepsPosts(posts: map<int, MPost>, comments: map<int, MComment>, n: int, p: int, c: MComment)
    requires PostChildren(posts, comments) && p in posts && n !in comments
    requires c == MComment(n, c.userId, Some(p), None, c.description, [], false, c.createdAt)
    ensures PostChildren(WithComment(posts, p, n), comments[n := c])
  {
    var ps := WithComment(posts, p, n);
    var cs := comments[n := c];
    assert n !in posts[p].comments;
    AppendKeepsNoDup(posts[p].comments, n);
    forall q, x | q in ps && x in ps[q].comments
      ensures x in cs && cs[x].postId == Some(q) && !cs[x].isDeleted
    {
      if q != p || x != n {
        assert x in posts[q].comments;
      }
    }
  }

  /** A new reply of comment `q` under the next id, pushed onto `q`'s list. */
  lemma NewReplyKeepsLinks(posts: map<int, MPost>, comments: map<int, MComment>, n: int, q: int, c: MComment)
    requires Linked(posts, comments, n) && n >= 1 && q in comments
    requires c == MComment(n, c.userId, None, Some(q), c.description, [], false, c.createdAt)
    ensures Linked(posts, WithReply(comments[n := c], q, n), n + 1)
  {
    assert n !in comments;
    NewReplyKeepsTables(posts, comments, n, q, c);
    NewReplyKeepsPosts(posts, comments, n, q, c);
    NewReplyKeepsReplies(posts, comments, n, q, c);
  }

  /** The table shape after a new reply. */
  lemma NewReplyKeepsTables(posts: map<int, MPost>, comments: map<int, MComment>, n: int, q: int, c: MComment)
    requires TablesWellFormed(posts, comments, n) && n >= 1 && q in comments && n !in comments
    requires c == MComment(n, c.userId, None, Some(q), c.description, [], false, c.createdAt)
    ensures TablesWellFormed(posts, WithReply(comments[n := c], q, n), n + 1)
  {
  }

  /** Every post's comment list after a new reply. */
  lemma NewReplyKeepsPosts(posts: map<int, MPost>, comments: map<int, MComment>, n: int, q: int, c: MComment)
    requires PostChildren(posts, comments) && q in comments && n !in comments
    requires c == MComment(n, c.userId, None, Some(q), c.description, [], false, c.createdAt)
    ensures PostChildren(posts, WithReply(comments[n := c], q, n))
  {
    var cs := WithReply(comments[n := c], q, n);
    forall p, x | p in posts && x in cs && cs[x].postId == Some(p) && !cs[x].isDeleted
      ensures x in posts[p].comments
    {
      assert comments[x].postId == Some(p) && !comments[x].isDeleted;
    }
  }

  /** Every comment's reply list after a new reply. */
  lemma NewReplyKeepsReplies(posts: map<int, MPost>, comments: map<int, MComment>, n: int, q: int, c: MComment)
    requires CommentChildren(comments) && q in comments && n !in comments
    requires forall x :: x in comments && comments[x].commentId.Some? ==> comments[x].commentId.value in comments
    requires c == MComment(n, c.userId, None, Some(q), c.description, [], false, c.createdAt)
    ensures CommentChildren(WithReply(comments[n := c], q, n))
  {
    var cs := WithReply(comments[n := c], q, n);
    assert n !in comments[q].replies;
    AppendKeepsNoDup(comments[q].replies, n);
    forall d, x | d in cs && x in cs[d].replies
      ensures x in cs && cs[x].commentId == Some(d)
    {
      if x != n {
        assert x in comments[d].replies;
      }
    }
    forall d, x | d in cs && x in cs && cs[x].commentId == Some(d) && !cs[x].isDeleted
      ensures x in cs[d].replies
    {
      if x != n {
        assert d != n;
        assert x in comments[d].replies;
      }
    }
  }

  /** The tables after a comment is flagged deleted. */
  function Flagged(comments: map<int, MComment>, id: int): map<int, MComment>
    requires id in comments
  {
    comments[id := comments[id].(isDeleted := true)]
  }

  /** The posts after a comment is pulled from its post, if it has one. */
  function PulledFromPost(posts: map<int, MPost>, c: MComment): map<int, MPost>
  {
    if c.postId.Some? then WithoutComment(posts, c.postId.value, c.id) else posts
  }

  /** Flagging a comment deleted and pulling it from its post, if it has one.
      A reply flagged this way keeps its place in its comment's list. */
  lemma DeleteCommentKeepsLinks(posts: map<int, MPost>, comments: map<int, MComment>, n: int, id: int)
    requires Linked(posts, comments, n) && id in comments
    ensures Linked(PulledFromPost(posts, comments[id]), Flagged(comments, id), n)
  {
    DeleteCommentKeepsPosts(posts, comments, n, id);
    DeleteCommentKeepsReplies(comments, n, id);
  }

  lemma DeleteCommentKeepsPosts(posts: map<int, MPost>, comments: map<int, MComment>, n: int, id: int)
    requires Linked(posts, comments, n) && id in comments
    ensures TablesWellFormed(PulledFromPost(posts, comments[id]), Flagged(comments, id), n)
    ensures PostChildren(PulledFromPost(posts, comments[id]), Flagged(comments, id))
  {
    DeleteCommentKeepsTables(posts, comments, n, id);
    DeleteCommentKeepsLists(posts, comments, id);
  }

  /** The table shape after a comment is flagged and pulled. */
  lemma DeleteCommentKeepsTables(posts: map<int, MPost>, comments: map<int, MComment>, n: int, id: int)
    requires TablesWellFormed(posts, comments, n) && id in comments
    ensures TablesWellFormed(PulledFromPost(posts, comments[id]), Flagged(comments, id), n)
  {
  }

  /** Every post's comment list after a comment is flagged and pulled. */
  lemma DeleteCommentKeepsLists(posts: map<int, MPost>, comments: map<int, MComment>, id: int)
    requires PostChildren(posts, comments) && id in comments && comments[id].id == id
    requires comments[id].postId.Some? ==> comments[id].postId.value in posts
    ensures PostChildren(PulledFromPost(posts, comments[id]), Flagged(comments, id))
  {
    var cs := Flagged(comments, id);
    var ps := PulledFromPost(posts, comments[id]);
    forall p | p in ps ensures NoDup(ps[p].comments) {
      if comments[id].postId == Some(p) {
        RemoveAllKeepsNoDup(posts[p].comments, id);
      }
    }
    forall p, x | p in ps && x in ps[p].comments
      ensures x in cs && cs[x].postId == Some(p) && !cs[x].isDeleted
    {
      if comments[id].postId == Some(p) {
        RemoveAllShape(posts[p].comments, id);
      }
      assert x in posts[p].comments;
    }
    forall p, x | p in ps && x in cs && cs[x].postId == Some(p) && !cs[x].isDeleted
      ensures x in ps[p].comments
    {
      assert x != id;
      assert x in posts[p].comments;
      if comments[id].postId == Some(p) {
        RemoveAllKeepsOthers(posts[p].comments, id);
      }
    }
  }

  lemma DeleteCommentKeepsReplies(comments: map<int, MComment>, n: int, id: int)
    requires CommentChildren(comments) && id in comments
    ensures CommentChildren(Flagged(comments, id))
  {
    var cs := Flagged(comments, id);
    forall q, x | q in cs && x in cs && cs[x].commentId == Some(q) && !cs[x].isDeleted
      ensures x in cs[q].replies
    {
      assert x != id;
      assert x in comments[q].replies;
    }
  }

  /** Flagging a reply deleted and pulling it from its comment's list. */
  lemma DeleteReplyKeepsLinks(posts: map<int, MPost>, comments: map<int, MComment>, n: int, id: int)
    requires Linked(posts, comments, n) && id in comments && comments[id].commentId.Some?
    ensures Linked(posts, WithoutReply(Flagged(comments, id), comments[id].commentId.value, id), n)
  {
    DeleteReplyKeepsPosts(posts, comments, n, id);
    DeleteReplyKeepsReplies(comments, n, id);
  }

  lemma DeleteReplyKeepsPosts(posts: map<int, MPost>, comments: map<int, MComment>, n: int, id: int)
    requires TablesWellFormed(posts, comments, n) && PostChildren(posts, comments)
    requires id in comments && comments[id].commentId.Some?
    ensures var cs := WithoutReply(Flagged(comments, id), comments[id].commentId.value, id);
      TablesWellFormed(posts, cs, n) && PostChildren(posts, cs)
  {
    var c := comments[id].commentId.value;
    var cs := WithoutReply(Flagged(comments, id), c, id);
    forall x | x in cs
      ensures cs[x].id == comments[x].id && cs[x].postId == comments[x].postId
      ensures cs[x].commentId == comments[x].commentId
      ensures cs[x].postId.Some? ==> cs[x].isDeleted == comments[x].isDeleted
    {
    }
    SameParentsKeepTables(posts, comments, cs, n);
    SameLiveCommentsKeepPosts(posts, comments, cs);
  }

  /** Rewriting records without changing which of them are live comments of
      which post keeps every post's comment list. */
  lemma SameLiveCommentsKeepPosts(posts: map<int, MPost>, comments: map<int, MComment>, cs: map<int, MComment>)
    requires PostChildren(posts, comments) && cs.Keys == comments.Keys
    requires forall x :: x in cs ==> cs[x].postId == comments[x].postId
    requires forall x :: x in cs && cs[x].postId.Some? ==> cs[x].isDeleted == comments[x].isDeleted
    ensures PostChildren(posts, cs)
  {
    forall p, x | p in posts && x in cs && cs[x].postId == Some(p) && !cs[x].isDeleted
      ensures x in posts[p].comments
    {
      assert comments[x].postId == Some(p) && !comments[x].isDeleted;
    }
  }

  /** Rewriting comments without changing ids or parents keeps the tables well formed. */
  lemma SameParentsKeepTables(posts: map<int, MPost>, comments: map<int, MComment>, cs: map<int, MComment>, n: int)
    requires TablesWellFormed(posts, comments, n)
    requires cs.Keys == comments.Keys
    requires forall x :: x in cs ==>
      cs[x].id == comments[x].id && cs[x].postId == comments[x].postId && cs[x].commentId == comments[x].commentId
    ensures TablesWellFormed(posts, cs, n)
  {
  }

  lemma DeleteReplyKeepsReplies(comments: map<int, MComment>, n: int, id: int)
    requires CommentChildren(comments) && id in comments && comments[id].commentId.Some?
    requires comments[id].commentId.value in comments && comments[id].commentId.value < id
    ensures CommentChildren(WithoutReply(Flagged(comments, id), comments[id].commentId.value, id))
  {
    var c := comments[id].commentId.value;
    DeleteReplyKeepsNoDup(comments, id, c);
    DeleteReplyKeepsParents(comments, id, c);
    DeleteReplyKeepsLive(comments, id, c);
  }

  /** The three parts of `CommentChildren` after a reply is flagged and pulled. */
  lemma DeleteReplyKeepsNoDup(comments: map<int, MComment>, id: int, c: int)
    requires id in comments && c in comments && forall d :: d in comments ==> NoDup(comments[d].replies)
    ensures var cs := WithoutReply(Flagged(comments, id), c, id);
      forall d :: d in cs ==> NoDup(cs[d].replies)
  {
    RemoveAllKeepsNoDup(comments[c].replies, id);
  }

  lemma DeleteReplyKeepsParents(comments: map<int, MComment>, id: int, c: int)
    requires id in comments && c in comments && c != id
    requires forall d, x :: d in comments && x in comments[d].replies ==> x in comments && comments[x].commentId == Some(d)
    ensures var cs := WithoutReply(Flagged(comments, id), c, id);
      forall d, x :: d in cs && x in cs[d].replies ==> x in cs && cs[x].commentId == Some(d)
  {
    var cs := WithoutReply(Flagged(comments, id), c, id);
    forall d, x | d in cs && x in cs[d].replies
      ensures x in cs && cs[x].commentId == Some(d)
    {
      if d == c {
        RemoveAllShape(comments[c].replies, id);
      }
      assert x in comments[d].replies;
    }
  }

  lemma DeleteReplyKeepsLive(comments: map<int, MComment>, id: int, c: int)
    requires id in comments && c in comments && c != id
    requires forall d, x :: d in comments && x in comments && comments[x].commentId == Some(d) && !comments[x].isDeleted ==>
      x in comments[d].replies
    ensures var cs := WithoutReply(Flagged(comments, id), c, id);
      forall d, x :: d in cs && x in cs && cs[x].commentId == Some(d) && !cs[x].isDeleted ==> x in cs[d].replies
  {
    var cs := WithoutReply(Flagged(comments, id), c, id);
    forall d, x | d in cs && x in cs && cs[x].commentId == Some(d) && !cs[x].isDeleted
      ensures x in cs[d].replies
    {
      assert x != id;
      assert x in comments[d].replies;
      if d == c {
        RemoveAllKeepsOthers(comments[c].replies, id);
      }
    }
  }

  // ---- The whole store --------------------------------------------------------

  /** The store invariant: a positive id counter, linked content tables and
      sound ledgers. */
  ghost predicate StoreOk(posts: map<int, MPost>, comments: map<int, MComment>,
                          likes: map<int, Ledger>, commentLikes: map<int, Ledger>, n: int)
  {
    n >= 1 && Linked(posts, comments, n) && LedgersOk(likes, commentLikes, posts, comments)
  }

  /** `AddPost`: a new post under the next id, with a new ledger or none. */
  lemma NewPostKeepsStore(posts: map<int, MPost>, comments: map<int, MComment>,
                          likes: map<int, Ledger>, commentLikes: map<int, Ledger>, n: int, p: MPost, ledger: bool)
    requires StoreOk(posts, comments, likes, commentLikes, n)
    requires p.id == n && p.comments == []
    ensures StoreOk(posts[n := p], comments, if ledger then likes[n := Empty] else likes, commentLikes, n + 1)
  {
    NewPostKeepsLinks(posts, comments, n, p);
  }

  /** `AddComment`: a new comment of post `p` with a new ledger, pushed onto `p`. */
  lemma NewCommentKeepsStore(posts: map<int, MPost>, comments: map<int, MComment>,
                             likes: map<int, Ledger>, commentLikes: map<int, Ledger>, n: int, p: int, c: MComment)
    requires StoreOk(posts, comments, likes, commentLikes, n) && p in posts
    requires c == MComment(n, c.userId, Some(p), None, c.description, [], false, c.createdAt)
    ensures n !in posts && n !in comments
    ensures StoreOk(WithComment(posts, p, n), comments[n := c], likes, commentLikes[n := Empty], n + 1)
  {
    NewCommentKeepsLinks(posts, comments, n, p, c);
  }

  /** `AddReply`: a new reply of record `q` with a new ledger, pushed onto `q`. */
  lemma NewReplyKeepsStore(posts: map<int, MPost>, comments: map<int, MComment>,
                           likes: map<int, Ledger>, commentLikes: map<int, Ledger>, n: int, q: int, c: MComment)
    requires StoreOk(posts, comments, likes, commentLikes, n) && q in comments
    requires c == MComment(n, c.userId, None, Some(q), c.description, [], false, c.createdAt)
    ensures n !in posts && n !in comments
    ensures StoreOk(posts, WithReply(comments[n := c], q, n), likes, commentLikes[n := Empty], n + 1)
  {
    NewReplyKeepsLinks(posts, comments, n, q, c);
  }

  class ContentStore {
    var posts: map<int, MPost>
    var comments: map<int, MComment>
    /** `Like` records, by post id. */
    var likes: map<int, Ledger>
    /** `CommentLike` records, by comment or reply id. */
    var commentLikes: map<int, Ledger>
    /** The next fresh id. */
    var nextId: int

    ghost predicate Valid()
      reads this
    {
      StoreOk(posts, comments, likes, commentLikes, nextId)
    }

    constructor ()
      ensures Valid()
      ensures posts == map[] && comments == map[] && likes == map[] && commentLikes == map[] && nextId == 1
    {
      posts := map[];
      comments := map[];
      likes := map[];
      commentLikes := map[];
      nextId := 1;
    }
  }
}
