/** The Mongoose post service (services/post.js): posts with a soft-delete
    flag, one `Like` ledger per post, and the ordered list of a post's
    comment ids. Every write reads the post first, throws on a missing,
    deleted or foreign record, and otherwise updates the tables. */
module MongoPosts {
  import opened Wrappers
  import opened Seqs
  import opened Ledgers
  import opened MongoStore
  import Feed

  const NoPost := "Post does not exist or may already been deleted."
  const NotOwnerToUpdate := "Post can only be updated by the owner."
  const NotOwnerToDelete := "Post can only be deleted by the owner."
  const AlreadyLiked := "You have already liked this post."
  const NotLikedYet := "You have not liked this post yet."
  /** The `TypeError` of `file.filename` when no file was uploaded. */
  const NoUpload := "Cannot read properties of undefined (reading 'filename')"
  /** The `TypeError` of `likes.users` on a post whose ledger was never linked. */
  const NoLedger := "Cannot read properties of null (reading 'users')"

  /** The URL stored in the `File` record of an upload. */
  function UploadUrl(name: string): string
  {
    "http://localhost:3099/uploads/" + name
  }

  /** `AddPost`: the post is created first; building the `File` record then
      reads `file.filename`, so without an upload the call throws after the
      post exists, and the post keeps no ledger. With an upload the post gets
      a new empty ledger and the file's URL. */
  method AddPost(db: ContentStore, upload: Option<string>, description: string, userId: int, now: int)
    returns (r: Outcome<MPost>)
    requires db.Valid()
    modifies db
    ensures db.Valid()
    ensures var id := old(db.nextId);
      && db.nextId == id + 1
      && id !in old(db.posts) && id !in old(db.comments)
      && db.posts == old(db.posts)[id := MPost(id, userId, if upload.Some? then Some(UploadUrl(upload.value)) else None,
                                              description, [], false, now)]
      && db.comments == old(db.comments) && db.commentLikes == old(db.commentLikes)
      && (upload.None? ==> r == Thrown(RuntimeError, NoUpload) && db.likes == old(db.likes))
      && (upload.Some? ==> r == Done(db.posts[id]) && db.likes == old(db.likes)[id := Empty])
  {
    var id := db.nextId;
    var post := MPost(id, userId, None, description, [], false, now);
    if upload.None? {
      NewPostKeepsStore(db.posts, db.comments, db.likes, db.commentLikes, id, post, false);
      db.posts := db.posts[id := post];
      db.nextId := id + 1;
      return Thrown(RuntimeError, NoUpload);
    }
    // the `File` and `Like` records, then the post linked to both
    var linked := post.(file := Some(UploadUrl(upload.value)));
    NewPostKeepsStore(db.posts, db.comments, db.likes, db.commentLikes, id, linked, true);
    db.posts := db.posts[id := linked];
    db.likes := db.likes[id := Empty];
    db.nextId := id + 1;
    r := Done(linked);
  }

  /** `UpdatePost`: only a live post's owner may change its description. */
  method UpdatePost(db: ContentStore, postId: int, description: string, userId: int) returns (r: Outcome<MPost>)
    requires db.Valid()
    modifies db
    ensures db.Valid()
    ensures !LivePost(old(db.posts), postId) ==> r == Thrown(ErrorKey, NoPost) && unchanged(db)
    ensures LivePost(old(db.posts), postId) && old(db.posts[postId].userId) != userId ==>
      r == Thrown(ErrorKey, NotOwnerToUpdate) && unchanged(db)
    ensures LivePost(old(db.posts), postId) && old(db.posts[postId].userId) == userId ==>
      && db.posts == old(db.posts)[postId := old(db.posts[postId]).(description := description)]
      && r == Done(db.posts[postId])
      && db.comments == old(db.comments) && db.likes == old(db.likes)
      && db.commentLikes == old(db.commentLikes) && db.nextId == old(db.nextId)
  {
    if !LivePost(db.posts, postId) {
      return Thrown(ErrorKey, NoPost);
    }
    var post := db.posts[postId];
    if post.userId != userId {
      return Thrown(ErrorKey, NotOwnerToUpdate);
    }
    post := post.(description := description);
    PostRewriteKeepsLinks(db.posts, db.comments, db.nextId, postId, post);
    db.posts := db.posts[postId := post];
    r := Done(post);
  }

  /** `DeletePost`: only a live post's owner may flag it deleted; its ledger
      and its comments stay as they are. */
  method DeletePost(db: ContentStore, postId: int, userId: int) returns (r: Outcome<MPost>)
    requires db.Valid()
    modifies db
    ensures db.Valid()
    ensures !LivePost(old(db.posts), postId) ==> r == Thrown(ErrorKey, NoPost) && unchanged(db)
    ensures LivePost(old(db.posts), postId) && old(db.posts[postId].userId) != userId ==>
      r == Thrown(ErrorKey, NotOwnerToDelete) && unchanged(db)
    ensures LivePost(old(db.posts), postId) && old(db.posts[postId].userId) == userId ==>
      && db.posts == old(db.posts)[postId := old(db.posts[postId]).(isDeleted := true)]
      && r == Done(db.posts[postId])
      && db.comments == old(db.comments) && db.likes == old(db.likes)
      && db.commentLikes == old(db.commentLikes) && db.nextId == old(db.nextId)
  {
    if !LivePost(db.posts, postId) {
      return Thrown(ErrorKey, NoPost);
    }
    var post := db.posts[postId];
    if post.userId != userId {
      return Thrown(ErrorKey, NotOwnerToDelete);
    }
    post := post.(isDeleted := true);
    PostRewriteKeepsLinks(db.posts, db.comments, db.nextId, postId, post);
    db.posts := db.posts[postId := post];
    r := Done(post);
  }

  /** `AddLike`: a live post's ledger gains the user unless the user is
      already in it. */
  method AddLike(db: ContentStore, postId: int, userId: int) returns (r: Outcome<Ledger>)
    requires db.Valid()
    modifies db
    ensures db.Valid()
    ensures db.posts == old(db.posts) && db.comments == old(db.comments)
    ensures db.commentLikes == old(db.commentLikes) && db.nextId == old(db.nextId)
    ensures !LivePost(old(db.posts), postId) ==> r == Thrown(ErrorKey, NoPost) && unchanged(db)
    ensures LivePost(old(db.posts), postId) && postId !in old(db.likes) ==>
      r == Thrown(RuntimeError, NoLedger) && unchanged(db)
    ensures LivePost(old(db.posts), postId) && postId in old(db.likes) ==>
      && db.likes == old(db.likes)[postId := Apply(old(db.likes[postId]), Like(userId))]
      && (userId in old(db.likes[postId].users) ==> r == Thrown(MessageKey, AlreadyLiked) && unchanged(db))
      && (userId !in old(db.likes[postId].users) ==>
            r == Done(db.likes[postId]) && db.likes[postId] == Push(old(db.likes[postId]), userId))
  {
    if !LivePost(db.posts, postId) {
      return Thrown(ErrorKey, NoPost);
    }
    if postId !in db.likes {
      return Thrown(RuntimeError, NoLedger);
    }
    var ledger := db.likes[postId];
    if userId in ledger.users {
      return Thrown(MessageKey, AlreadyLiked);
    }
    ledger := Push(ledger, userId);
    db.likes := db.likes[postId := ledger];
    r := Done(ledger);
  }

  /** `RemoveLike`: a live post's ledger loses the user if the user is in it. */
  method RemoveLike(db: ContentStore, postId: int, userId: int) returns (r: Outcome<Ledger>)
    requires db.Valid()
    modifies db
    ensures db.Valid()
    ensures db.posts == old(db.posts) && db.comments == old(db.comments)
    ensures db.commentLikes == old(db.commentLikes) && db.nextId == old(db.nextId)
    ensures !LivePost(old(db.posts), postId) ==> r == Thrown(ErrorKey, NoPost) && unchanged(db)
    ensures LivePost(old(db.posts), postId) && postId !in old(db.likes) ==>
      r == Thrown(RuntimeError, NoLedger) && unchanged(db)
    ensures LivePost(old(db.posts), postId) && postId in old(db.likes) ==>
      && db.likes == old(db.likes)[postId := Apply(old(db.likes[postId]), Unlike(userId))]
      && (userId !in old(db.likes[postId].users) ==> r == Thrown(MessageKey, NotLikedYet) && unchanged(db))
      && (userId in old(db.likes[postId].users) ==>
            r == Done(db.likes[postId]) && db.likes[postId] == Pull(old(db.likes[postId]), userId))
  {
    if !LivePost(db.posts, postId) {
      return Thrown(ErrorKey, NoPost);
    }
    if postId !in db.likes {
      return Thrown(RuntimeError, NoLedger);
    }
    var ledger := db.likes[postId];
    if userId !in ledger.users {
      return Thrown(MessageKey, NotLikedYet);
    }
    ledger := Pull(ledger, userId);
    db.likes := db.likes[postId := ledger];
    r := Done(ledger);
  }

  /** `PushComment`: appends the id to the post's `comments`, whatever the
      post's flag; an unknown post matches nothing and the result is `null`. */
  method PushComment(db: ContentStore, postId: int, commentId: int) returns (r: Outcome<Option<MPost>>)
    modifies db
    ensures db.posts == WithComment(old(db.posts), postId, commentId)
    ensures postId in db.posts ==> db.posts[postId].comments == old(db.posts[postId].comments) + [commentId]
    ensures r == Done(if postId in db.posts then Some(db.posts[postId]) else None)
    ensures db.comments == old(db.comments) && db.likes == old(db.likes)
    ensures db.commentLikes == old(db.commentLikes) && db.nextId == old(db.nextId)
  {
    db.posts := WithComment(db.posts, postId, commentId);
    r := Done(if postId in db.posts then Some(db.posts[postId]) else None);
  }

  /** `PullComment`: removes every occurrence of the id from the post's
      `comments`, and nothing else. */
  method PullComment(db: ContentStore, postId: int, commentId: int) returns (r: Outcome<Option<MPost>>)
    modifies db
    ensures db.posts == WithoutComment(old(db.posts), postId, commentId)
    ensures postId in db.posts ==>
      && commentId !in db.posts[postId].comments
      && forall x :: x != commentId ==> (x in db.posts[postId].comments <==> x in old(db.posts[postId].comments))
    ensures r == Done(if postId in db.posts then Some(db.posts[postId]) else None)
    ensures db.comments == old(db.comments) && db.likes == old(db.likes)
    ensures db.commentLikes == old(db.commentLikes) && db.nextId == old(db.nextId)
  {
    if postId in db.posts {
      RemoveAllShape(db.posts[postId].comments, commentId);
      RemoveAllKeepsOthers(db.posts[postId].comments, commentId);
    }
    db.posts := WithoutComment(db.posts, postId, commentId);
    r := Done(if postId in db.posts then Some(db.posts[postId]) else None);
  }

  // ---- Queries ----------------------------------------------------------------

  /** A post as the queries return it: its ledger, if linked, and the first
      five of its comments. */
  datatype PostCard = PostCard(post: MPost, likes: Option<Ledger>, comments: seq<MComment>)

  function Card(p: MPost, likes: map<int, Ledger>, comments: map<int, MComment>): PostCard
  {
    PostCard(p, if p.id in likes then Some(likes[p.id]) else None, Populate(Preview(p.comments), comments))
  }

  /** What `GetPost` selects: live posts created no later than `before`. */
  function Shown(before: int): MPost -> bool
  {
    (p: MPost) => !p.isDeleted && p.createdAt <= before
  }

  /** `GetPost`: the selected posts newest first, `offset` skipped, at most
      `MongoLimit(numOfItems)` of them, each with its card. */
  function GetPost(posts: map<int, MPost>, likes: map<int, Ledger>, comments: map<int, MComment>, n: int,
                   offset: nat, numOfItems: int, before: int): seq<PostCard>
    requires forall k :: k in posts ==> posts[k].id == k
  {
    var ps := Feed.Listing(Feed.Rows(posts, n, PostKey), Shown(before), PostCreatedAt, offset, MongoLimit(numOfItems));
    seq(|ps|, i requires 0 <= i < |ps| => Card(ps[i], likes, comments))
  }

  /** `ViewPost`: the card of a live post. */
  function ViewPost(posts: map<int, MPost>, likes: map<int, Ledger>, comments: map<int, MComment>, id: int)
    : (r: Outcome<PostCard>)
    ensures r.Done? <==> LivePost(posts, id)
    ensures r.Thrown? ==> r == Thrown(ErrorKey, NoPost)
    ensures r.Done? ==> r.value.post == posts[id]
  {
    if LivePost(posts, id) then Done(Card(posts[id], likes, comments)) else Thrown(ErrorKey, NoPost)
  }

  /** A card shows at most five comments, each a live comment of that post;
      a post with at most five comments shows them all. */
  lemma CardFacts(posts: map<int, MPost>, likes: map<int, Ledger>, comments: map<int, MComment>, n: int, p: MPost)
    requires Linked(posts, comments, n) && p.id in posts && posts[p.id] == p
    ensures var card := Card(p, likes, comments);
      && |card.comments| <= PreviewSize
      && (forall c :: c in card.comments ==> c.id in comments && c.postId == Some(p.id) && !c.isDeleted)
      && (|p.comments| <= PreviewSize ==>
            forall x :: x in comments && comments[x].postId == Some(p.id) && !comments[x].isDeleted ==>
              comments[x] in card.comments)
  {
    var card := Card(p, likes, comments);
    forall c | c in card.comments ensures c.id in comments && c.postId == Some(p.id) && !c.isDeleted {
      assert c.id in Preview(p.comments);
      assert c.id in p.comments;
    }
  }

  /** What `GetPost` returns: selected posts from the table, each once, newest
      first, no more than `|numOfItems|` when that is not 0, with the cards
      of `CardFacts`. */
  lemma GetPostFacts(posts: map<int, MPost>, likes: map<int, Ledger>, comments: map<int, MComment>, n: int,
                     offset: nat, numOfItems: int, before: int)
    requires forall k :: k in posts ==> posts[k].id == k
    ensures var r := GetPost(posts, likes, comments, n, offset, numOfItems, before);
      && (forall i :: 0 <= i < |r| ==>
            && r[i].post.id in posts && posts[r[i].post.id] == r[i].post
            && !r[i].post.isDeleted && r[i].post.createdAt <= before
            && r[i] == Card(r[i].post, likes, comments))
      && (forall i, j :: 0 <= i < j < |r| ==> r[i].post.id != r[j].post.id && r[i].post.createdAt >= r[j].post.createdAt)
      && (numOfItems != 0 ==> |r| <= if numOfItems < 0 then -numOfItems else numOfItems)
  {
    var rows := Feed.Rows(posts, n, PostKey);
    var ps := Feed.Listing(rows, Shown(before), PostCreatedAt, offset, MongoLimit(numOfItems));
    Feed.ListingFacts(rows, Shown(before), PostCreatedAt, offset, MongoLimit(numOfItems));
    var r := GetPost(posts, likes, comments, n, offset, numOfItems, before);
    forall i | 0 <= i < |r|
      ensures r[i].post.id in posts && posts[r[i].post.id] == r[i].post
      ensures !r[i].post.isDeleted && r[i].post.createdAt <= before
    {
      assert r[i].post == ps[i] && ps[i] in ps;
    }
    forall i, j | 0 <= i < j < |r|
      ensures r[i].post.id != r[j].post.id && r[i].post.createdAt >= r[j].post.createdAt
    {
      assert r[i].post == ps[i] && r[j].post == ps[j];
      assert ps[i] in rows && ps[j] in rows;
    }
  }

  /** The first page holds the newest: a selected post left off it is no
      newer than every post shown, and then the page is full. */
  lemma FirstPageIsNewest(posts: map<int, MPost>, likes: map<int, Ledger>, comments: map<int, MComment>, n: int,
                          numOfItems: int, before: int, id: int)
    requires forall k :: k in posts ==> posts[k].id == k
    requires id in posts && 0 <= id < n && !posts[id].isDeleted && posts[id].createdAt <= before
    requires forall i :: 0 <= i < |GetPost(posts, likes, comments, n, 0, numOfItems, before)| ==>
      GetPost(posts, likes, comments, n, 0, numOfItems, before)[i].post.id != id
    ensures var r := GetPost(posts, likes, comments, n, 0, numOfItems, before);
      && numOfItems != 0
      && |r| == (if numOfItems < 0 then -numOfItems else numOfItems)
      && forall i :: 0 <= i < |r| ==> posts[id].createdAt <= r[i].post.createdAt
  {
    var rows := Feed.Rows(posts, n, PostKey);
    var ps := Feed.Listing(rows, Shown(before), PostCreatedAt, 0, MongoLimit(numOfItems));
    var r := GetPost(posts, likes, comments, n, 0, numOfItems, before);
    forall i | 0 <= i < |ps| ensures ps[i] != posts[id] {
      assert r[i].post == ps[i];
    }
    Feed.FirstListingIsNewest(rows, Shown(before), PostCreatedAt, MongoLimit(numOfItems), posts[id]);
    forall i | 0 <= i < |r| ensures posts[id].createdAt <= r[i].post.createdAt {
      assert r[i].post == ps[i];
    }
  }

  /** Viewing a post that `GetPost` lists gives the same card. */
  lemma ViewAgreesWithList(posts: map<int, MPost>, likes: map<int, Ledger>, comments: map<int, MComment>, n: int,
                           offset: nat, numOfItems: int, before: int, i: int)
    requires Linked(posts, comments, n)
    requires 0 <= i < |GetPost(posts, likes, comments, n, offset, numOfItems, before)|
    ensures var card := GetPost(posts, likes, comments, n, offset, numOfItems, before)[i];
      ViewPost(posts, likes, comments, card.post.id) == Done(card)
  {
    GetPostFacts(posts, likes, comments, n, offset, numOfItems, before);
  }
}
