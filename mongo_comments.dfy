/** The Mongoose comment service (services/comment.js): comments on posts,
    one `CommentLike` ledger per comment, and the ordered list of a comment's
    reply ids. Its errors are all thrown with a `message` key, which the
    routers answer as successes. */
module MongoComments {
  import opened Wrappers
  import opened Seqs
  import opened Ledgers
  import opened MongoStore
  import MongoPosts
  import Feed

  const NoPost := "Post does not exist or may already been deleted."
  const NoComment := "Comment does not exist or may already been deleted."
  const NotOwnerToUpdate := "Comment can only be updated by the owner."
  const NotOwnerToDelete := "Comment can only be deleted by the owner."
  const AlreadyLiked := "You have already liked this comment."
  const NotLikedYet := "You have not liked this comment yet."

  /** `AddComment`: a comment on a live post, with a new empty ledger, pushed
      onto the post's `comments`. */
  method AddComment(db: ContentStore, postId: int, description: string, userId: int, now: int)
    returns (r: Outcome<MComment>)
    requires db.Valid()
    modifies db
    ensures db.Valid()
    ensures !LivePost(old(db.posts), postId) ==> r == Thrown(MessageKey, NoPost) && unchanged(db)
    ensures LivePost(old(db.posts), postId) ==>
      var id := old(db.nextId);
      && db.nextId == id + 1
      && id !in old(db.posts) && id !in old(db.comments)
      && db.comments == old(db.comments)[id := MComment(id, userId, Some(postId), None, description, [], false, now)]
      && db.commentLikes == old(db.commentLikes)[id := Empty]
      && db.posts == WithComment(old(db.posts), postId, id)
      && db.posts[postId].comments == old(db.posts[postId].comments) + [id]
      && db.likes == old(db.likes)
      && r == Done(db.comments[id])
  {
    if !LivePost(db.posts, postId) {
      return Thrown(MessageKey, NoPost);
    }
    var id := db.nextId;
    var comment := MComment(id, userId, Some(postId), None, description, [], false, now);
    NewCommentKeepsStore(db.posts, db.comments, db.likes, db.commentLikes, id, postId, comment);
    db.comments := db.comments[id := comment];
    db.commentLikes := db.commentLikes[id := Empty];
    db.nextId := id + 1;
    var _ := MongoPosts.PushComment(db, postId, id);
    r := Done(comment);
  }

  /** `UpdateComment`: only a live comment's owner may change its description. */
  method UpdateComment(db: ContentStore, commentId: int, description: string, userId: int)
    returns (r: Outcome<MComment>)
    requires db.Valid()
    modifies db
    ensures db.Valid()
    ensures !LiveComment(old(db.comments), commentId) ==> r == Thrown(MessageKey, NoComment) && unchanged(db)
    ensures LiveComment(old(db.comments), commentId) && old(db.comments[commentId].userId) != userId ==>
      r == Thrown(MessageKey, NotOwnerToUpdate) && unchanged(db)
    ensures LiveComment(old(db.comments), commentId) && old(db.comments[commentId].userId) == userId ==>
      && db.comments == old(db.comments)[commentId := old(db.comments[commentId]).(description := description)]
      && r == Done(db.comments[commentId])
      && db.posts == old(db.posts) && db.likes == old(db.likes)
      && db.commentLikes == old(db.commentLikes) && db.nextId == old(db.nextId)
  {
    if !LiveComment(db.comments, commentId) {
      return Thrown(MessageKey, NoComment);
    }
    var comment := db.comments[commentId];
    if comment.userId != userId {
      return Thrown(MessageKey, NotOwnerToUpdate);
    }
    comment := comment.(description := description);
    CommentRewriteKeepsLinks(db.posts, db.comments, db.nextId, commentId, comment);
    db.comments := db.comments[commentId := comment];
    r := Done(comment);
  }

  /** `DeleteComment`: only a live comment's owner may flag it deleted; it is
      then pulled from its post. A reply has no post, so deleting one here
      leaves it in its comment's `replies`. */
  method DeleteComment(db: ContentStore, commentId: int, userId: int) returns (r: Outcome<MComment>)
    requires db.Valid()
    modifies db
    ensures db.Valid()
    ensures !LiveComment(old(db.comments), commentId) ==> r == Thrown(MessageKey, NoComment) && unchanged(db)
    ensures LiveComment(old(db.comments), commentId) && old(db.comments[commentId].userId) != userId ==>
      r == Thrown(MessageKey, NotOwnerToDelete) && unchanged(db)
    ensures LiveComment(old(db.comments), commentId) && old(db.comments[commentId].userId) == userId ==>
      && db.comments == Flagged(old(db.comments), commentId)
      && db.posts == PulledFromPost(old(db.posts), old(db.comments[commentId]))
      && (old(db.comments[commentId].postId.None?) ==> db.posts == old(db.posts))
      && r == Done(db.comments[commentId])
      && db.likes == old(db.likes) && db.commentLikes == old(db.commentLikes) && db.nextId == old(db.nextId)
  {
    if !LiveComment(db.comments, commentId) {
      return Thrown(MessageKey, NoComment);
    }
    var comment := db.comments[commentId];
    if comment.userId != userId {
      return Thrown(MessageKey, NotOwnerToDelete);
    }
    DeleteCommentKeepsLinks(db.posts, db.comments, db.nextId, commentId);
    db.comments := Flagged(db.comments, commentId);
    if comment.postId.Some? {
      var _ := MongoPosts.PullComment(db, comment.postId.value, commentId);
    }
    r := Done(db.comments[commentId]);
  }

  /** `AddCommentLike`: a live comment's ledger gains the user unless the
      user is already in it. */
  method AddCommentLike(db: ContentStore, commentId: int, userId: int) returns (r: Outcome<Ledger>)
    requires db.Valid()
    modifies db
    ensures db.Valid()
    ensures db.posts == old(db.posts) && db.comments == old(db.comments)
    ensures db.likes == old(db.likes) && db.nextId == old(db.nextId)
    ensures !LiveComment(old(db.comments), commentId) ==> r == Thrown(MessageKey, NoComment) && unchanged(db)
    ensures LiveComment(old(db.comments), commentId) ==>
      && commentId in old(db.commentLikes)
      && db.commentLikes == old(db.commentLikes)[commentId := Apply(old(db.commentLikes[commentId]), Like(userId))]
      && (userId in old(db.commentLikes[commentId].users) ==> r == Thrown(MessageKey, AlreadyLiked) && unchanged(db))
      && (userId !in old(db.commentLikes[commentId].users) ==>
            r == Done(db.commentLikes[commentId])
            && db.commentLikes[commentId] == Push(old(db.commentLikes[commentId]), userId))
  {
    if !LiveComment(db.comments, commentId) {
      return Thrown(MessageKey, NoComment);
    }
    var ledger := db.commentLikes[commentId];
    if userId in ledger.users {
      return Thrown(MessageKey, AlreadyLiked);
    }
    ledger := Push(ledger, userId);
    db.commentLikes := db.commentLikes[commentId := ledger];
    r := Done(ledger);
  }

  /** `RemoveCommentLike`: a live comment's ledger loses the user if the user
      is in it. */
  method RemoveCommentLike(db: ContentStore, commentId: int, userId: int) returns (r: Outcome<Ledger>)
    requires db.Valid()
    modifies db
    ensures db.Valid()
    ensures db.posts == old(db.posts) && db.comments == old(db.comments)
    ensures db.likes == old(db.likes) && db.nextId == old(db.nextId)
    ensures !LiveComment(old(db.comments), commentId) ==> r == Thrown(MessageKey, NoComment) && unchanged(db)
    ensures LiveComment(old(db.comments), commentId) ==>
      && commentId in old(db.commentLikes)
      && db.commentLikes == old(db.commentLikes)[commentId := Apply(old(db.commentLikes[commentId]), Unlike(userId))]
      && (userId !in old(db.commentLikes[commentId].users) ==> r == Thrown(MessageKey, NotLikedYet) && unchanged(db))
      && (userId in old(db.commentLikes[commentId].users) ==>
            r == Done(db.commentLikes[commentId])
            && db.commentLikes[commentId] == Pull(old(db.commentLikes[commentId]), userId))
  {
    if !LiveComment(db.comments, commentId) {
      return Thrown(MessageKey, NoComment);
    }
    var ledger := db.commentLikes[commentId];
    if userId !in ledger.users {
      return Thrown(MessageKey, NotLikedYet);
    }
    ledger := Pull(ledger, userId);
    db.commentLikes := db.commentLikes[commentId := ledger];
    r := Done(ledger);
  }

  /** `PushReply`: appends the id to the comment's `replies`, whatever the
      comment's flag; an unknown comment matches nothing. */
  method PushReply(db: ContentStore, commentId: int, replyId: int) returns (r: Outcome<Option<MComment>>)
    modifies db
    ensures db.comments == WithReply(old(db.comments), commentId, replyId)
    ensures commentId in db.comments ==>
      db.comments[commentId].replies == old(db.comments[commentId].replies) + [replyId]
    ensures r == Done(if commentId in db.comments then Some(db.comments[commentId]) else None)
    ensures db.posts == old(db.posts) && db.likes == old(db.likes)
    ensures db.commentLikes == old(db.commentLikes) && db.nextId == old(db.nextId)
  {
    db.comments := WithReply(db.comments, commentId, replyId);
    r := Done(if commentId in db.comments then Some(db.comments[commentId]) else None);
  }

  /** `PullReply`: removes every occurrence of the id from the comment's
      `replies`, and nothing else. */
  method PullReply(db: ContentStore, commentId: int, replyId: int) returns (r: Outcome<Option<MComment>>)
    modifies db
    ensures db.comments == WithoutReply(old(db.comments), commentId, replyId)
    ensures commentId in db.comments ==>
      && replyId !in db.comments[commentId].replies
      && forall x :: x != replyId ==> (x in db.comments[commentId].replies <==> x in old(db.comments[commentId].replies))
    ensures r == Done(if commentId in db.comments then Some(db.comments[commentId]) else None)
    ensures db.posts == old(db.posts) && db.likes == old(db.likes)
    ensures db.commentLikes == old(db.commentLikes) && db.nextId == old(db.nextId)
  {
    if commentId in db.comments {
      RemoveAllShape(db.comments[commentId].replies, replyId);
      RemoveAllKeepsOthers(db.comments[commentId].replies, replyId);
    }
    db.comments := WithoutReply(db.comments, commentId, replyId);
    r := Done(if commentId in db.comments then Some(db.comments[commentId]) else None);
  }

  // ---- Queries ----------------------------------------------------------------

  /** A comment as the queries return it: its ledger and the first five of
      its replies. */
  datatype CommentCard = CommentCard(comment: MComment, likes: Option<Ledger>, replies: seq<MComment>)

  function Card(c: MComment, commentLikes: map<int, Ledger>, comments: map<int, MComment>): CommentCard
  {
    CommentCard(c, if c.id in commentLikes then Some(commentLikes[c.id]) else None,
                Populate(Preview(c.replies), comments))
  }

  /** What `GetComment` selects: live comments of the post created no later
      than `before`. */
  function OfPost(postId: int, before: int): MComment -> bool
  {
    (c: MComment) => c.postId == Some(postId) && !c.isDeleted && c.createdAt <= before
  }

  /** `GetComment`: a live post's selected comments newest first, `offset`
      skipped, at most `MongoLimit(numOfItems)`, each with its card. */
  function GetComment(posts: map<int, MPost>, comments: map<int, MComment>, commentLikes: map<int, Ledger>, n: int,
                      postId: int, offset: nat, numOfItems: int, before: int): Outcome<seq<CommentCard>>
    requires forall k :: k in comments ==> comments[k].id == k
  {
    if !LivePost(posts, postId) then Thrown(MessageKey, NoPost)
    else
      var cs := Feed.Listing(Feed.Rows(comments, n, CommentKey), OfPost(postId, before), CommentCreatedAt,
                             offset, MongoLimit(numOfItems));
      Done(seq(|cs|, i requires 0 <= i < |cs| => Card(cs[i], commentLikes, comments)))
  }

  /** `ViewComment`: the card of any live record of the comment table. */
  function ViewComment(comments: map<int, MComment>, commentLikes: map<int, Ledger>, id: int)
    : (r: Outcome<CommentCard>)
    ensures r.Done? <==> LiveComment(comments, id)
    ensures r.Thrown? ==> r == Thrown(MessageKey, NoComment)
    ensures r.Done? ==> r.value.comment == comments[id]
  {
    if LiveComment(comments, id) then Done(Card(comments[id], commentLikes, comments)) else Thrown(MessageKey, NoComment)
  }

  /** A card shows at most five replies, each a reply of that comment; a
      comment with at most five listed replies shows every live one. */
  lemma CardFacts(posts: map<int, MPost>, comments: map<int, MComment>, commentLikes: map<int, Ledger>, n: int,
                  c: MComment)
    requires Linked(posts, comments, n) && c.id in comments && comments[c.id] == c
    ensures var card := Card(c, commentLikes, comments);
      && |card.replies| <= PreviewSize
      && (forall x :: x in card.replies ==> x.id in comments && x.commentId == Some(c.id))
      && (|c.replies| <= PreviewSize ==>
            forall x :: x in comments && comments[x].commentId == Some(c.id) && !comments[x].isDeleted ==>
              comments[x] in card.replies)
  {
    var card := Card(c, commentLikes, comments);
    forall x | x in card.replies ensures x.id in comments && x.commentId == Some(c.id) {
      assert x.id in Preview(c.replies);
      assert x.id in c.replies;
    }
  }

  /** What `GetComment` returns: an error for a missing or deleted post;
      otherwise that post's selected comments, each once, newest first, no
      more than `|numOfItems|` when that is not 0. */
  lemma GetCommentFacts(posts: map<int, MPost>, comments: map<int, MComment>, commentLikes: map<int, Ledger>, n: int,
                        postId: int, offset: nat, numOfItems: int, before: int)
    requires forall k :: k in comments ==> comments[k].id == k
    ensures var o := GetComment(posts, comments, commentLikes, n, postId, offset, numOfItems, before);
      && (o.Thrown? <==> !LivePost(posts, postId))
      && (o.Thrown? ==> o == Thrown(MessageKey, NoPost))
      && (o.Done? ==>
            var r := o.value;
            && (forall i :: 0 <= i < |r| ==>
                  && r[i].comment.id in comments && comments[r[i].comment.id] == r[i].comment
                  && r[i].comment.postId == Some(postId) && !r[i].comment.isDeleted && r[i].comment.createdAt <= before
                  && r[i] == Card(r[i].comment, commentLikes, comments))
            && (forall i, j :: 0 <= i < j < |r| ==>
                  r[i].comment.id != r[j].comment.id && r[i].comment.createdAt >= r[j].comment.createdAt)
            && (numOfItems != 0 ==> |r| <= if numOfItems < 0 then -numOfItems else numOfItems))
  {
    if LivePost(posts, postId) {
      var rows := Feed.Rows(comments, n, CommentKey);
      var cs := Feed.Listing(rows, OfPost(postId, before), CommentCreatedAt, offset, MongoLimit(numOfItems));
      Feed.ListingFacts(rows, OfPost(postId, before), CommentCreatedAt, offset, MongoLimit(numOfItems));
      var r := GetComment(posts, comments, commentLikes, n, postId, offset, numOfItems, before).value;
      forall i | 0 <= i < |r|
        ensures r[i].comment.id in comments && comments[r[i].comment.id] == r[i].comment
        ensures r[i].comment.postId == Some(postId) && !r[i].comment.isDeleted && r[i].comment.createdAt <= before
      {
        assert r[i].comment == cs[i] && cs[i] in cs;
      }
      forall i, j | 0 <= i < j < |r|
        ensures r[i].comment.id != r[j].comment.id && r[i].comment.createdAt >= r[j].comment.createdAt
      {
        assert r[i].comment == cs[i] && r[j].comment == cs[j];
        assert cs[i] in rows && cs[j] in rows;
      }
    }
  }

  /** A live post's first page of comments holds its newest: a selected
      comment left off it is no newer than every comment shown, and then the
      page is full. */
  lemma FirstPageIsNewest(posts: map<int, MPost>, comments: map<int, MComment>, commentLikes: map<int, Ledger>, n: int,
                          postId: int, numOfItems: int, before: int, id: int)
    requires forall k :: k in comments ==> comments[k].id == k
    requires LivePost(posts, postId)
    requires id in comments && 0 <= id < n && OfPost(postId, before)(comments[id])
    requires forall i :: 0 <= i < |GetComment(posts, comments, commentLikes, n, postId, 0, numOfItems, before).value| ==>
      GetComment(posts, comments, commentLikes, n, postId, 0, numOfItems, before).value[i].comment.id != id
    ensures var r := GetComment(posts, comments, commentLikes, n, postId, 0, numOfItems, before).value;
      && numOfItems != 0
      && |r| == (if numOfItems < 0 then -numOfItems else numOfItems)
      && forall i :: 0 <= i < |r| ==> comments[id].createdAt <= r[i].comment.createdAt
  {
    var rows := Feed.Rows(comments, n, CommentKey);
    var cs := Feed.Listing(rows, OfPost(postId, before), CommentCreatedAt, 0, MongoLimit(numOfItems));
    var r := GetComment(posts, comments, commentLikes, n, postId, 0, numOfItems, before).value;
    forall i | 0 <= i < |cs| ensures cs[i] != comments[id] {
      assert r[i].comment == cs[i];
    }
    Feed.FirstListingIsNewest(rows, OfPost(postId, before), CommentCreatedAt, MongoLimit(numOfItems), comments[id]);
    forall i | 0 <= i < |r| ensures comments[id].createdAt <= r[i].comment.createdAt {
      assert r[i].comment == cs[i];
    }
  }
}
