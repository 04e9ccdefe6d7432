/** The Mongoose reply service (services/reply.js). A reply is a record of
    the comment table with a `commentId`; its parent may itself be a reply.
    Its errors are thrown with an `error` key. */
module MongoReplies {
  import opened Wrappers
  import opened Seqs
  import opened Ledgers
  import opened MongoStore
  import MongoComments
  import Feed

  const NoComment := "Comment does not exist or may already been deleted."
  const NoReply := "Reply does not exist or may already been deleted."
  const NotOwnerToUpdate := "Reply can only be updated by the owner."
  const NotOwnerToDelete := "Reply can only be deleted by the owner."

  /** `findOne({ _id: id, commentId: { $ne: null }, isDeleted: false })`. */
  predicate LiveReply(comments: map<int, MComment>, id: int)
  {
    LiveComment(comments, id) && comments[id].commentId.Some?
  }

  /** `AddReply`: a reply to any live record of the comment table, with a new
      empty ledger, pushed onto the parent's `replies`. */
  method AddReply(db: ContentStore, commentId: int, description: string, userId: int, now: int)
    returns (r: Outcome<MComment>)
    requires db.Valid()
    modifies db
    ensures db.Valid()
    ensures !LiveComment(old(db.comments), commentId) ==> r == Thrown(ErrorKey, NoComment) && unchanged(db)
    ensures LiveComment(old(db.comments), commentId) ==>
      var id := old(db.nextId);
      && db.nextId == id + 1
      && id !in old(db.posts) && id !in old(db.comments)
      && db.comments == WithReply(old(db.comments)[id := MComment(id, userId, None, Some(commentId), description, [], false, now)],
                                  commentId, id)
      && db.comments[commentId].replies == old(db.comments[commentId].replies) + [id]
      && db.commentLikes == old(db.commentLikes)[id := Empty]
      && db.posts == old(db.posts) && db.likes == old(db.likes)
      && r == Done(db.comments[id])
  {
    if !LiveComment(db.comments, commentId) {
      return Thrown(ErrorKey, NoComment);
    }
    var id := db.nextId;
    var reply := MComment(id, userId, None, Some(commentId), description, [], false, now);
    NewReplyKeepsStore(db.posts, db.comments, db.likes, db.commentLikes, id, commentId, reply);
    db.comments := db.comments[id := reply];
    db.commentLikes := db.commentLikes[id := Empty];
    db.nextId := id + 1;
    var _ := MongoComments.PushReply(db, commentId, id);
    r := Done(reply);
  }

  /** `UpdateReply`: only a live reply's owner may change its description. */
  method UpdateReply(db: ContentStore, replyId: int, description: string, userId: int) returns (r: Outcome<MComment>)
    requires db.Valid()
    modifies db
    ensures db.Valid()
    ensures !LiveReply(old(db.comments), replyId) ==> r == Thrown(ErrorKey, NoReply) && unchanged(db)
    ensures LiveReply(old(db.comments), replyId) && old(db.comments[replyId].userId) != userId ==>
      r == Thrown(ErrorKey, NotOwnerToUpdate) && unchanged(db)
    ensures LiveReply(old(db.comments), replyId) && old(db.comments[replyId].userId) == userId ==>
      && db.comments == old(db.comments)[replyId := old(db.comments[replyId]).(description := description)]
      && r == Done(db.comments[replyId])
      && db.posts == old(db.posts) && db.likes == old(db.likes)
      && db.commentLikes == old(db.commentLikes) && db.nextId == old(db.nextId)
  {
    if !LiveReply(db.comments, replyId) {
      return Thrown(ErrorKey, NoReply);
    }
    var reply := db.comments[replyId];
    if reply.userId != userId {
      return Thrown(ErrorKey, NotOwnerToUpdate);
    }
    reply := reply.(description := description);
    CommentRewriteKeepsLinks(db.posts, db.comments, db.nextId, replyId, reply);
    db.comments := db.comments[replyId := reply];
    r := Done(reply);
  }

  /** `DeleteReply`: only a live reply's owner may flag it deleted; it is
      then pulled from its parent's `replies`. */
  method DeleteReply(db: ContentStore, replyId: int, userId: int) returns (r: Outcome<MComment>)
    requires db.Valid()
    modifies db
    ensures db.Valid()
    ensures !LiveReply(old(db.comments), replyId) ==> r == Thrown(ErrorKey, NoReply) && unchanged(db)
    ensures LiveReply(old(db.comments), replyId) && old(db.comments[replyId].userId) != userId ==>
      r == Thrown(ErrorKey, NotOwnerToDelete) && unchanged(db)
    ensures LiveReply(old(db.comments), replyId) && old(db.comments[replyId].userId) == userId ==>
      var parent := old(db.comments[replyId].commentId.value);
      && db.comments == WithoutReply(Flagged(old(db.comments), replyId), parent, replyId)
      && replyId !in db.comments[parent].replies
      && db.comments[replyId].isDeleted
      && r == Done(db.comments[replyId])
      && db.posts == old(db.posts) && db.likes == old(db.likes)
      && db.commentLikes == old(db.commentLikes) && db.nextId == old(db.nextId)
  {
    if !LiveReply(db.comments, replyId) {
      return Thrown(ErrorKey, NoReply);
    }
    var reply := db.comments[replyId];
    if reply.userId != userId {
      return Thrown(ErrorKey, NotOwnerToDelete);
    }
    DeleteReplyKeepsLinks(db.posts, db.comments, db.nextId, replyId);
    db.comments := Flagged(db.comments, replyId);
    var _ := MongoComments.PullReply(db, reply.commentId.value, replyId);
    r := Done(db.comments[replyId]);
  }

  // ---- Queries ----------------------------------------------------------------

  /** A reply as the queries return it: with its ledger, no nested replies. */
  datatype ReplyCard = ReplyCard(reply: MComment, likes: Option<Ledger>)

  function Card(c: MComment, commentLikes: map<int, Ledger>): ReplyCard
  {
    ReplyCard(c, if c.id in commentLikes then Some(commentLikes[c.id]) else None)
  }

  /** What `GetReply` selects: live replies of the comment created no later
      than `before`. */
  function OfComment(commentId: int, before: int): MComment -> bool
  {
    (c: MComment) => c.commentId == Some(commentId) && !c.isDeleted && c.createdAt <= before
  }

  /** `GetReply`: a live comment's selected replies newest first, `offset`
      skipped, at most `MongoLimit(numOfItems)`. */
  function GetReply(comments: map<int, MComment>, commentLikes: map<int, Ledger>, n: int,
                    commentId: int, offset: nat, numOfItems: int, before: int): Outcome<seq<ReplyCard>>
    requires forall k :: k in comments ==> comments[k].id == k
  {
    if !LiveComment(comments, commentId) then Thrown(ErrorKey, NoComment)
    else
      var rs := Feed.Listing(Feed.Rows(comments, n, CommentKey), OfComment(commentId, before), CommentCreatedAt,
                             offset, MongoLimit(numOfItems));
      Done(seq(|rs|, i requires 0 <= i < |rs| => Card(rs[i], commentLikes)))
  }

  /** `ViewReply`: it has no `commentId` filter, so any live record of the
      comment table is found, a top-level comment included. */
  function ViewReply(comments: map<int, MComment>, commentLikes: map<int, Ledger>, id: int): (r: Outcome<ReplyCard>)
    ensures r.Done? <==> LiveComment(comments, id)
    ensures r.Thrown? ==> r == Thrown(ErrorKey, NoReply)
    ensures r.Done? ==> r.value.reply == comments[id]
  {
    if LiveComment(comments, id) then Done(Card(comments[id], commentLikes)) else Thrown(ErrorKey, NoReply)
  }

  /** What `GetReply` returns: an error for a missing or deleted comment;
      otherwise that comment's selected replies, each once, newest first, no
      more than `|numOfItems|` when that is not 0. */
  lemma GetReplyFacts(comments: map<int, MComment>, commentLikes: map<int, Ledger>, n: int,
                      commentId: int, offset: nat, numOfItems: int, before: int)
    requires forall k :: k in comments ==> comments[k].id == k
    ensures var o := GetReply(comments, commentLikes, n, commentId, offset, numOfItems, before);
      && (o.Thrown? <==> !LiveComment(comments, commentId))
      && (o.Thrown? ==> o == Thrown(ErrorKey, NoComment))
      && (o.Done? ==>
            var r := o.value;
            && (forall i :: 0 <= i < |r| ==>
                  && r[i].reply.id in comments && comments[r[i].reply.id] == r[i].reply
                  && r[i].reply.commentId == Some(commentId) && !r[i].reply.isDeleted && r[i].reply.createdAt <= before
                  && r[i] == Card(r[i].reply, commentLikes))
            && (forall i, j :: 0 <= i < j < |r| ==>
                  r[i].reply.id != r[j].reply.id && r[i].reply.createdAt >= r[j].reply.createdAt)
            && (numOfItems != 0 ==> |r| <= if numOfItems < 0 then -numOfItems else numOfItems))
  {
    if LiveComment(comments, commentId) {
      var rows := Feed.Rows(comments, n, CommentKey);
      var rs := Feed.Listing(rows, OfComment(commentId, before), CommentCreatedAt, offset, MongoLimit(numOfItems));
      Feed.ListingFacts(rows, OfComment(commentId, before), CommentCreatedAt, offset, MongoLimit(numOfItems));
      var r := GetReply(comments, commentLikes, n, commentId, offset, numOfItems, before).value;
      forall i | 0 <= i < |r|
        ensures r[i].reply.id in comments && comments[r[i].reply.id] == r[i].reply
        ensures r[i].reply.commentId == Some(commentId) && !r[i].reply.isDeleted && r[i].reply.createdAt <= before
      {
        assert r[i].reply == rs[i] && rs[i] in rs;
      }
      forall i, j | 0 <= i < j < |r|
        ensures r[i].reply.id != r[j].reply.id && r[i].reply.createdAt >= r[j].reply.createdAt
      {
        assert r[i].reply == rs[i] && r[j].reply == rs[j];
        assert rs[i] in rows && rs[j] in rows;
      }
    }
  }

  /** Every reply that `GetReply` lists is also listed in its parent's
      `replies`, which is what the comment queries preview. */
  lemma ListedRepliesArePreviewed(posts: map<int, MPost>, comments: map<int, MComment>, commentLikes: map<int, Ledger>,
                                  n: int, commentId: int, offset: nat, numOfItems: int, before: int)
    requires Linked(posts, comments, n)
    requires GetReply(comments, commentLikes, n, commentId, offset, numOfItems, before).Done?
    ensures var r := GetReply(comments, commentLikes, n, commentId, offset, numOfItems, before).value;
      forall i :: 0 <= i < |r| ==> r[i].reply.id in comments[commentId].replies
  {
    GetReplyFacts(comments, commentLikes, n, commentId, offset, numOfItems, before);
  }
}
