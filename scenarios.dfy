/** Call sequences from the test suites (test/post.test.js, test/user.test.js)
    and their Mongoose counterparts, as calls on the models: each method
    states, in its postcondition, what every step returns. */
module Scenarios {
  import opened Wrappers
  import opened Requests
  import opened Ledgers
  import opened MongoStore
  import PrismaPosts
  import PostValidation
  import PrismaUsers
  import MongoPosts
  import MongoUsers
  import UserValidation

  /** A post starts with `like_count` 0; a like makes it 1, a second like is
      refused with 400, and liking post 0 is a 404. */
  method PrismaLikeTwice() returns (liked: Result<PrismaPosts.Post, Failure>, again: Result<PrismaPosts.Post, Failure>,
                                    missing: Result<PrismaPosts.Post, Failure>)
    ensures liked.Ok? && liked.value.likeCount == 1
    ensures again == Err(Rejected(400, "Already liked the post"))
    ensures missing == Err(PrismaPosts.PostNotFound)
  {
    var service, like := LikedPost();
    liked := service.Like(like);
    again := service.Like(like);
    var zero := map["user_id" := Integer(7), "post_id" := Integer(0)];
    assert PostValidation.LikePost(zero) && zero["post_id"].n !in service.posts;
    missing := service.Like(zero);
  }

  /** After one like, an unlike brings `like_count` back to 0 and a second
      unlike is refused with 400. */
  method PrismaUnlikeTwice() returns (unliked: Result<PrismaPosts.Post, Failure>, twice: Result<PrismaPosts.Post, Failure>)
    ensures unliked.Ok? && unliked.value.likeCount == 0
    ensures twice == Err(Rejected(400, "Like is not found"))
  {
    var service, like := LikedPost();
    var liked := service.Like(like);
    assert service.likes == [PrismaPosts.LikeRow(7, 1)] && service.posts[1].likeCount == 1;
    unliked := service.Unlike(like);
    assert service.likes == [] by {
      assert |service.likes| == 0;
    }
    twice := service.Unlike(like);
  }

  /** A service holding one new post, id 1, by user 7, and the request of
      user 7 to like it. */
  method LikedPost() returns (service: PrismaPosts.PostService, like: Request)
    ensures fresh(service) && service.Valid()
    ensures service.likes == [] && 1 in service.posts && service.posts[1].likeCount == 0
    ensures PostValidation.LikePost(like) && like["post_id"].n == 1 && like["user_id"].n == 7
  {
    service := new PrismaPosts.PostService();
    var created := service.Create(map["text" := Text("hello"), "user_id" := Integer(7)], 100);
    like := map["user_id" := Integer(7), "post_id" := Integer(1)];
  }

  /** After a registration, a login with a wrong password is refused with 401. */
  method PrismaWrongPassword() returns (wrong: Result<string, Failure>)
    ensures wrong == Err(PrismaUsers.BadCredentials)
  {
    var service := RegisteredAnn();
    var ann := service.users[1];
    var bad := map["username" := Text("ann"), "password" := Text("px")];
    assert bad["username"].s == "ann" && bad["password"].s == "px";
    assert UserValidation.Login(bad);
    assert PrismaUsers.FirstMatch(service.users, 1, 2, "ann") == Some(1);
    assert ("px" + "#")[1] != ann.password[1];
    assert !service.compare("px", ann.password);
    wrong := service.Login(bad, "t-0");
  }

  /** Register, log in by email, log out: the login's token is stored on the
      row and the logout clears it. */
  method PrismaSessionCycle() returns (token: Result<string, Failure>, stored: Option<string>,
                                       out: Result<PrismaUsers.User, Failure>)
    ensures token == Ok("t-1") && stored == Some("t-1")
    ensures out.Ok? && out.value.token.None? && out.value.username == "ann"
  {
    var service := RegisteredAnn();
    var ann := service.users[1];
    var good := map["username" := Text("ann@x"), "password" := Text("pw")];
    assert good["username"].s == "ann@x" && good["password"].s == "pw";
    assert UserValidation.Login(good);
    assert PrismaUsers.FirstMatch(service.users, 1, 2, "ann@x") == Some(1);
    assert service.compare("pw", ann.password);
    token := service.Login(good, "t-1");
    assert service.users == map[1 := ann.(token := Some("t-1"))];
    stored := service.users[1].token;
    assert UserValidation.GetUser(Integer(1));
    out := service.Logout(Integer(1));
  }

  /** A user service whose hash appends `#`, after "ann" has registered. */
  method RegisteredAnn() returns (service: PrismaUsers.UserService)
    ensures fresh(service) && service.Valid()
    ensures service.users == map[1 := PrismaUsers.User(1, "ann", "ann@x", "pw#", "Ann", None)] && service.nextId == 2
    ensures forall p, h :: service.compare(p, h) <==> h == p + "#"
  {
    service := new PrismaUsers.UserService((p: string, salt: int) => p + "#", (p: string, h: string) => h == p + "#");
    var isEmail := (s: string) => true;
    var form := map["username" := Text("ann"), "email" := Text("ann@x"), "password" := Text("pw"), "name" := Text("Ann")];
    assert form["username"].s == "ann" && form["email"].s == "ann@x" && form["password"].s == "pw" && form["name"].s == "Ann";
    assert UserValidation.Register(form, isEmail);
    assert PrismaUsers.MatchCount(map[], "ann", "ann@x") == 0;
    assert service.hash("pw", 10) == "pw#";
    assert !PrismaUsers.RefusedAsWritten(service.users, form["username"].s, form["email"].s);
    var registered := service.Register(form, isEmail, 10);
  }

  /** The Mongoose ledger of a new post: one like, a refused second like, an
      unlike, a refused second unlike. The refusals carry a `message` key,
      so the router would report them as successes. */
  method MongoLikeCycle() returns (liked: Outcome<Ledger>, again: Outcome<Ledger>,
                                   unliked: Outcome<Ledger>, twice: Outcome<Ledger>)
    ensures liked == Done(Ledger([8], 1))
    ensures again == Thrown(MessageKey, MongoPosts.AlreadyLiked) && !ReportedAsError(again)
    ensures unliked == Done(Ledger([], 0))
    ensures twice == Thrown(MessageKey, MongoPosts.NotLikedYet) && !ReportedAsError(twice)
  {
    var db := new ContentStore();
    var posted := MongoPosts.AddPost(db, Some("a.png"), "hello", 7, 100);
    assert posted.Done? && db.likes[1] == Empty;
    liked := MongoPosts.AddLike(db, 1, 8);
    again := MongoPosts.AddLike(db, 1, 8);
    unliked := MongoPosts.RemoveLike(db, 1, 8);
    twice := MongoPosts.RemoveLike(db, 1, 8);
  }

  /** A post made without an upload is stored but has no ledger, so liking
      it fails with a runtime error. */
  method MongoPostWithoutUpload() returns (posted: Outcome<MPost>, liked: Outcome<Ledger>)
    ensures posted == Thrown(RuntimeError, MongoPosts.NoUpload)
    ensures liked == Thrown(RuntimeError, MongoPosts.NoLedger)
  {
    var db := new ContentStore();
    posted := MongoPosts.AddPost(db, None, "hello", 7, 100);
    assert LivePost(db.posts, 1) && 1 !in db.likes;
    liked := MongoPosts.AddLike(db, 1, 8);
  }

  /** Sign-up checks names before passwords: a taken username is refused as
      taken even when the passwords differ; a fresh one with differing
      passwords is refused as a mismatch. */
  method MongoSignUpOrder(kdf: (string, string) -> MongoUsers.Key64, salt: seq<MongoUsers.byte>)
    returns (first: Outcome<MongoUsers.MUser>, taken: Outcome<MongoUsers.MUser>, mismatch: Outcome<MongoUsers.MUser>)
    ensures first.Done? && first.value.username == "ann"
    ensures MongoUsers.VerifyPassword(kdf, "pw", first.value.password)
    ensures taken == Thrown(ErrorKey, MongoUsers.Taken)
    ensures mismatch == Thrown(ErrorKey, MongoUsers.Mismatch)
  {
    var accounts := new MongoUsers.Accounts(kdf);
    first := accounts.SignUp("ann", "Ann", "ann@x", "pw", "pw", salt);
    assert accounts.users[1].username == "ann";
    taken := accounts.SignUp("ann", "Other", "other@x", "a", "b", salt);
    mismatch := accounts.SignUp("bob", "Bob", "bob@x", "a", "b", salt);
  }
}
