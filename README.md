# A social-posting back end, modelled in Dafny

The repository is a small social network with two halves.

1. **The Prisma half.** It is an Express API over a relational schema.
   - `src/service/post-service.js` stores posts. A reply is a post with a parent. Posts are liked through a like table and are listed per user with paging.
   - `src/service/user-service.js` registers users, logs them in with a token, returns and updates profiles, and logs them out.
   - Every request first passes a Joi schema (`src/validation/*.js`).
2. **The Mongoose half.** It stores the same kinds of content as documents.
   - `services/post.js`, `services/comment.js` and `services/reply.js` create, update, soft-delete, like and list posts, comments and replies.
   - Each post and comment has its own like document, holding `users` and `count`. It also keeps an array of child ids.
   - `services/user.js` signs up and signs in accounts with a `salt:key` scrypt hash.

The model keeps the database as Dafny values and the services as operations on them.

- **Prisma half.** Two classes, `PrismaPosts.PostService` and `PrismaUsers.UserService`. Their methods change the tables in place and check the request schemas with predicates (`PostValidation`, `UserValidation`).
- **Mongoose half.** `MongoStore.ContentStore` is a class holding the post, comment and like tables.
  - The service calls of `services/*.js` are module methods with `modifies db`.
  - The read-only queries (`GetPost`, `ViewPost`, …) are functions of the tables.
- **Shared modules.**
  - `Feed`: the newest-first sort, skip and limit that every listing shares.
  - `Ledgers`: the like documents.
  - `JsParseInt`: `parseInt(s, 10)`.
  - `MongoUsers`: the password-hash format.
- **Outside inputs are parameters.** Clocks (`now`), uploaded file names, salts, tokens, bcrypt and scrypt are parameters, or function-typed constants fixed when a service is built.

Errors follow the source:
- **Prisma half:** `Rejected(status, message)` for a `ResponseError`, and `Invalid` for a Joi failure.
- **Mongoose half:** `Thrown(key, text)`.
  - The key is `ErrorKey` or `MessageKey`, depending on which field the service puts into the rejected object.
  - `RuntimeError` stands for a `TypeError` the code runs into.
  - `MongoStore.ReportedAsError` is the routers' test. It reports only an `error` key as a failure.

## Model

| member | source | states |
|---|---|---|
| PostValidation.ReplyIsCreateWithParent | src/validation/post-validation.js:15-19 | a reply request is valid exactly when it is a valid create request plus an integer `post_id` |
| PostValidation.CreatePost | src/validation/post-validation.js:3-6 | the create schema; `BodiesHaveEveryKey`, `LongTextRefused` and `BoundedTextAccepted` state what it accepts |
| PostValidation.GetPost | src/validation/post-validation.js:8 | a post id is valid exactly when it is an integer |
| PostValidation.LikePost | src/validation/post-validation.js:10-13 | the like/unlike/remove schema; its key set is stated by `LikeRequestHasTwoFields` |
| PostValidation.ReplyPost | src/validation/post-validation.js:15-19 | the reply schema; `ReplyIsCreateWithParent` relates it to the create schema |
| PostValidation.BodiesHaveEveryKey | src/validation/post-validation.js:3-19 | a valid create body has exactly the keys `text` and `user_id`, a valid reply body exactly `text`, `post_id` and `user_id` |
| PostValidation.GetAllPost | src/validation/post-validation.js:21-25 | the listing schema; `UnknownKeyRefused` and `EmptyStringRefused` state what it refuses |
| PostValidation.LikeRequestHasTwoFields | src/validation/post-validation.js:10-13 | a like/remove request is valid only with integer `user_id` and `post_id` and no other key |
| Requests.Utf16Length | src/validation/post-validation.js:4 | the JavaScript `length` Joi's `max` compares: between the number of characters and twice it, equal to it exactly when no character lies beyond U+FFFF, twice it exactly when all do |
| PostValidation.UnknownKeyRefused | src/validation/post-validation.js:3-25 | each object schema refuses a body carrying any key it does not list |
| PostValidation.EmptyStringRefused | src/validation/post-validation.js:3-25 | an empty string is refused as `text` (create and reply) and as `offset` or `limit` |
| PostValidation.LongTextRefused | src/validation/post-validation.js:4 | a `text` longer than 140 UTF-16 code units is refused, for a post and for a reply |
| PostValidation.BoundedTextAccepted | src/validation/post-validation.js:3-6 | any non-empty text of at most 140 UTF-16 code units with an integer `user_id` is accepted; with `LongTextRefused` the bound is exact |
| PostValidation.LengthCountsCodeUnits | src/validation/post-validation.js:4 | 71 characters beyond U+FFFF are refused although fewer than 140, while up to 140 other characters are accepted |
| UserValidation.RegisterFieldsAreValidUpdate | src/validation/user-validation.js:3-28 | the fields of a valid registration, with an integer `id`, form a valid update |
| UserValidation.Register | src/validation/user-validation.js:3-11 | the registration schema; `BodiesHaveEveryKey` and `EmptyFieldRefused` state what it accepts and refuses |
| UserValidation.Login | src/validation/user-validation.js:13-16 | the login schema; `RegisterBodyIsLogin` states which bodies it accepts |
| UserValidation.BodiesHaveEveryKey | src/validation/user-validation.js:3-16 | a valid registration has exactly the keys `username`, `email`, `password` and `name`, a valid login exactly `username` and `password` |
| UserValidation.GetUser | src/validation/user-validation.js:18 | a user id is valid exactly when it is an integer |
| UserValidation.Update | src/validation/user-validation.js:20-28 | the update schema; `IdAloneIsValidUpdate`, `RegisterFieldsAreValidUpdate`, `EmptyFieldRefused` and `UnknownKeyRefused` state what it accepts and refuses |
| UserValidation.IdAloneIsValidUpdate | src/validation/user-validation.js:20-28 | an update naming only the user id is valid: every other field is optional |
| UserValidation.EmptyFieldRefused | src/validation/user-validation.js:3-28 | an empty string in any of the four fields refuses a registration and an update, and as `username` or `password` a login |
| UserValidation.UnknownKeyRefused | src/validation/user-validation.js:3-28 | register, login and update each refuse any key they do not list |
| UserValidation.RegisterBodyIsLogin | src/validation/user-validation.js:3-16 | the username and password of any valid registration form a valid login, and so do its email and password |
| JsParseInt.DecimalValue | src/service/post-service.js:254-255 | the decimal numeral of n denotes n |
| JsParseInt.ParseInt | src/service/post-service.js:254-255 | white space, one optional sign, then the longest digit run; NaN without a digit; its properties are `ParseIntFacts`, `ParseNumeral` and `NoDigitIsNaN` |
| JsParseInt.ParseIntFacts | src/service/post-service.js:254-255 | a number comes only from a string holding a digit; a string starting with a digit always parses, to a non-negative number |
| JsParseInt.DigitPrefixOfDigits | src/service/post-service.js:254-255 | the digit prefix of a digit string followed by a non-digit is that digit string |
| JsParseInt.ParseNumeral | src/service/post-service.js:254-255 | the numeral of n, with or without a leading minus, followed by anything not starting with a digit, parses as n or -n |
| JsParseInt.NoDigitIsNaN | src/service/post-service.js:254-255 | a string starting with neither a digit, a space nor a sign parses as NaN |
| Feed.Rows | src/service/post-service.js:213-214 | the rows a `findMany` scans: exactly the stored rows with keys below the counter, each once |
| Feed.SortNewestFirst | src/service/post-service.js:251-253 | `orderBy created_at desc`: the result is a permutation of the input and ordered newest first |
| Feed.Filter | src/service/post-service.js:214 | a `where` keeps exactly the rows that satisfy it |
| Feed.Skip | services/post.js:107 | `.skip(k)` drops the first k rows and keeps the rest in order |
| Feed.Take | services/post.js:108 | `.limit(k)` keeps a prefix of at most k rows |
| Feed.TakeKeepsOrder | services/post.js:106-108 | a limited listing is still newest first |
| Feed.SkipKeepsOrder | services/post.js:106-108 | a skipped listing is still newest first |
| Feed.FirstPageIsNewest | services/post.js:106-108 | the first k rows of the newest-first arrangement are the k newest: every row left out is no newer than every row shown |
| Feed.ListingFacts | services/post.js:106-108 | filter, sort, skip and limit: the rows shown satisfy the filter, each occurs once, newest first, within the limit |
| Feed.FirstListingIsNewest | services/post.js:106-108 | a selected row missing from an unskipped page is no newer than anything shown |
| Feed.PagesTile | services/post.js:106-108 | a page of m rows after `skip`, followed by the listing after `skip + m`, is the listing after `skip`: under the model's one fixed order (ties by id), consecutive pages neither repeat nor miss a row |
| PrismaPosts.MatchingFacts | src/service/post-service.js:213-253 | a `findMany` with a `where` and `created_at desc` returns each matching stored row once, newest first, and nothing else |
| PrismaPosts.Matching | src/service/post-service.js:213-253 | the rows a `where` clause selects, ordered by `created_at` descending; its properties are `MatchingFacts` |
| PrismaPosts.RepliesOf | src/service/post-service.js:60-80 | the nested `replies` selection, at most 10 newest replies of the post; its properties are `RepliesOfIsPreview` |
| PrismaPosts.FirstPageOfMatching | src/service/post-service.js:60-80 | a matching row left off a first page is no newer than any row on it |
| PrismaPosts.RepliesOfIsPreview | src/service/post-service.js:60-80 | the nested `replies` are stored replies of the post, newest first, at most 10, and any reply left out is no newer than each shown |
| PrismaPosts.ParentOf | src/service/post-service.js:43-59 | the nested `post` is the stored parent, or null exactly when there is none |
| PrismaPosts.PageOf | src/service/post-service.js:254-255 | an absent `limit` is no take and an absent `offset` skip 0; a present one is its `parseInt` value; the page is refused by the store exactly when an offset or a limit is NaN or the offset is negative |
| PrismaPosts.PageOfNumerals | src/service/post-service.js:254-255 | decimal `offset` and `limit` strings give that skip and that take |
| PrismaPosts.PageOfNegativeLimit | src/service/post-service.js:254 | a negative decimal limit gives a negative take |
| PrismaPosts.PageOfRefusesOffset | src/service/post-service.js:255 | a negative or non-numeric offset is refused by the store |
| PrismaPosts.Window | src/service/post-service.js:254-255 | the slice a page selects lies in the listing; at most `abs(take)` rows; a negative take counts from the end |
| PrismaPosts.PaginateFacts | src/service/post-service.js:251-256 | a page of a listing keeps its order and distinctness and stays within `abs(take)` rows |
| PrismaPosts.ListingRowsFacts | src/service/post-service.js:210-257 | the rows of a user listing are that user's stored posts (top-level posts or replies as asked), newest first, each once |
| PrismaPosts.UserListingFacts | src/service/post-service.js:210-257 | each listed entry shows its row with the row's stored parent and a reply preview |
| PrismaPosts.UserListing | src/service/post-service.js:210-257 | one page of a user's rows, each with its parent and its reply preview; its properties are `ListingRowsFacts` and `UserListingFacts` |
| PrismaPosts.LikesOfAppend | src/service/post-service.js:173-179 | the like count of a post rises by one exactly for a new row of that post |
| PrismaPosts.LikesOfNone | src/service/post-service.js:173-176 | a post with no rows counts no likes |
| PrismaPosts.LikesOfRemoveAll | src/service/post-service.js:196-202 | deleting every copy of a row lowers only that row's post count, by the copies |
| PrismaPosts.DropPostMembers | src/service/post-service.js:149 | `deleteMany({ post_id })` keeps exactly the rows of other posts |
| PrismaPosts.DropPost | src/service/post-service.js:149 | the like table after `deleteMany({ post_id })`; its properties are `DropPostMembers`, `DropPostCounts` and `DropPostKeepsNoDup` |
| PrismaPosts.DropPostCounts | src/service/post-service.js:149 | after it, the post counts no likes and the others count as before |
| PrismaPosts.DropPostKeepsNoDup | src/service/post-service.js:149 | it keeps the table free of duplicate rows |
| PrismaPosts.SurplusKeptKeeps | src/service/post-service.js:100-135 | a change that keeps every post's reply surplus keeps exact and covering reply counts |
| PrismaPosts.RepliesToSameParents | src/service/post-service.js:129-132 | rewriting counters and not parents changes no post's set of replies |
| PrismaPosts.RepliesToInsert | src/service/post-service.js:109-127 | a new row adds itself to its parent's replies and to no others |
| PrismaPosts.RepliesToDelete | src/service/post-service.js:154-160 | deleting a row removes it from every reply set |
| PrismaPosts.NoRepliesTo | src/service/post-service.js:12-33 | an id no row points to has no replies |
| PrismaPosts.CountersKeepSurplus | src/service/post-service.js:181-184 | rewriting a like counter keeps every reply surplus |
| PrismaPosts.CreateKeepsSurplus | src/service/post-service.js:12-33 | a new top-level post with `reply_count` 0 keeps every surplus |
| PrismaPosts.ReplyKeepsSurplus | src/service/post-service.js:109-132 | a new reply plus its parent's increment keeps every surplus |
| PrismaPosts.DecrementReplies | src/service/post-service.js:156-159 | `reply_count: { decrement: 1 }` changes only that row's counter, by one |
| PrismaPosts.RemoveAsWrittenKeepsParent | src/service/post-service.js:151-160 | as written, removing a reply leaves its parent's row as it was |
| PrismaPosts.RemoveAsWritten | src/service/post-service.js:151-160 | the post table after `remove` as written, the decrement addressed to the removed row's own id; its consequences are `RemoveAsWrittenKeepsParent` and `RemoveAsWrittenLeavesStaleCount` |
| PrismaPosts.RemoveAsWrittenLeavesStaleCount | src/service/post-service.js:154-160 | on a concrete table, removing the only reply as written leaves the parent's `reply_count` at 1 with no reply stored |
| PrismaPosts.RemoveFromTable | src/service/post-service.js:154-160 | the intended removal: the row goes, and a reply's parent counter drops by one |
| PrismaPosts.RemoveKeepsReplyCounts | src/service/post-service.js:154-160 | the intended removal keeps every surplus, so exact reply counts stay exact |
| PrismaPosts.NewRowKeepsLikes | src/service/post-service.js:12-33 | a new row with `like_count` 0 keeps the like invariant |
| PrismaPosts.SameLikeCountKeepsLikes | src/service/post-service.js:129-132 | rewriting a row without touching `like_count` keeps the like invariant |
| PrismaPosts.LikeKeepsLikes | src/service/post-service.js:164-185 | a new (user, post) row plus the increment keeps `like_count` equal to the post's rows |
| PrismaPosts.UnlikeKeepsLikes | src/service/post-service.js:187-208 | deleting the row plus the decrement keeps `like_count` equal to the post's rows |
| PrismaPosts.LikeCounterKeepsTable | src/service/post-service.js:164-208 | rewriting one post's `like_count` keeps the post-table invariant, and exact reply counts stay exact |
| PrismaPosts.LikeKeepsTables | src/service/post-service.js:164-185 | a new row plus the increment keeps the whole service invariant and exact reply counts |
| PrismaPosts.UnlikeKeepsTables | src/service/post-service.js:187-208 | deleting the row plus the decrement keeps the whole service invariant and exact reply counts, and exactly one row goes |
| PrismaPosts.ReplyKeepsTables | src/service/post-service.js:109-132 | a new reply under the next id plus its parent's increment keeps the whole service invariant and exact reply counts |
| PrismaPosts.DropPostKeepsLikes | src/service/post-service.js:137-162 | removing a post with its like rows keeps the like invariant |
| PrismaPosts.PostService.constructor | src/service/post-service.js:1-10 | empty tables that satisfy the invariant |
| PrismaPosts.PostService.Create | src/service/post-service.js:12-33 | invalid request refused; otherwise one new top-level post under a fresh id with zero counts, returned; reply and like invariants kept |
| PrismaPosts.PostService.Get | src/service/post-service.js:35-98 | invalid id refused; missing post 404; otherwise the post with its parent and its ten newest replies |
| PrismaPosts.PostService.Reply | src/service/post-service.js:100-135 | invalid request refused; missing parent 404; otherwise a new reply stored and the parent's `reply_count` up by one; invariants kept |
| PrismaPosts.PostService.Remove | src/service/post-service.js:137-162 | missing post 404; another's post 401; otherwise the post and its like rows go, and, as written, no other row changes |
| PrismaPosts.PostService.Like | src/service/post-service.js:164-185 | missing post 404; an existing like 400 "Already liked the post"; otherwise one new row and `like_count` + 1 on that post only |
| PrismaPosts.PostService.Unlike | src/service/post-service.js:187-208 | missing post 404; no like 400 "Like is not found"; otherwise the row goes and `like_count` - 1 on that post only |
| PrismaPosts.PostService.GetAllByUserId | src/service/post-service.js:210-257 | invalid request refused; otherwise one page of the user's top-level posts, newest first; as top-level rows they have no parent, and each carries its reply preview |
| PrismaPosts.PostService.GetAllReplyByUserId | src/service/post-service.js:259-323 | the same for the user's replies |
| PrismaUsers.ProfileOf | src/service/user-service.js:27-35 | the returned profile repeats the row's id, username, email and name and leaves out the password |
| PrismaUsers.MatchCount | src/service/user-service.js:16-20 | the number of rows whose username or email matches; `NoMatchMeansNoClash` reads a count of 0 |
| PrismaUsers.NoMatchMeansNoClash | src/service/user-service.js:16-20 | a count of 0 means no row has that username or email |
| PrismaUsers.IntendedCheckKeepsAccountsUnique | src/service/user-service.js:16-23 | refusing whenever any row matches keeps usernames and emails unique |
| PrismaUsers.AsWrittenAcceptsTwoMatches | src/service/user-service.js:16-23 | a table where one user has the username and another the email counts 2, which the `=== 1` check lets through |
| PrismaUsers.FirstMatch | src/service/user-service.js:41-56 | `findFirst` on username or email: the lowest matching id, or none when nothing matches |
| PrismaUsers.ApplyUpdate | src/service/user-service.js:110-118 | each supplied field replaces the stored one; the password is replaced by its hash; absent fields and the token stay |
| PrismaUsers.IdOnlyUpdateChangesNothing | src/service/user-service.js:110-118 | an update with only the id leaves the row as it was |
| PrismaUsers.RepeatedUpdate | src/service/user-service.js:110-118 | a repeated update leaves each field as the second one sets it; without a `password` the repeat changes nothing more, while a repeated password update stores the second, freshly salted hash |
| PrismaUsers.UserService.constructor | src/service/user-service.js:1-11 | an empty user table with the given hash and compare functions |
| PrismaUsers.UserService.Register | src/service/user-service.js:13-36 | invalid request refused; exactly one match 400; otherwise a new row with the hashed password; uniqueness kept when no row matched |
| PrismaUsers.UserService.Login | src/service/user-service.js:38-79 | the first user by username or email whose hash the password matches gets the fresh token; any other case 401 and no change |
| PrismaUsers.UserService.Get | src/service/user-service.js:81-99 | invalid id refused; missing user 404; otherwise that user's profile |
| PrismaUsers.UserService.Update | src/service/user-service.js:101-130 | invalid request refused; missing user 404; otherwise only that row changes, by `ApplyUpdate` |
| PrismaUsers.UserService.Logout | src/service/user-service.js:132-154 | missing user 404; otherwise that user's token becomes null and the row is returned |
| Ledgers.Push | services/post.js:201-205 | `$push` and `$inc: 1`: the user is added once and the count rises by one; consistency kept for a new user |
| Ledgers.Pull | services/post.js:236-240 | `$pull` and `$inc: -1`: the user is gone, the others stay, and the count drops by one |
| Ledgers.PullOnce | services/post.js:236-240 | pulling a user who is there once takes one entry away, so the count matches again |
| Ledgers.Apply | services/post.js:180-249 | a like leaves the user among the likers and an unlike leaves them out; a refused call changes nothing |
| Ledgers.ApplyKeepsConsistent | services/post.js:180-249 | one call keeps the ledger free of duplicates with `count` equal to the number of users |
| Ledgers.ReplayKeepsConsistent | services/post.js:180-249 | any sequence of like and unlike calls keeps the ledger consistent |
| Ledgers.Replay | services/post.js:180-249 | a sequence of like and unlike calls applied in order; `ReplayKeepsConsistent` states the invariant it keeps |
| Ledgers.FromEmptyCountsLikers | models/like.js:1-14 | from a new ledger, `count` is always the number of distinct likers |
| Ledgers.LikeThenUnlikeRestores | services/post.js:180-249 | a like followed by an unlike restores the ledger |
| Ledgers.SecondLikeRefused | services/post.js:193-199 | a second like by the same user leaves the ledger as after the first |
| MongoStore.Preview | services/post.js:125-128 | the populated children are the first 5 ids of the array, all of them when there are at most 5 |
| MongoStore.MongoLimit | services/post.js:108 | `.limit(0)` means no limit, a negative limit means its absolute value |
| MongoStore.Populate | services/post.js:120-128 | the populated records are at most as many as the ids: every record shown is the stored record of a listed id, and every listed id with a record is shown |
| MongoStore.PopulateConcat | services/post.js:120-128 | population keeps the list order: it distributes over concatenation, and one id gives its record or nothing |
| MongoStore.WithComment | services/post.js:250-264 | `$push` onto one post's `comments`: that id appended, every other post unchanged |
| MongoStore.WithoutComment | services/post.js:265-279 | `$pull` from one post's `comments`: that id gone, every other post unchanged |
| MongoStore.WithReply | services/comment.js:294-308 | `$push` onto one comment's `replies`: that id appended, every other record unchanged |
| MongoStore.WithoutReply | services/comment.js:309-323 | `$pull` from one comment's `replies`: that id gone, every other record unchanged |
| MongoStore.NewPostKeepsLinks | services/post.js:8-40 | a new post with no comments keeps the table links |
| MongoStore.PostRewriteKeepsLinks | services/post.js:41-69 | rewriting a post's description or deletion flag keeps the links |
| MongoStore.CommentRewriteKeepsLinks | services/comment.js:50-79 | rewriting a comment's description keeps the links |
| MongoStore.NewCommentKeepsLinks | services/comment.js:10-49 | a new comment, pushed onto its live post, keeps the links |
| MongoStore.NewReplyKeepsLinks | services/reply.js:9-48 | a new reply, pushed onto its live parent, keeps the links |
| MongoStore.DeleteCommentKeepsLinks | services/comment.js:80-111 | flagging a comment deleted and pulling it from its post keeps the links |
| MongoStore.DeleteCommentKeepsPosts | services/comment.js:80-111 | after that deletion every post lists exactly its live comments |
| MongoStore.DeleteCommentKeepsReplies | services/comment.js:80-111 | after that deletion every comment still lists its live replies |
| MongoStore.DeleteReplyKeepsLinks | services/reply.js:79-110 | flagging a reply deleted and pulling it from its parent keeps the links |
| MongoStore.DeleteReplyKeepsPosts | services/reply.js:79-110 | deleting a reply leaves every post's comment list valid |
| MongoStore.SameParentsKeepTables | services/reply.js:79-110 | changes that keep every record's parents keep the table shape |
| MongoStore.DeleteReplyKeepsReplies | services/reply.js:79-110 | after deleting a reply every comment lists exactly its live replies |
| MongoStore.DeleteReplyKeepsNoDup | services/reply.js:79-110 | after deleting a reply every reply list still holds each id once |
| MongoStore.DeleteReplyKeepsParents | services/reply.js:79-110 | after deleting a reply every listed reply is still a reply of the record listing it |
| MongoStore.DeleteReplyKeepsLive | services/reply.js:79-110 | after deleting a reply every other live reply is still listed under its parent |
| MongoStore.SameRepliesKeepChildren | services/comment.js:50-79 | rewrites that keep parents, flags and reply lists keep every comment's reply list valid |
| MongoStore.SameLiveCommentsKeepPosts | services/reply.js:79-110 | rewrites that keep each comment's post and, for comments of a post, the deletion flag keep every post's comment list valid |
| MongoStore.NewCommentKeepsTables | services/comment.js:10-49 | a new comment of a stored post keeps the table shape |
| MongoStore.NewCommentKeepsPosts | services/comment.js:10-49 | after pushing a new comment onto its post every post lists exactly its live comments |
| MongoStore.NewCommentKeepsReplies | services/comment.js:10-49 | a new comment, which is no reply, keeps every reply list valid |
| MongoStore.NewReplyKeepsTables | services/reply.js:9-48 | a new reply of a stored record keeps the table shape |
| MongoStore.NewReplyKeepsPosts | services/reply.js:9-48 | a new reply leaves every post's comment list valid |
| MongoStore.NewReplyKeepsReplies | services/reply.js:9-48 | after pushing a new reply onto its parent every record lists exactly its live replies |
| MongoStore.DeleteCommentKeepsTables | services/comment.js:80-111 | flagging and pulling a comment keeps the table shape |
| MongoStore.DeleteCommentKeepsLists | services/comment.js:80-111 | after flagging a comment and pulling it from its post every post lists exactly its live comments |
| MongoStore.NewPostKeepsStore | services/post.js:8-40 | a new post, with a new ledger or none, keeps the whole store invariant |
| MongoStore.NewCommentKeepsStore | services/comment.js:10-49 | a new comment with a new ledger, pushed onto its post, keeps the whole store invariant |
| MongoStore.NewReplyKeepsStore | services/reply.js:9-48 | a new reply with a new ledger, pushed onto its parent, keeps the whole store invariant |
| MongoStore.ContentStore.constructor | models/post.js:1-17 | empty tables satisfying the invariant |
| MongoPosts.AddPost | services/post.js:8-40 | the post is stored under a fresh id; with a file it gets the upload URL and a new ledger; without one the `filename` TypeError is thrown after the post is stored, with no ledger |
| MongoPosts.UpdatePost | services/post.js:41-69 | missing or deleted post, or another's post, refused with an `error` key; otherwise only the description changes |
| MongoPosts.DeletePost | services/post.js:70-98 | the same refusals; otherwise only the deletion flag is set |
| MongoPosts.AddLike | services/post.js:180-214 | missing post `error`; no ledger TypeError; a repeat like refused with a `message` key; otherwise the ledger becomes `Apply(l, Like(u))` |
| MongoPosts.RemoveLike | services/post.js:215-249 | missing post `error`; no ledger TypeError; not liked refused with a `message` key; otherwise the ledger becomes `Apply(l, Unlike(u))` |
| MongoPosts.PushComment | services/post.js:250-264 | appends the comment id to that post's `comments` only, and returns the updated post (null when there is none) |
| MongoPosts.PullComment | services/post.js:265-279 | removes every occurrence of the comment id from that post's `comments` only, and returns the updated post |
| MongoPosts.ViewPost | services/post.js:139-179 | a live post with its ledger and previewed comments; a missing or deleted one refused |
| MongoPosts.CardFacts | services/post.js:110-128 | the previewed comments of a post are at most 5, each a live comment of that post; under the per-document reading of the populate limit, a post with at most 5 comments shows them all |
| MongoPosts.GetPostFacts | services/post.js:99-138 | the listing shows live posts created no later than `before`, each once, newest first, within the limit |
| MongoPosts.GetPost | services/post.js:99-138 | the listing of post cards; what it shows is stated by `GetPostFacts` |
| MongoPosts.FirstPageIsNewest | services/post.js:99-138 | an eligible post missing from an unskipped page is no newer than any post shown |
| MongoPosts.ViewAgreesWithList | services/post.js:99-179 | under the per-document reading of the populate limit, every card the listing shows is the card `ViewPost` returns for that id |
| MongoComments.AddComment | services/comment.js:10-49 | missing or deleted post refused; otherwise a new comment with an empty ledger, appended to the post's `comments` |
| MongoComments.UpdateComment | services/comment.js:50-79 | missing or someone else's comment refused; otherwise only its description changes |
| MongoComments.DeleteComment | services/comment.js:80-111 | missing or someone else's comment refused; otherwise it is flagged deleted and pulled from its post |
| MongoComments.AddCommentLike | services/comment.js:222-257 | missing comment refused; a repeat like refused with a `message` key; otherwise the ledger becomes `Apply(l, Like(u))` |
| MongoComments.RemoveCommentLike | services/comment.js:258-293 | missing comment refused; not liked refused with a `message` key; otherwise the ledger becomes `Apply(l, Unlike(u))` |
| MongoComments.PushReply | services/comment.js:294-308 | appends the reply id to that comment's `replies` only |
| MongoComments.PullReply | services/comment.js:309-323 | removes the reply id from that comment's `replies` only |
| MongoComments.ViewComment | services/comment.js:171-221 | any live record of the comment table with its ledger and previewed replies; a missing or deleted one refused |
| MongoComments.CardFacts | services/comment.js:133-160 | the previewed replies are at most 5, each a stored record listed under that comment |
| MongoComments.GetCommentFacts | services/comment.js:112-170 | a missing post is refused; otherwise the post's live comments up to `before`, each once, newest first, within the limit |
| MongoComments.GetComment | services/comment.js:112-170 | the listing of a post's comment cards; what it shows and refuses is stated by `GetCommentFacts` |
| MongoComments.FirstPageIsNewest | services/comment.js:112-170 | an eligible comment missing from an unskipped page is no newer than any comment shown |
| MongoReplies.AddReply | services/reply.js:9-48 | missing or deleted parent refused; otherwise a new reply with an empty ledger, appended to the parent's `replies` |
| MongoReplies.UpdateReply | services/reply.js:49-78 | missing or someone else's reply refused; otherwise only its description changes |
| MongoReplies.DeleteReply | services/reply.js:79-110 | missing or someone else's reply refused; otherwise it is flagged deleted and no longer listed under its parent |
| MongoReplies.ViewReply | services/reply.js:151-181 | found exactly when the record is live, whether or not it is a reply |
| MongoReplies.GetReplyFacts | services/reply.js:111-150 | a missing comment is refused; otherwise its live replies up to `before`, each once, newest first, within the limit |
| MongoReplies.GetReply | services/reply.js:111-150 | the listing of a comment's reply cards; what it shows and refuses is stated by `GetReplyFacts` |
| MongoReplies.ListedRepliesArePreviewed | services/reply.js:111-150 | every reply that `GetReply` lists appears in its parent's `replies` array |
| MongoUsers.Hex | services/user.js:7-16 | the hex encoding has two characters per byte and no colon |
| MongoUsers.HexDigitInjective | services/user.js:7-16 | distinct nibbles give distinct hex digits |
| MongoUsers.HexInjective | services/user.js:7-16 | distinct byte strings give distinct hex strings |
| MongoUsers.IndexOf | services/user.js:18-26 | the first position of the character |
| MongoUsers.Split | services/user.js:20 | `split` gives at least one piece and no piece holds the separator |
| MongoUsers.SplitAtFirst | services/user.js:20 | a separator-free head, a separator and a tail split into the head followed by the tail's pieces |
| MongoUsers.HashFormat | services/user.js:7-16 | a stored hash is 16 hex digits of salt, a colon, and 128 hex digits of key |
| MongoUsers.VerifyAcceptsOwnHash | services/user.js:7-26 | the check accepts the password the hash was made from |
| MongoUsers.VerifyAcceptsOnlyMatchingKeys | services/user.js:7-26 | another password is accepted only when it derives the same key under the same salt |
| MongoUsers.HashPassword | services/user.js:7-16 | the hex salt, a colon and the hex of the derived key; its format is stated by `HashFormat` |
| MongoUsers.VerifyPassword | services/user.js:18-26 | the password check against a stored hash; `VerifyAcceptsOnlyMatchingKeys` states when it accepts |
| MongoUsers.HashIsNotPlaintext | services/user.js:7-16 | a stored hash never equals a colon-free password |
| MongoUsers.Accounts.constructor | models/user.js:1-13 | an empty account table |
| MongoUsers.Accounts.SignUp | services/user.js:33-64 | a username or email in use refused first, then differing passwords; otherwise a new account with the password hashed; uniqueness kept |
| MongoUsers.FindByName | services/user.js:67-70 | the found account has the username; none means no account has it |
| MongoUsers.SignInFacts | services/user.js:65-105 | tokens are issued only for an account with that username whose hash accepts the password; an unknown name is a TypeError |
| MongoUsers.SignIn | services/user.js:65-105 | the sign-in outcome; `SignInFacts` states when tokens are issued and which error each failure gives |
| MongoUsers.SignUpThenSignIn | services/user.js:33-105 | an account made by a sign-up signs in with the same password |
| Scenarios.PrismaLikeTwice | test/post.test.js:245-300 | like count 0 → 1; a second like 400; liking post 0 is 404 |
| Scenarios.PrismaUnlikeTwice | test/post.test.js:301-361 | after a like, unlike brings the count back to 0; a second unlike 400 |
| Scenarios.PrismaWrongPassword | test/user.test.js:97-142 | after a registration, a login with a wrong password is refused with 401 |
| Scenarios.PrismaSessionCycle | test/user.test.js:97-297 | register; login stores the token on the row (the tests at lines 97-142 log in by username; the login by email is this model's own case); logout clears it, as the test at lines 280-297 has it |
| Scenarios.MongoLikeCycle | services/post.js:180-249 | one like, a refused repeat with a `message` key that the router treats as success, an unlike, a refused repeat |
| Scenarios.MongoPostWithoutUpload | services/post.js:8-40 | a post made without a file has no ledger, so liking it is a TypeError |
| Scenarios.MongoSignUpOrder | services/user.js:33-64 | a taken username is refused as taken even with differing passwords; a fresh one with differing passwords as a mismatch |

## Left out

- The HTTP layer is not modelled: Express routers, controllers, middleware, `app.js`, `server.js` and configuration. The one exception is the routers' error test (`ReportedAsError`).
- Strings from the request are not converted to numbers. Joi's conversion (`"5"` to 5) is not modelled. Requests carry values that are already typed: `Integer`, `Text`, `Fraction`, `Other`.
- Joi's email rule is a parameter (`isEmail`).
- `Supplied`: as in the source, an empty-string field in an update counts as not supplied. Joi's own rejection of empty strings is modelled as well.
- Database behaviour that is not modelled:
  - Prisma schema defaults other than those the calls rely on;
  - cascading deletes;
  - unique constraints;
  - the database's own rejection of an `update` on a row already deleted.
- Mongoose behaviour that is not modelled:
  - the `CastError` on a malformed id;
  - a negative or fractional `skip`;
  - fields left `undefined`;
  - `populate` `select` projections (cards hold whole records).
- Concurrency is not modelled: the calls run one after another.
- PrismaPosts.PostService.Remove: the two calls of the `Promise.all` run in order. The result is `Ok`, although in the source the decrement of the deleted row may reject the promise.
- Numbers are unbounded integers. JavaScript's double precision and `NaN` arithmetic are not modelled; `parseInt` returns `NaN` as a separate case.
- Listings break ties among equal `createdAt` by ascending id. The source gives no tie order. Of the contracts, only `Feed.PagesTile` depends on one; every other listing contract holds for any order that sorts newest first.
- Feed.PagesTile: the tiling holds for the model's one fixed order. The source sorts on `createdAt` (or `created_at`) alone, with no tie key, so two queries with different offsets may order equal timestamps differently. The source promises that pages neither repeat nor miss a row only when no two selected rows share a `createdAt`.
- `findFirst` and `findOne` pick the lowest matching id.
- The Mongo `populate` limit of 5 is applied to each document separately, and it takes the first 5 ids in array order. Mongoose does otherwise: the `limit` option of a populate is not per document (that is `perDocumentLimit`). It runs one query for the children of the whole page, capped at 5 times the page's size, so on a page of several posts or comments a card can show fewer than 5 of its children, even none, although it has more; which ones depend on the order in which the database returns them. The model's previews agree with the source only for pages of one record, as in `ViewPost` and `ViewComment`.
- MongoPosts.ViewAgreesWithList: holds for the per-document preview. For the source it is promised only for a page of one post; on a longer page a listed card can show fewer comments than `ViewPost`.
- MongoPosts.CardFacts: the "a post with at most 5 comments shows them all" part holds for the per-document preview. For the source it is promised only for a page of one post.
- MongoComments.CardFacts: the same reading applies to the replies that `GetComment` previews on a page of several comments.
- `Populate` keeps only ids whose record is stored under that id.
- Success messages of the Mongoose services are not modelled. `Done` holds the record or ledger itself.
- The token flow of `services/user.js` (`Token`) is not modelled, and neither is `generateToken`. JWT signing is a pair of parameters, `accessToken` and `refreshToken`.
- Outside inputs are parameters rather than values drawn by the system:
  - uploaded files: `File` records and the multer storage; the model keeps only the file name;
  - clocks: `now`;
  - random salts;
  - uuid tokens;
  - bcrypt and scrypt.
- MongoPosts.AddPost: the `File` document it creates is not modelled. Only the URL stored on the post is.
- `src/validation/validation.js`, the `validate` helper imported at src/service/post-service.js:1 and src/service/user-service.js:1, is not part of this model. It is taken to throw a 400 `ResponseError` when the schema refuses the value (`Invalid`) and otherwise to return the value.
- MongoReplies.ViewReply: as in the source, it finds any live record of the comment table, top-level comments included.
- A reply whose own id is passed to `DeleteComment` is flagged, but it stays in its parent's `replies` array, as in the source: it has no `postId`, so the pull matches nothing. The invariant only asks that live replies be listed.

## Findings

| source | as written | input that shows it | evidently intended | confidence | as-written member | corrected member |
|---|---|---|---|---|---|---|
| src/service/post-service.js:154-160 | removing a reply sends the `reply_count` decrement to the removed row's own id, so the parent's counter never drops | post 1 with one reply, post 2; remove post 2 as its owner | the parent's `reply_count` drops by one when a reply is removed | not executed | PrismaPosts.RemoveAsWrittenLeavesStaleCount | PrismaPosts.RemoveKeepsReplyCounts |
| src/service/user-service.js:16-23 | registration is refused only when exactly one user has the username or the email | user 1 "ann"/"ann@x", user 2 "bob"/"bob@x"; register "ann"/"bob@x" (count 2) | refuse when any user has the username or the email | not executed | PrismaUsers.AsWrittenAcceptsTwoMatches | PrismaUsers.IntendedCheckKeepsAccountsUnique |
