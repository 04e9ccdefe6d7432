/** Request values and the building blocks of the Joi schemas used by the
    Prisma half (src/validation). A request body is a map from field name to
    value; a field the client did not send is absent from the map. */
module Requests {

  /** A field value as the schemas see it. `Text` is a string that Joi could
      not turn into a number; a numeric string (a route parameter such as
      `post_id`) is represented by the `Integer` or `Fraction` it converts to. */
  datatype Value = Text(s: string) | Integer(n: int) | Fraction | Other

  type Request = map<string, Value>

  /** What a Prisma-side service call throws: `validate`'s 400 error (Joi's
      message is not modelled), a `ResponseError` the service raises, or an
      error Prisma itself raises on a malformed query argument. */
  datatype Failure = Invalid | Rejected(status: int, message: string) | StoreRejected(reason: string)

  /** `Joi.string()`: a string, and not the empty string (Joi refuses `''`
      unless a schema allows it, and none here does). */
  predicate JoiString(v: Value)
  {
    v.Text? && |v.s| > 0
  }

  /** A character beyond the Basic Multilingual Plane, which JavaScript
      stores as a surrogate pair. */
  predicate Astral(c: char)
  {
    c as int >= 0x1_0000
  }

  /** A string's JavaScript `length`: its UTF-16 code units, one for each
      character of the Basic Multilingual Plane and two for each other one. */
  function Utf16Length(s: string): (r: nat)
    ensures |s| <= r <= 2 * |s|
    ensures r == |s| <==> forall i :: 0 <= i < |s| ==> !Astral(s[i])
    ensures r == 2 * |s| <==> forall i :: 0 <= i < |s| ==> Astral(s[i])
  {
    if s == [] then 0
    else
      var rest := Utf16Length(s[1..]);
      assert forall i :: 1 <= i < |s| ==> s[i] == s[1..][i - 1];
      (if Astral(s[0]) then 2 else 1) + rest
  }

  /** `Joi.string().max(max)`: Joi compares `max` with the string's
      JavaScript `length`. */
  predicate JoiStringMax(v: Value, max: nat)
  {
    JoiString(v) && Utf16Length(v.s) <= max
  }

  /** `Joi.number().integer()`. */
  predicate JoiInteger(v: Value)
  {
    v.Integer?
  }

  /** An object schema refuses keys it does not list. */
  predicate OnlyKeys(req: Request, allowed: set<string>)
  {
    req.Keys <= allowed
  }
}

/** The schemas of src/validation/post-validation.js as predicates. */
module PostValidation {
  import opened Requests

  /** Longest post or reply text. */
  const MaxText := 140

  /** createPostValidation: `text` (string, at most 140) and integer `user_id`, both required. */
  predicate CreatePost(req: Request)
  {
    && OnlyKeys(req, {"text", "user_id"})
    && "text" in req && JoiStringMax(req["text"], MaxText)
    && "user_id" in req && JoiInteger(req["user_id"])
  }

  /** getPostValidation: a single required integer. */
  predicate GetPost(v: Value)
  {
    JoiInteger(v)
  }

  /** likePostValidation (also used by `remove`): integer `user_id` and `post_id`. */
  predicate LikePost(req: Request)
  {
    && OnlyKeys(req, {"user_id", "post_id"})
    && "user_id" in req && JoiInteger(req["user_id"])
    && "post_id" in req && JoiInteger(req["post_id"])
  }

  /** replyPostValidation: the create fields plus an integer `post_id`. */
  predicate ReplyPost(req: Request)
  {
    && OnlyKeys(req, {"text", "post_id", "user_id"})
    && "text" in req && JoiStringMax(req["text"], MaxText)
    && "post_id" in req && JoiInteger(req["post_id"])
    && "user_id" in req && JoiInteger(req["user_id"])
  }

  /** getAllPostValidation: integer `user_id`; `offset` and `limit` optional strings. */
  predicate GetAllPost(req: Request)
  {
    && OnlyKeys(req, {"user_id", "offset", "limit"})
    && "user_id" in req && JoiInteger(req["user_id"])
    && ("offset" in req ==> JoiString(req["offset"]))
    && ("limit" in req ==> JoiString(req["limit"]))
  }

  /** A reply request is exactly a create request plus an integer `post_id`. */
  lemma ReplyIsCreateWithParent(req: Request)
    ensures ReplyPost(req) <==>
      ("post_id" in req && JoiInteger(req["post_id"]) && CreatePost(req - {"post_id"}))
  {
    var rest := req - {"post_id"};
    assert "text" in req <==> "text" in rest;
    assert "user_id" in req <==> "user_id" in rest;
    if "post_id" in req {
      assert req.Keys == rest.Keys + {"post_id"};
    }
  }

  /** A valid create body holds exactly `text` and `user_id`, and a valid
      reply body exactly those and `post_id`: every key is required. */
  lemma BodiesHaveEveryKey(req: Request)
    ensures CreatePost(req) ==> req.Keys == {"text", "user_id"}
    ensures ReplyPost(req) ==> req.Keys == {"text", "post_id", "user_id"}
  {
  }

  /** A valid like or remove request carries exactly `user_id` and `post_id`. */
  lemma LikeRequestHasTwoFields(req: Request)
    requires LikePost(req)
    ensures req.Keys == {"user_id", "post_id"}
  {
  }

  /** Every schema of the module refuses a key it does not list. */
  lemma UnknownKeyRefused(req: Request, k: string)
    requires k in req
    ensures k != "text" && k != "user_id" ==> !CreatePost(req)
    ensures k != "user_id" && k != "post_id" ==> !LikePost(req)
    ensures k != "text" && k != "post_id" && k != "user_id" ==> !ReplyPost(req)
    ensures k != "user_id" && k != "offset" && k != "limit" ==> !GetAllPost(req)
  {
  }

  /** An empty string is refused wherever a schema asks for a string
      (test/post.test.js, "should reject if request is invalid"). */
  lemma EmptyStringRefused(req: Request, k: string)
    requires k in req && req[k] == Text("")
    ensures k == "text" ==> !CreatePost(req) && !ReplyPost(req)
    ensures k == "offset" || k == "limit" ==> !GetAllPost(req)
  {
  }

  /** Text of more than 140 UTF-16 units is refused, for a reply as for a post. */
  lemma LongTextRefused(text: string, userId: int, postId: int)
    requires Utf16Length(text) > MaxText
    ensures !CreatePost(map["text" := Text(text), "user_id" := Integer(userId)])
    ensures !ReplyPost(map["text" := Text(text), "post_id" := Integer(postId), "user_id" := Integer(userId)])
  {
  }

  /** Any non-empty text of at most 140 UTF-16 units with an integer author
      is a valid post; together with `LongTextRefused` this bound is exact. */
  lemma BoundedTextAccepted(text: string, userId: int)
    requires 0 < |text| && Utf16Length(text) <= MaxText
    ensures CreatePost(map["text" := Text(text), "user_id" := Integer(userId)])
  {
    var req := map["text" := Text(text), "user_id" := Integer(userId)];
    assert req["text"] == Text(text) && req.Keys == {"text", "user_id"};
    assert JoiStringMax(req["text"], MaxText) && JoiInteger(req["user_id"]);
  }

  /** The bound counts UTF-16 units, not characters: 71 characters beyond
      the Basic Multilingual Plane are refused, 140 others are accepted. */
  lemma LengthCountsCodeUnits(text: string, userId: int)
    ensures (forall i :: 0 <= i < |text| ==> Astral(text[i])) && |text| > MaxText / 2 ==>
      !CreatePost(map["text" := Text(text), "user_id" := Integer(userId)])
    ensures 0 < |text| <= MaxText && (forall i :: 0 <= i < |text| ==> !Astral(text[i])) ==>
      CreatePost(map["text" := Text(text), "user_id" := Integer(userId)])
  {
    var req := map["text" := Text(text), "user_id" := Integer(userId)];
    assert req["text"].s == text && req.Keys == {"text", "user_id"};
  }
}

/** The schemas of src/validation/user-validation.js as predicates. `isEmail`
    stands for Joi's email syntax check, which is not modelled. */
module UserValidation {
  import opened Requests

  /** Longest username, email, password or display name. */
  const MaxField := 100

  /** registerUserValidation: all four fields required, each at most 100 characters. */
  predicate Register(req: Request, isEmail: string -> bool)
  {
    && OnlyKeys(req, {"username", "email", "password", "name"})
    && "username" in req && JoiStringMax(req["username"], MaxField)
    && "email" in req && JoiStringMax(req["email"], MaxField) && isEmail(req["email"].s)
    && "password" in req && JoiStringMax(req["password"], MaxField)
    && "name" in req && JoiStringMax(req["name"], MaxField)
  }

  /** loginUserValidation: `username` (a username or an email) and `password`. */
  predicate Login(req: Request)
  {
    && OnlyKeys(req, {"username", "password"})
    && "username" in req && JoiStringMax(req["username"], MaxField)
    && "password" in req && JoiStringMax(req["password"], MaxField)
  }

  /** getUserValidation: a single required integer. */
  predicate GetUser(v: Value)
  {
    JoiInteger(v)
  }

  /** An optional string field: absent, or a string of at most 100 characters. */
  predicate OptionalField(req: Request, key: string)
  {
    key in req ==> JoiStringMax(req[key], MaxField)
  }

  /** updateUserValidation: integer `id` required, every other field optional. */
  predicate Update(req: Request, isEmail: string -> bool)
  {
    && OnlyKeys(req, {"id", "username", "email", "password", "name"})
    && "id" in req && JoiInteger(req["id"])
    && OptionalField(req, "username")
    && OptionalField(req, "email") && ("email" in req ==> isEmail(req["email"].s))
    && OptionalField(req, "password")
    && OptionalField(req, "name")
  }

  /** A valid registration holds exactly its four fields, and a valid login
      exactly `username` and `password`. */
  lemma BodiesHaveEveryKey(req: Request, isEmail: string -> bool)
    ensures Register(req, isEmail) ==> req.Keys == {"username", "email", "password", "name"}
    ensures Login(req) ==> req.Keys == {"username", "password"}
  {
  }

  /** Any registration body, tagged with an integer id, is a valid update:
      the optional update fields obey the register bounds. */
  lemma RegisterFieldsAreValidUpdate(req: Request, id: int, isEmail: string -> bool)
    requires Register(req, isEmail)
    ensures Update(req["id" := Integer(id)], isEmail)
  {
  }

  /** An update that sends only the id is valid: nothing else is required. */
  lemma IdAloneIsValidUpdate(id: int, isEmail: string -> bool)
    ensures Update(map["id" := Integer(id)], isEmail)
  {
  }

  /** An empty string is refused in any field of the register and login
      schemas, and as any supplied update field (test/user.test.js, "should
      reject if request is invalid"). */
  lemma EmptyFieldRefused(req: Request, k: string, isEmail: string -> bool)
    requires k in req && req[k] == Text("")
    ensures k == "username" || k == "email" || k == "password" || k == "name" ==>
      !Register(req, isEmail) && !Update(req, isEmail)
    ensures k == "username" || k == "password" ==> !Login(req)
  {
  }

  /** Every schema of the module refuses a key it does not list. */
  lemma UnknownKeyRefused(req: Request, k: string, isEmail: string -> bool)
    requires k in req && k != "username" && k != "password"
    ensures k != "email" && k != "name" ==> !Register(req, isEmail)
    ensures !Login(req)
    ensures k != "email" && k != "name" && k != "id" ==> !Update(req, isEmail)
  {
  }

  /** A registered user can log in: the username and password of any valid
      registration form a valid login, and so do its email and password,
      since the login looks the `username` up as a username or an email. */
  lemma RegisterBodyIsLogin(req: Request, isEmail: string -> bool)
    requires Register(req, isEmail)
    ensures Login(map["username" := req["username"], "password" := req["password"]])
    ensures Login(map["username" := req["email"], "password" := req["password"]])
  {
  }
}
